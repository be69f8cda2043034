/**
 Writing parameters into an OpenStudio workflow (osimflow/apply_params.py and
 osimflow/_work_osm_mutations.py). The coercion of one value is a parameter: it may
 fail, and it may look at the value being replaced.
 */
module OswMutation {
  import opened Wrappers
  import opened OswTable
  import opened OswPreflight

  /** What `_coerce_osw_argument_value` sees; None is an `ArgumentCoercionError`. */
  datatype Request = Request(
    arg: string, value: Value, existing: Value, default: Value, types: map<string, string>, measure: string)
  type Coercion = Request -> Option<Value>

  datatype Param<+V> = Param(key: string, value: V)

  /** A value for a step argument. */
  type OswParam = Param<Value>

  /** The `arguments` of each step. */
  type Arguments = seq<map<string, Value>>

  const EPW := "__epw_file__"

  function FirstNamed(steps: seq<Step>, name: string, from: nat): (r: Option<nat>)
    requires from <= |steps|
    ensures r.Some? ==> from <= r.value < |steps| && steps[r.value].Step? && steps[r.value].name == name
    ensures r.None? ==> forall i :: from <= i < |steps| && steps[i].Step? ==> steps[i].name != name
    decreases |steps| - from
  {
    if from == |steps| then None
    else if steps[from].Step? && steps[from].name == name then Some(from)
    else FirstNamed(steps, name, from + 1)
  }

  /** `_resolve_step_index` */
  function ResolveStepIndex(steps: seq<Step>, m: Mapped): (r: Option<nat>)
    ensures r.Some? ==> r.value < |steps|
  {
    if m.stepIndex.None? then None
    else
      var idx := m.stepIndex.value;
      if m.stepName.Some? && idx < |steps| && steps[idx].Step? && steps[idx].name == m.stepName.value then Some(idx)
      else if m.stepName.Some? && FirstNamed(steps, m.stepName.value, 0).Some? then FirstNamed(steps, m.stepName.value, 0)
      else if idx < |steps| then Some(idx)
      else None
  }

  predicate Named(steps: seq<Step>, i: nat, name: string) {
    i < |steps| && steps[i].Step? && steps[i].name == name
  }

  /** The index holds while its step has the recorded name; a moved step is found by name, the first of several; else the index is trusted. */
  lemma {:induction false} ResolvesByName(steps: seq<Step>, m: Mapped, name: string, idx: nat, k: nat)
    requires m.stepIndex == Some(idx) && m.stepName == Some(name)
    ensures Named(steps, idx, name) ==> ResolveStepIndex(steps, m) == Some(idx)
    ensures !Named(steps, idx, name) && Named(steps, k, name) && (forall j: nat :: j < k ==> !Named(steps, j, name)) ==>
              ResolveStepIndex(steps, m) == Some(k)
    ensures (forall j: nat :: !Named(steps, j, name)) ==> ResolveStepIndex(steps, m) == if idx < |steps| then Some(idx) else None
  {
    var found := FirstNamed(steps, name, 0);
    if found.Some? {
      assert Named(steps, found.value, name);
    } else {
      assert forall j: nat :: !Named(steps, j, name);
    }
    if Named(steps, k, name) && forall j: nat :: j < k ==> !Named(steps, j, name) {
      FirstNamedIs(steps, name, k, 0);
    }
  }

  lemma {:induction false} FirstNamedIs(steps: seq<Step>, name: string, k: nat, from: nat)
    requires from <= k && Named(steps, k, name) && forall j: nat :: from <= j < k ==> !Named(steps, j, name)
    ensures FirstNamed(steps, name, from) == Some(k)
    decreases |steps| - from
  {
    if from < k {
      assert !Named(steps, from, name);
      FirstNamedIs(steps, name, k, from + 1);
    }
  }

  /** On the workflow the table was read from, every entry resolves to its own step. */
  lemma {:induction false} ResolvesToOwnStep(steps: seq<Step>, key: string)
    requires key in TableOf(steps)
    ensures TableOf(steps)[key].stepIndex.Some?
    ensures ResolveStepIndex(steps, TableOf(steps)[key]) == TableOf(steps)[key].stepIndex
  {
    TableHasShape(steps);
    assert EntryShape(steps, key, TableOf(steps)[key]);
  }

  function XmlTypes(xs: seq<XmlArg>): map<string, string> {
    if xs == [] then map[] else XmlTypes(xs[..|xs| - 1])[xs[|xs| - 1].name := xs[|xs| - 1].typ]
  }

  lemma {:induction false} XmlTypesAre(xs: seq<XmlArg>, i: nat)
    requires i < |xs| && forall j :: i < j < |xs| ==> xs[j].name != xs[i].name
    ensures xs[i].name in XmlTypes(xs) && XmlTypes(xs)[xs[i].name] == xs[i].typ
  {
    if i < |xs| - 1 {
      XmlTypesAre(xs[..|xs| - 1], i);
    }
  }

  lemma {:induction false} XmlTypesName(xs: seq<XmlArg>, a: string)
    requires a in XmlTypes(xs)
    ensures exists i :: 0 <= i < |xs| && xs[i].name == a
  {
    var init, last := xs[..|xs| - 1], xs[|xs| - 1];
    if last.name != a {
      XmlTypesName(init, a);
      var i :| 0 <= i < |init| && init[i].name == a;
      assert xs[i].name == a;
    }
  }

  /** The types a step coerces with are those its `measure.xml` declares. */
  lemma {:induction false} TypesAreDeclared(s: Step, a: string)
    requires WfStep(s) && s.Step?
    ensures a in TypesOf(s) <==> s.xml.Some? && exists i :: 0 <= i < |s.xml.value.args| && s.xml.value.args[i].name == a
    ensures s.xml.Some? ==> forall i :: 0 <= i < |s.xml.value.args| && s.xml.value.args[i].name == a ==>
                              a in TypesOf(s) && TypesOf(s)[a] == s.xml.value.args[i].typ
  {
    if s.xml.Some? {
      var xs := s.xml.value.args;
      if a in XmlTypes(xs) {
        XmlTypesName(xs, a);
      }
      forall i | 0 <= i < |xs| && xs[i].name == a ensures a in XmlTypes(xs) && XmlTypes(xs)[a] == xs[i].typ {
        XmlTypesAre(xs, i);
      }
    }
  }

  function TypesOf(s: Step): map<string, string> {
    if s.Step? && s.dirName != "" && s.xml.Some? then XmlTypes(s.xml.value.args) else map[]
  }

  function ValueAt(args: Arguments, i: nat, a: string): Value
    requires i < |args|
  {
    if a in args[i] then args[i][a] else Null
  }

  /** The value parameter `p` gives the argument of mapping `m` in step `i`, whose current value is `existing`. */
  function Coerced(coerce: Coercion, steps: seq<Step>, m: Mapped, i: nat, existing: Value, value: Value): Option<Value>
    requires i < |steps|
  {
    coerce(Request(m.name, value, existing, m.default, TypesOf(steps[i]), MeasureName(steps[i])))
  }

  /** The step a parameter writes to, if it writes at all. */
  function Destination(steps: seq<Step>, t: Table, key: string): (r: Option<nat>)
    ensures r.Some? ==> r.value < |steps| && key in t
  {
    if key in t && t[key].kind == MeasureArgument then ResolveStepIndex(steps, t[key]) else None
  }

  function Written(coerce: Coercion, steps: seq<Step>, t: Table, args: Arguments, p: OswParam): (r: Option<Arguments>)
    requires |args| == |steps|
    ensures r.Some? ==> |r.value| == |steps|
  {
    var d := Destination(steps, t, p.key);
    if d.None? then Some(args)
    else
      var m := t[p.key];
      var c := Coerced(coerce, steps, m, d.value, ValueAt(args, d.value, m.name), p.value);
      if c.None? then None else Some(args[d.value := args[d.value][m.name := c.value]])
  }

  /** The parameters written one after the other. */
  function WrittenAll(coerce: Coercion, steps: seq<Step>, t: Table, args: Arguments, ps: seq<OswParam>): (r: Option<Arguments>)
    requires |args| == |steps|
    ensures r.Some? ==> |r.value| == |steps|
  {
    if ps == [] then Some(args)
    else
      var before := WrittenAll(coerce, steps, t, args, ps[..|ps| - 1]);
      if before.None? then None else Written(coerce, steps, t, before.value, ps[|ps| - 1])
  }

  function Keys<V>(ps: seq<Param<V>>): (r: seq<string>)
    ensures |r| == |ps| && forall i :: 0 <= i < |ps| ==> r[i] == ps[i].key
  {
    seq(|ps|, i requires 0 <= i < |ps| => ps[i].key)
  }

  /** The workflow file being mutated; only its arguments and weather file change. */
  class OswFile {
    const steps: seq<Step>
    var args: Arguments
    var weather: Option<Sample>

    ghost predicate Valid()
      reads this
    {
      |args| == |steps|
    }

    constructor (steps: seq<Step>)
      ensures Valid() && this.steps == steps && weather == None
      ensures args == seq(|steps|, i requires 0 <= i < |steps| => if steps[i].Step? then steps[i].args else map[])
    {
      this.steps := steps;
      args := seq(|steps|, i requires 0 <= i < |steps| => if steps[i].Step? then steps[i].args else map[]);
      weather := None;
    }

    /** `_mutate_osw`: the file is written once, after every value was coerced. */
    method Mutate(coerce: Coercion, t: Table, ps: seq<OswParam>) returns (ok: bool)
      requires Valid()
      modifies this`args
      ensures Valid()
      ensures ok <==> SelectTargets(Keys(ps), t) == [] && WrittenAll(coerce, steps, t, old(args), ps).Some?
      ensures args == if ok then WrittenAll(coerce, steps, t, old(args), ps).value else old(args)
    {
      var ambiguous := CheckAmbiguousStepTargets(Keys(ps), t);
      if ambiguous != [] {
        return false;
      }
      var original := args;
      var data := original;
      var stepTypes: map<nat, map<string, string>> := map[];
      for n := 0 to |ps|
        modifies {}
        invariant |data| == |steps|
        invariant WrittenAll(coerce, steps, t, original, ps[..n]) == Some(data)
        invariant forall i :: i in stepTypes ==> i < |steps| && stepTypes[i] == TypesOf(steps[i])
      {
        WrittenSnoc(coerce, steps, t, original, ps, n, data);
        var p := ps[n];
        if p.key in t && t[p.key].kind == MeasureArgument {
          var m := t[p.key];
          var d := ResolveStepIndex(steps, m);
          if d.Some? {
            var i := d.value;
            if i !in stepTypes {
              stepTypes := stepTypes[i := TypesOf(steps[i])];
            }
            var c := coerce(Request(m.name, p.value, ValueAt(data, i, m.name), m.default, stepTypes[i], MeasureName(steps[i])));
            if c.None? {
              FailureSticks(coerce, steps, t, original, ps, n + 1);
              return false;
            }
            data := data[i := data[i][m.name := c.value]];
          }
        }
      }
      assert ps[..|ps|] == ps;
      args := data;
      ok := true;
    }
  }

  lemma WrittenSnoc(coerce: Coercion, steps: seq<Step>, t: Table, args: Arguments, ps: seq<OswParam>, n: nat, data: Arguments)
    requires |args| == |steps| == |data| && n < |ps| && WrittenAll(coerce, steps, t, args, ps[..n]) == Some(data)
    ensures WrittenAll(coerce, steps, t, args, ps[..n + 1]) == Written(coerce, steps, t, data, ps[n])
  {
    assert ps[..n + 1][..n] == ps[..n];
  }

  lemma {:induction false} FailureSticks(coerce: Coercion, steps: seq<Step>, t: Table, args: Arguments, ps: seq<OswParam>, n: nat)
    requires |args| == |steps| && n <= |ps| && WrittenAll(coerce, steps, t, args, ps[..n]).None?
    ensures WrittenAll(coerce, steps, t, args, ps).None?
    decreases |ps|
  {
    if n < |ps| {
      assert ps[..|ps| - 1][..n] == ps[..n];
      FailureSticks(coerce, steps, t, args, ps[..|ps| - 1], n);
    } else {
      assert ps[..n] == ps;
    }
  }

  // ---------------------------------------------------------------------
  // Non-interfering writes are simultaneous
  // ---------------------------------------------------------------------

  /** No two parameters write the same argument of the same step. */
  ghost predicate NonInterfering(steps: seq<Step>, t: Table, ps: seq<OswParam>) {
    forall i, j :: 0 <= i < j < |ps| && Destination(steps, t, ps[i].key).Some? ==>
      !Hits(steps, t, ps[j], Destination(steps, t, ps[i].key).value, t[ps[i].key].name)
  }

  predicate Hits(steps: seq<Step>, t: Table, p: OswParam, i: nat, a: string) {
    Destination(steps, t, p.key) == Some(i) && t[p.key].name == a
  }

  /** What a parameter asks for, judged against the original file. */
  function Wanted(coerce: Coercion, steps: seq<Step>, t: Table, original: Arguments, p: OswParam): Option<Value>
    requires |original| == |steps| && Destination(steps, t, p.key).Some?
  {
    var i, m := Destination(steps, t, p.key).value, t[p.key];
    coerce(Request(m.name, p.value, if m.name in original[i] then original[i][m.name] else Null, m.default,
                   TypesOf(steps[i]), MeasureName(steps[i])))
  }

  predicate Refused(coerce: Coercion, steps: seq<Step>, t: Table, original: Arguments, p: OswParam)
    requires |original| == |steps|
  {
    Destination(steps, t, p.key).Some? && Wanted(coerce, steps, t, original, p).None?
  }

  /** Argument `a` of step `i` is as in the original file. */
  predicate Untouched(original: Arguments, result: Arguments, i: nat, a: string)
    requires i < |original| == |result|
  {
    (a in result[i] <==> a in original[i]) && (a in result[i] ==> result[i][a] == original[i][a])
  }

  predicate Holds(result: Arguments, i: nat, a: string, v: Value)
    requires i < |result|
  {
    a in result[i] && result[i][a] == v
  }

  /** Every targeted argument holds its value, coerced against the original file; every other is untouched. */
  ghost predicate Simultaneous(coerce: Coercion, steps: seq<Step>, t: Table, original: Arguments, ps: seq<OswParam>, result: Arguments)
    requires |original| == |steps|
  {
    && |result| == |steps|
    && (forall p :: p in ps && Destination(steps, t, p.key).Some? ==>
          && Wanted(coerce, steps, t, original, p).Some?
          && Holds(result, Destination(steps, t, p.key).value, t[p.key].name, Wanted(coerce, steps, t, original, p).value))
    && (forall i: nat, a :: i < |steps| && (forall p :: p in ps ==> !Hits(steps, t, p, i, a)) ==> Untouched(original, result, i, a))
  }

  lemma WriteTouchesOne(coerce: Coercion, steps: seq<Step>, t: Table, args: Arguments, p: OswParam, i: nat, a: string)
    requires |args| == |steps| && i < |steps| && !Hits(steps, t, p, i, a) && Written(coerce, steps, t, args, p).Some?
    ensures Untouched(args, Written(coerce, steps, t, args, p).value, i, a)
  {
  }

  lemma OneMoreWrite(coerce: Coercion, steps: seq<Step>, t: Table, original: Arguments, init: seq<OswParam>, before: Arguments, p: OswParam)
    requires |original| == |steps| && Simultaneous(coerce, steps, t, original, init, before)
    requires NonInterfering(steps, t, init + [p])
    ensures var after := Written(coerce, steps, t, before, p);
            && (after.None? <==> Refused(coerce, steps, t, original, p))
            && (after.Some? ==> Simultaneous(coerce, steps, t, original, init + [p], after.value))
  {
    var ps := init + [p];
    assert ps[|init|] == p;
    forall k | 0 <= k < |init| && Destination(steps, t, init[k].key).Some?
      ensures !Hits(steps, t, p, Destination(steps, t, init[k].key).value, t[init[k].key].name)
    {
      assert ps[k] == init[k];
    }
    var d := Destination(steps, t, p.key);
    if d.Some? {
      var i, a := d.value, t[p.key].name;
      assert forall q :: q in init ==> !Hits(steps, t, q, i, a);
      assert Untouched(original, before, i, a);
    }
    var after := Written(coerce, steps, t, before, p);
    if after.Some? {
      forall q | q in ps && Destination(steps, t, q.key).Some?
        ensures Wanted(coerce, steps, t, original, q).Some?
        ensures Holds(after.value, Destination(steps, t, q.key).value, t[q.key].name, Wanted(coerce, steps, t, original, q).value)
      {
        if q in init {
          WriteTouchesOne(coerce, steps, t, before, p, Destination(steps, t, q.key).value, t[q.key].name);
        }
      }
      forall i: nat, a | i < |steps| && forall q :: q in ps ==> !Hits(steps, t, q, i, a)
        ensures Untouched(original, after.value, i, a)
      {
        assert p in ps && forall q :: q in init ==> q in ps;
        assert forall q :: q in init ==> !Hits(steps, t, q, i, a);
        assert Untouched(original, before, i, a);
        WriteTouchesOne(coerce, steps, t, before, p, i, a);
      }
    }
  }

  /** Without interference the writes act as one: they fail only if some value is refused on the original file. */
  lemma {:induction false} WritesAreSimultaneous(coerce: Coercion, steps: seq<Step>, t: Table, original: Arguments, ps: seq<OswParam>)
    requires |original| == |steps| && NonInterfering(steps, t, ps)
    ensures var r := WrittenAll(coerce, steps, t, original, ps);
            && (r.None? <==> exists p :: p in ps && Refused(coerce, steps, t, original, p))
            && (r.Some? ==> Simultaneous(coerce, steps, t, original, ps, r.value))
  {
    if ps != [] {
      var init, last := ps[..|ps| - 1], ps[|ps| - 1];
      assert ps == init + [last];
      assert NonInterfering(steps, t, init) by {
        assert forall k :: 0 <= k < |init| ==> init[k] == ps[k];
      }
      WritesAreSimultaneous(coerce, steps, t, original, init);
      var before := WrittenAll(coerce, steps, t, original, init);
      if before.Some? {
        OneMoreWrite(coerce, steps, t, original, init, before.value, last);
      }
      assert forall p :: p in ps <==> p in init || p == last;
    }
  }

  /** The outcome is determined, so the order of the parameters does not matter. */
  lemma SimultaneousIsUnique(coerce: Coercion, steps: seq<Step>, t: Table, original: Arguments, ps: seq<OswParam>, qs: seq<OswParam>, r: Arguments, s: Arguments)
    requires |original| == |steps| && forall p :: p in ps <==> p in qs
    requires Simultaneous(coerce, steps, t, original, ps, r) && Simultaneous(coerce, steps, t, original, qs, s)
    ensures r == s
  {
    forall i: nat | i < |steps| ensures r[i] == s[i] {
      forall a: string ensures (a in r[i] <==> a in s[i]) && (a in r[i] ==> r[i][a] == s[i][a]) {
        if p :| p in ps && Hits(steps, t, p, i, a) {
          assert p in qs;
          assert Holds(r, i, a, Wanted(coerce, steps, t, original, p).value);
          assert Holds(s, i, a, Wanted(coerce, steps, t, original, p).value);
        } else {
          assert Untouched(original, r, i, a) && Untouched(original, s, i, a);
        }
      }
    }
  }

  lemma {:induction false} OrderDoesNotMatter(coerce: Coercion, steps: seq<Step>, t: Table, original: Arguments, ps: seq<OswParam>, qs: seq<OswParam>)
    requires |original| == |steps| && NonInterfering(steps, t, ps) && NonInterfering(steps, t, qs)
    requires forall p :: p in ps <==> p in qs
    ensures WrittenAll(coerce, steps, t, original, ps) == WrittenAll(coerce, steps, t, original, qs)
  {
    WritesAreSimultaneous(coerce, steps, t, original, ps);
    WritesAreSimultaneous(coerce, steps, t, original, qs);
    var r, s := WrittenAll(coerce, steps, t, original, ps), WrittenAll(coerce, steps, t, original, qs);
    if r.Some? && s.Some? {
      SimultaneousIsUnique(coerce, steps, t, original, ps, qs, r.value, s.value);
    }
  }

  // ---------------------------------------------------------------------
  // From preflight to the file
  // ---------------------------------------------------------------------

  /** On their own workflow, distinct targets do not interfere. */
  lemma {:induction false} DistinctTargetsDoNotInterfere(steps: seq<Step>, ps: seq<OswParam>)
    requires DistinctNames(Keys(ps)) && DistinctTargets(Keys(ps), TableOf(steps))
    ensures NonInterfering(steps, TableOf(steps), ps)
  {
    var t := TableOf(steps);
    forall i, j | 0 <= i < j < |ps| && Destination(steps, t, ps[i].key).Some?
      ensures !Hits(steps, t, ps[j], Destination(steps, t, ps[i].key).value, t[ps[i].key].name)
    {
      var k, l := ps[i].key, ps[j].key;
      assert Keys(ps)[i] == k && Keys(ps)[j] == l;
      assert k in Keys(ps) && l in Keys(ps) && k != l;
      assert TargetOf(t, k) != TargetOf(t, l);
      ResolvesToOwnStep(steps, k);
      ResolvesToOwnStep(steps, l);
    }
  }

  /**
   Passing preflight makes the writes one simultaneous assignment: every parameter lands in
   its own step argument, nothing else changes, and any order gives the same file.
   */
  lemma {:induction false} AcceptedWritesAreSimultaneous(coerce: Coercion, steps: seq<Step>, original: Arguments, ps: seq<OswParam>, qs: seq<OswParam>)
    requires |original| == |steps| && DistinctNames(Keys(ps)) && DistinctNames(Keys(qs))
    requires forall p :: p in ps ==> p.key in TableOf(steps) ==> !BadName(TableOf(steps)[p.key].name)
    requires Preflight(Keys(ps), TableOf(steps)) == Accepted
    requires forall p :: p in ps <==> p in qs
    ensures var t := TableOf(steps);
            var r := WrittenAll(coerce, steps, t, original, ps);
            && (forall p :: p in ps ==> p.key in t && Destination(steps, t, p.key) == t[p.key].stepIndex != None)
            && (r.None? <==> exists p :: p in ps && Refused(coerce, steps, t, original, p))
            && (r.Some? ==> Simultaneous(coerce, steps, t, original, ps, r.value))
            && WrittenAll(coerce, steps, t, original, qs) == r
  {
    var t := TableOf(steps);
    SameKeys(ps, qs);
    AcceptedTargetsDistinct(steps, Keys(ps));
    DistinctTargetsDoNotInterfere(steps, ps);
    DistinctTargetsDoNotInterfere(steps, qs);
    WritesAreSimultaneous(coerce, steps, t, original, ps);
    OrderDoesNotMatter(coerce, steps, t, original, ps, qs);
    forall p | p in ps ensures p.key in t && Destination(steps, t, p.key) == t[p.key].stepIndex != None {
      KeyIn(ps, p);
      TableHasShape(steps);
      assert EntryShape(steps, p.key, t[p.key]);
      ResolvesToOwnStep(steps, p.key);
    }
  }

  /** Different names that preflight accepts on their own workflow, none of an argument it cannot read back. */
  ghost predicate AcceptedOn(steps: seq<Step>, ps: seq<OswParam>) {
    && DistinctNames(Keys(ps))
    && Preflight(Keys(ps), TableOf(steps)) == Accepted
    && forall p :: p in ps && p.key in TableOf(steps) ==> !BadName(TableOf(steps)[p.key].name)
  }

  /** Parameter `p` writes argument `a` of step `i`, by the table entry of its name. */
  predicate Names(t: Table, p: OswParam, i: nat, a: string) {
    p.key in t && t[p.key].stepIndex == Some(i) && t[p.key].name == a
  }

  /** What the coercion is asked about the argument `a` of step `s`, which holds `args[a]` or nothing. */
  function RequestFor(s: Step, args: map<string, Value>, a: string, default: Value, value: Value): Request
    requires s.Step?
  {
    Request(a, value, if a in args then args[a] else Null, default, TypesOf(s), if s.dirName != "" then s.dirName else s.name)
  }

  lemma AcceptedReachesStep(steps: seq<Step>, ps: seq<OswParam>, p: OswParam)
    requires AcceptedOn(steps, ps) && p in ps
    ensures var t := TableOf(steps);
            && p.key in t && t[p.key].stepIndex.Some? && t[p.key].stepIndex.value < |steps| && steps[t[p.key].stepIndex.value].Step?
            && Destination(steps, t, p.key) == t[p.key].stepIndex
  {
    KeyIn(ps, p);
    AcceptedIffNoClash(Keys(ps), TableOf(steps));
    TableHasShape(steps);
    assert EntryShape(steps, p.key, TableOf(steps)[p.key]);
    ResolvesToOwnStep(steps, p.key);
  }

  lemma AcceptedIsSimultaneous(coerce: Coercion, steps: seq<Step>, original: Arguments, ps: seq<OswParam>)
    requires |original| == |steps| && AcceptedOn(steps, ps)
    ensures var t := TableOf(steps);
            var r := WrittenAll(coerce, steps, t, original, ps);
            && (r.None? <==> exists p :: p in ps && Refused(coerce, steps, t, original, p))
            && (r.Some? ==> Simultaneous(coerce, steps, t, original, ps, r.value))
  {
    AcceptedWritesAreSimultaneous(coerce, steps, original, ps, ps);
  }

  /** Each parameter puts to the coercion its own value and what the original file, the table and the step say of its argument. */
  lemma {:induction false} EachIsAskedOnce(coerce: Coercion, steps: seq<Step>, original: Arguments, ps: seq<OswParam>, p: OswParam, i: nat, a: string)
    requires |original| == |steps| && AcceptedOn(steps, ps) && p in ps && Names(TableOf(steps), p, i, a)
    ensures i < |steps| && steps[i].Step?
    ensures var answer := coerce(RequestFor(steps[i], original[i], a, TableOf(steps)[p.key].default, p.value));
            var r := WrittenAll(coerce, steps, TableOf(steps), original, ps);
            && (answer.None? ==> r.None?)
            && (r.Some? ==> answer.Some? && Holds(r.value, i, a, answer.value))
  {
    AcceptedReachesStep(steps, ps, p);
    AcceptedIsSimultaneous(coerce, steps, original, ps);
    var t := TableOf(steps);
    assert Wanted(coerce, steps, t, original, p) == coerce(RequestFor(steps[i], original[i], a, t[p.key].default, p.value));
    assert Wanted(coerce, steps, t, original, p).None? ==> Refused(coerce, steps, t, original, p);
  }

  /** The file is refused exactly if the coercion refuses what some parameter asks for. */
  lemma {:induction false} RefusedIffOneIs(coerce: Coercion, steps: seq<Step>, original: Arguments, ps: seq<OswParam>)
    requires |original| == |steps| && AcceptedOn(steps, ps)
    ensures WrittenAll(coerce, steps, TableOf(steps), original, ps).None? <==>
            exists p, i: nat :: p in ps && i < |steps| && steps[i].Step? && p.key in TableOf(steps) && TableOf(steps)[p.key].stepIndex == Some(i)
                                && coerce(RequestFor(steps[i], original[i], TableOf(steps)[p.key].name, TableOf(steps)[p.key].default, p.value)).None?
  {
    var t := TableOf(steps);
    AcceptedIsSimultaneous(coerce, steps, original, ps);
    forall p | p in ps
      ensures p.key in t && t[p.key].stepIndex.Some? && t[p.key].stepIndex.value < |steps| && steps[t[p.key].stepIndex.value].Step?
      ensures var i := t[p.key].stepIndex.value;
              Refused(coerce, steps, t, original, p) <==>
              coerce(RequestFor(steps[i], original[i], t[p.key].name, t[p.key].default, p.value)).None?
    {
      AcceptedReachesStep(steps, ps, p);
    }
  }

  /** What no parameter names stays as it was, whatever the coercion does. */
  lemma {:induction false} TheRestStays(coerce: Coercion, steps: seq<Step>, original: Arguments, ps: seq<OswParam>, i: nat, a: string)
    requires |original| == |steps| && AcceptedOn(steps, ps) && i < |steps|
    requires forall p :: p in ps ==> !Names(TableOf(steps), p, i, a)
    ensures var r := WrittenAll(coerce, steps, TableOf(steps), original, ps);
            r.Some? ==> (a in r.value[i] <==> a in original[i]) && (a in r.value[i] && a in original[i] ==> r.value[i][a] == original[i][a])
  {
    AcceptedIsSimultaneous(coerce, steps, original, ps);
    forall p | p in ps ensures !Hits(steps, TableOf(steps), p, i, a) {
      AcceptedReachesStep(steps, ps, p);
      assert !Names(TableOf(steps), p, i, a);
    }
    var r := WrittenAll(coerce, steps, TableOf(steps), original, ps);
    assert r.Some? ==> Untouched(original, r.value, i, a);
  }

  /** With a coercion that answers the value itself, nothing is refused and every parameter's own value lands. */
  lemma {:induction false} ValuesLand(steps: seq<Step>, original: Arguments, ps: seq<OswParam>)
    requires |original| == |steps| && AcceptedOn(steps, ps)
    ensures var t := TableOf(steps);
            var r := WrittenAll((rq: Request) => Some(rq.value), steps, t, original, ps);
            && r.Some?
            && forall p, i: nat, a :: p in ps && Names(t, p, i, a) ==> i < |steps| && Holds(r.value, i, a, p.value)
  {
    var itself := (rq: Request) => Some(rq.value);
    RefusedIffOneIs(itself, steps, original, ps);
    forall p, i: nat, a | p in ps && Names(TableOf(steps), p, i, a)
      ensures i < |steps| && Holds(WrittenAll(itself, steps, TableOf(steps), original, ps).value, i, a, p.value)
    {
      EachIsAskedOnce(itself, steps, original, ps, p, i, a);
    }
  }

  /** With one that keeps the existing value, arguments stay as they were and absent ones become null. */
  lemma {:induction false} ExistingStay(steps: seq<Step>, original: Arguments, ps: seq<OswParam>)
    requires |original| == |steps| && AcceptedOn(steps, ps)
    ensures var t := TableOf(steps);
            var r := WrittenAll((rq: Request) => Some(rq.existing), steps, t, original, ps);
            && r.Some?
            && (forall i: nat, a :: i < |steps| && a in original[i] ==> Holds(r.value, i, a, original[i][a]))
            && (forall p, i: nat, a :: p in ps && Names(t, p, i, a) && i < |steps| && a !in original[i] ==> Holds(r.value, i, a, Null))
  {
    var existing := (rq: Request) => Some(rq.existing);
    RefusedIffOneIs(existing, steps, original, ps);
    var t := TableOf(steps);
    var r := WrittenAll(existing, steps, t, original, ps);
    forall p, i: nat, a | p in ps && Names(t, p, i, a)
      ensures i < |steps| && Holds(r.value, i, a, if a in original[i] then original[i][a] else Null)
    {
      EachIsAskedOnce(existing, steps, original, ps, p, i, a);
    }
    forall i: nat, a | i < |steps| && a in original[i] ensures Holds(r.value, i, a, original[i][a]) {
      if forall p :: p in ps ==> !Names(t, p, i, a) {
        TheRestStays(existing, steps, original, ps, i, a);
      }
    }
  }

  /** With one that takes the default, every named argument holds the default of its table entry. */
  lemma {:induction false} DefaultsLand(steps: seq<Step>, original: Arguments, ps: seq<OswParam>)
    requires |original| == |steps| && AcceptedOn(steps, ps)
    ensures var t := TableOf(steps);
            var r := WrittenAll((rq: Request) => Some(rq.default), steps, t, original, ps);
            && r.Some?
            && forall p, i: nat, a :: p in ps && Names(t, p, i, a) ==> i < |steps| && Holds(r.value, i, a, t[p.key].default)
  {
    var default := (rq: Request) => Some(rq.default);
    RefusedIffOneIs(default, steps, original, ps);
    forall p, i: nat, a | p in ps && Names(TableOf(steps), p, i, a)
      ensures i < |steps| && Holds(WrittenAll(default, steps, TableOf(steps), original, ps).value, i, a, TableOf(steps)[p.key].default)
    {
      EachIsAskedOnce(default, steps, original, ps, p, i, a);
    }
  }

  lemma KeyIn(ps: seq<OswParam>, p: OswParam)
    requires p in ps
    ensures p.key in Keys(ps)
  {
    var i :| 0 <= i < |ps| && ps[i] == p;
    assert Keys(ps)[i] == p.key;
  }

  lemma SameKeys(ps: seq<OswParam>, qs: seq<OswParam>)
    requires forall p :: p in ps <==> p in qs
    ensures forall k :: k in Keys(ps) <==> k in Keys(qs)
    ensures forall k :: k in Keys(ps) ==> exists p :: p in ps && p.key == k
  {
    forall k | k in Keys(ps) ensures k in Keys(qs) && exists p :: p in ps && p.key == k {
      var i :| 0 <= i < |ps| && Keys(ps)[i] == k;
      assert ps[i] in ps;
      KeyIn(qs, ps[i]);
    }
    forall k | k in Keys(qs) ensures k in Keys(ps) {
      var i :| 0 <= i < |qs| && Keys(qs)[i] == k;
      KeyIn(ps, qs[i]);
    }
  }

  // ---------------------------------------------------------------------
  // `_apply_osw_parameters`
  // ---------------------------------------------------------------------

  predicate IsWorkflowParam(t: Table, key: string) {
    key in t && t[key].kind == MeasureArgument
  }

  /** A sampled value, or a categorical one `{"label": ..., "index": ...}`. */
  datatype Sample = Plain(value: Value) | Categorical(text: Value)

  type Given = Param<Sample>

  /** A categorical value is written as its label. */
  function Label(s: Sample): Value {
    if s.Categorical? then s.text else s.value
  }

  predicate ForWorkflow(t: Table, g: Given) {
    g.key != EPW && IsWorkflowParam(t, g.key)
  }

  predicate ForModel(t: Table, g: Given) {
    g.key != EPW && !IsWorkflowParam(t, g.key)
  }

  /** The parameters that go to workflow steps, in order. */
  function WorkflowParams(t: Table, gs: seq<Given>): seq<OswParam> {
    if gs == [] then []
    else
      var before, last := WorkflowParams(t, gs[..|gs| - 1]), gs[|gs| - 1];
      if ForWorkflow(t, last) then before + [Param(last.key, Label(last.value))] else before
  }

  /** The parameters left for the model. */
  function Remaining(t: Table, gs: seq<Given>): seq<Given> {
    if gs == [] then []
    else
      var before, last := Remaining(t, gs[..|gs| - 1]), gs[|gs| - 1];
      if ForModel(t, last) then before + [last] else before
  }

  function WeatherOf(gs: seq<Given>): Option<Sample> {
    if gs == [] then None
    else if gs[|gs| - 1].key == EPW then Some(gs[|gs| - 1].value)
    else WeatherOf(gs[..|gs| - 1])
  }

  method Split(t: Table, gs: seq<Given>) returns (workflow: seq<OswParam>, remaining: seq<Given>, weather: Option<Sample>)
    ensures workflow == WorkflowParams(t, gs) && remaining == Remaining(t, gs) && weather == WeatherOf(gs)
  {
    workflow, remaining, weather := [], [], None;
    for i := 0 to |gs|
      invariant workflow == WorkflowParams(t, gs[..i]) && remaining == Remaining(t, gs[..i]) && weather == WeatherOf(gs[..i])
    {
      assert gs[..i + 1][..i] == gs[..i];
      if gs[i].key == EPW {
        weather := Some(gs[i].value);
      } else if gs[i].key in t && t[gs[i].key].kind == MeasureArgument {
        workflow := workflow + [Param(gs[i].key, Label(gs[i].value))];
      } else {
        remaining := remaining + [gs[i]];
      }
    }
    assert gs[..|gs|] == gs;
  }

  lemma {:induction false} WeatherIsGiven(gs: seq<Given>)
    requires DistinctNames(Keys(gs))
    ensures WeatherOf(gs).Some? <==> EPW in Keys(gs)
    ensures WeatherOf(gs).Some? ==> Param(EPW, WeatherOf(gs).value) in gs
  {
    if gs != [] {
      var init, last := gs[..|gs| - 1], gs[|gs| - 1];
      assert Keys(gs) == Keys(init) + [last.key];
      assert forall i :: 0 <= i < |init| ==> Keys(init)[i] == Keys(gs)[i];
      WeatherIsGiven(init);
      assert forall g :: g in gs <==> g in init || g == last;
    }
  }

  lemma {:induction false} RemainingAre(t: Table, gs: seq<Given>, g: Given)
    ensures g in Remaining(t, gs) <==> g in gs && ForModel(t, g)
  {
    if gs != [] {
      var init, last := gs[..|gs| - 1], gs[|gs| - 1];
      RemainingAre(t, init, g);
      assert g in gs <==> g in init || g == last;
    }
  }

  lemma {:induction false} WorkflowParamsAre(t: Table, gs: seq<Given>, p: OswParam)
    ensures p in WorkflowParams(t, gs) <==> exists g :: g in gs && ForWorkflow(t, g) && p == Param(g.key, Label(g.value))
  {
    if gs != [] {
      var init, last := gs[..|gs| - 1], gs[|gs| - 1];
      WorkflowParamsAre(t, init, p);
      assert forall g :: g in gs <==> g in init || g == last;
    }
  }

  lemma {:induction false} NothingIsDropped(t: Table, gs: seq<Given>)
    requires DistinctNames(Keys(gs))
    ensures |gs| == |WorkflowParams(t, gs)| + |Remaining(t, gs)| + (if EPW in Keys(gs) then 1 else 0)
  {
    if gs != [] {
      var init, last := gs[..|gs| - 1], gs[|gs| - 1];
      assert Keys(gs) == Keys(init) + [last.key];
      assert forall i :: 0 <= i < |init| ==> Keys(init)[i] == Keys(gs)[i];
      NothingIsDropped(t, init);
      assert last.key !in Keys(init);
    }
  }

  /** A plain value, or the label of a categorical one. */
  predicate Labelled(s: Sample, v: Value) {
    s == Plain(v) || s == Categorical(v)
  }

  /** Every parameter is used exactly once: as the weather file, in a step by its label, or passed on unchanged. */
  lemma {:induction false} SplitConserves(t: Table, gs: seq<Given>)
    requires DistinctNames(Keys(gs))
    ensures |gs| == |WorkflowParams(t, gs)| + |Remaining(t, gs)| + (if WeatherOf(gs).Some? then 1 else 0)
    ensures WeatherOf(gs).Some? ==> Param("__epw_file__", WeatherOf(gs).value) in gs
    ensures forall g :: g in Remaining(t, gs) <==> g in gs && g.key != "__epw_file__" && !(g.key in t && t[g.key].kind == MeasureArgument)
    ensures forall p :: p in WorkflowParams(t, gs) <==>
                        p.key != "__epw_file__" && p.key in t && t[p.key].kind == MeasureArgument
                        && exists g :: g in gs && g.key == p.key && Labelled(g.value, p.value)
  {
    NothingIsDropped(t, gs);
    WeatherIsGiven(gs);
    forall g ensures g in Remaining(t, gs) <==> g in gs && ForModel(t, g) {
      RemainingAre(t, gs, g);
    }
    forall p ensures p in WorkflowParams(t, gs) <==>
                     p.key != "__epw_file__" && p.key in t && t[p.key].kind == MeasureArgument
                     && exists g :: g in gs && g.key == p.key && Labelled(g.value, p.value)
    {
      WorkflowParamsAre(t, gs, p);
      if g :| g in gs && g.key == p.key && Labelled(g.value, p.value) && ForWorkflow(t, g) {
        assert p == Param(g.key, Label(g.value));
      }
    }
  }

  /** From the sample to the file: every value for a step, by its label, stands in the argument its name stands for. */
  lemma {:induction false} SampleLands(steps: seq<Step>, original: Arguments, gs: seq<Given>, g: Given, v: Value, i: nat, a: string)
    requires |original| == |steps| && AcceptedOn(steps, WorkflowParams(TableOf(steps), gs))
    requires g in gs && g.key != "__epw_file__" && g.key in TableOf(steps) && Labelled(g.value, v)
    requires TableOf(steps)[g.key].stepIndex == Some(i) && TableOf(steps)[g.key].name == a
    ensures var r := WrittenAll((rq: Request) => Some(rq.value), steps, TableOf(steps), original, WorkflowParams(TableOf(steps), gs));
            r.Some? && i < |steps| && Holds(r.value, i, a, v)
  {
    var t, p := TableOf(steps), Param(g.key, v);
    TableHasShape(steps);
    assert EntryShape(steps, g.key, t[g.key]);
    WorkflowParamsAre(t, gs, p);
    assert ForWorkflow(t, g) && p == Param(g.key, Label(g.value));
    ValuesLand(steps, original, WorkflowParams(t, gs));
    assert Names(t, p, i, a);
  }

  /** Without a workflow file everything but the weather file is passed on. */
  function AllButWeather(gs: seq<Given>): (r: seq<Given>)
    ensures forall g :: g in r <==> g in gs && g.key != EPW
  {
    if gs == [] then []
    else
      var init, last := gs[..|gs| - 1], gs[|gs| - 1];
      assert forall g :: g in gs <==> g in init || g == last;
      AllButWeather(init) + (if last.key != EPW then [last] else [])
  }

  /** `t` is the table of the file. A refused value leaves the file alone, weather included. */
  method ApplyOswParameters(file: OswFile?, coerce: Coercion, t: Table, gs: seq<Given>) returns (r: Option<seq<Given>>)
    requires file != null ==> file.Valid()
    modifies file
    ensures file == null ==> r == Some(AllButWeather(gs))
    ensures file != null ==> file.Valid()
    ensures file != null ==>
              (r.Some? <==> SelectTargets(Keys(WorkflowParams(t, gs)), t) == []
                            && WrittenAll(coerce, file.steps, t, old(file.args), WorkflowParams(t, gs)).Some?)
    ensures file != null && r.None? ==> file.args == old(file.args) && file.weather == old(file.weather)
    ensures file != null && r.Some? ==>
              && r.value == Remaining(t, gs)
              && file.args == WrittenAll(coerce, file.steps, t, old(file.args), WorkflowParams(t, gs)).value
              && file.weather == if WeatherOf(gs) in {None, Some(Plain(Null))} then old(file.weather) else WeatherOf(gs)
  {
    if file == null {
      return Some(AllButWeather(gs));
    }
    var workflow, remaining, weather := Split(t, gs);
    if workflow != [] {
      var ok := file.Mutate(coerce, t, workflow);
      if !ok {
        return None;
      }
    }
    if weather.Some? && weather.value != Plain(Null) {
      file.weather := weather;
    }
    r := Some(remaining);
  }
}
