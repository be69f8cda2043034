/**
 How a workflow's name table reads its keys (osimflow/apply_params.py): which step declares what,
 the readings of a key as `<argument>` or `<qualifier>.<argument>`, and what one registration and
 one step do to a key with a single declared reading.
 */
module OswReadings {
  import opened Wrappers
  import opened OswTable

  // ---------------------------------------------------------------------
  // The reference: who declares what
  // ---------------------------------------------------------------------

  function XmlDefault(xs: seq<XmlArg>, a: string): Option<Value> {
    if xs == [] then None
    else if xs[|xs| - 1].name == a then Some(xs[|xs| - 1].default)
    else XmlDefault(xs[..|xs| - 1], a)
  }

  function InXml(s: Step, a: string): Option<Value>
    requires s.Step?
  {
    if s.xml.Some? then XmlDefault(s.xml.value.args, a) else None
  }

  /** The default a step gives an argument, when it declares it at all. */
  function Default(s: Step, a: string): Option<Value> {
    if s.NotAnObject? then None
    else if a in s.args then Some(s.args[a])
    else if InXml(s, a).Some? then InXml(s, a)
    else if a == SKIP then Some(Bool(false))
    else None
  }

  lemma {:induction false} XmlDefaultIs(xs: seq<XmlArg>, i: nat)
    requires i < |xs| && forall j :: i < j < |xs| ==> xs[j].name != xs[i].name
    ensures XmlDefault(xs, xs[i].name) == Some(xs[i].default)
  {
    if i < |xs| - 1 {
      XmlDefaultIs(xs[..|xs| - 1], i);
    }
  }

  lemma {:induction false} XmlNameIn(xs: seq<XmlArg>, a: string)
    requires XmlDefault(xs, a).Some?
    ensures exists i :: 0 <= i < |xs| && xs[i].name == a
  {
    var init, last := xs[..|xs| - 1], xs[|xs| - 1];
    if last.name != a {
      XmlNameIn(init, a);
      var i :| 0 <= i < |init| && init[i].name == a;
      assert xs[i].name == a;
    }
  }

  /** A step declares what its `arguments` list, then what its `measure.xml` lists, then `__SKIP__` as false. */
  lemma {:induction false} DefaultIs(s: Step, a: string)
    requires WfStep(s)
    ensures Default(s, a).Some? <==>
            s.Step? && (a in s.args || a == "__SKIP__"
                        || (s.xml.Some? && exists i :: 0 <= i < |s.xml.value.args| && s.xml.value.args[i].name == a))
    ensures s.Step? && a in s.args ==> Default(s, a) == Some(s.args[a])
    ensures s.Step? && a !in s.args && s.xml.Some? ==>
              forall i :: 0 <= i < |s.xml.value.args| && s.xml.value.args[i].name == a ==> Default(s, a) == Some(s.xml.value.args[i].default)
    ensures s.Step? && "__SKIP__" !in s.args && s.xml.None? ==> Default(s, "__SKIP__") == Some(Bool(false))
  {
    if s.Step? && s.xml.Some? {
      var xs := s.xml.value.args;
      forall i | 0 <= i < |xs| && xs[i].name == a ensures InXml(s, a) == Some(xs[i].default) {
        XmlDefaultIs(xs, i);
      }
      if InXml(s, a).Some? {
        XmlNameIn(xs, a);
      }
    }
  }

  /** How often the step registers the argument: twice for a `__SKIP__` its `measure.xml` declares. */
  function Times(s: Step, a: string): (n: nat)
    ensures n > 0 <==> Default(s, a).Some?
  {
    if s.NotAnObject? then 0
    else if a in s.args then 1
    else (if InXml(s, a).Some? then 1 else 0) + (if a == SKIP then 1 else 0)
  }

  function ParamOf(steps: seq<Step>, i: nat, a: string): Mapped
    requires i < |steps| && Default(steps[i], a).Some?
  {
    Mapped(MeasureArgument, a, Default(steps[i], a).value, Some(i),
           NonEmpty(MeasureName(steps[i])), NonEmpty(steps[i].name), [])
  }

  predicate Declares(steps: seq<Step>, i: nat, a: string) {
    i < |steps| && Default(steps[i], a).Some?
  }

  /** Step `i` answers to the qualifier. */
  predicate AnswersTo(steps: seq<Step>, i: nat, q: string)
    requires i < |steps|
  {
    MeasureName(steps[i]) == q || SoleAlias(steps, i, q)
  }

  predicate Answers(steps: seq<Step>, i: nat, q: string, a: string) {
    Declares(steps, i, a) && AnswersTo(steps, i, q)
  }

  /** The steps among the first `n` that declare `a`, in order. */
  function Declaring(steps: seq<Step>, n: nat, a: string): (r: seq<nat>)
    requires n <= |steps|
    ensures forall k :: 0 <= k < |r| ==> r[k] < n && Declares(steps, r[k], a)
  {
    if n == 0 then []
    else
      var before := Declaring(steps, n - 1, a);
      if Declares(steps, n - 1, a) then before + [n - 1] else before
  }

  /** The steps among the first `n` that answer to `q` and declare `a`, in order. */
  function Qualified(steps: seq<Step>, n: nat, q: string, a: string): (r: seq<nat>)
    requires n <= |steps|
    ensures forall k :: 0 <= k < |r| ==> r[k] < n && Answers(steps, r[k], q, a)
  {
    if n == 0 then []
    else
      var before := Qualified(steps, n - 1, q, a);
      if Answers(steps, n - 1, q, a) then before + [n - 1] else before
  }

  ghost predicate Rising(ks: seq<nat>) {
    forall j, k :: 0 <= j < k < |ks| ==> ks[j] < ks[k]
  }

  lemma {:induction false} DeclaringIsComplete(steps: seq<Step>, n: nat, a: string)
    requires n <= |steps|
    ensures Rising(Declaring(steps, n, a))
    ensures forall i :: 0 <= i < n && Declares(steps, i, a) ==> i in Declaring(steps, n, a)
  {
    if n > 0 {
      DeclaringIsComplete(steps, n - 1, a);
    }
  }

  lemma {:induction false} QualifiedIsComplete(steps: seq<Step>, n: nat, q: string, a: string)
    requires n <= |steps|
    ensures Rising(Qualified(steps, n, q, a))
    ensures forall i :: 0 <= i < n && Answers(steps, i, q, a) ==> i in Qualified(steps, n, q, a)
  {
    if n > 0 {
      QualifiedIsComplete(steps, n - 1, q, a);
    }
  }

  function Repeat(x: string, n: nat): (r: seq<string>)
    ensures |r| == n
  {
    seq(n, i => x)
  }

  function LabelOf(steps: seq<Step>, i: nat, a: string): string
    requires Declares(steps, i, a)
  {
    StepLabel(ParamOf(steps, i, a))
  }

  /** The first step once, every later one as often as it registers the argument. */
  function Labels(steps: seq<Step>, ks: seq<nat>, a: string): (r: seq<string>)
    requires ks != [] && forall j :: 0 <= j < |ks| ==> Declares(steps, ks[j], a)
    ensures r != []
  {
    var last := ks[|ks| - 1];
    assert Declares(steps, last, a);
    if |ks| == 1 then [LabelOf(steps, last, a)]
    else Labels(steps, ks[..|ks| - 1], a) + Repeat(LabelOf(steps, last, a), Times(steps[last], a))
  }

  function PlainTarget(steps: seq<Step>, n: nat, a: string): Option<Mapped>
    requires n <= |steps|
  {
    var ks := Declaring(steps, n, a);
    if ks == [] then None else Some(ParamOf(steps, ks[0], a))
  }

  function QualifiedTarget(steps: seq<Step>, n: nat, q: string, a: string): Option<Mapped>
    requires n <= |steps|
  {
    var ks := Qualified(steps, n, q, a);
    if ks == [] then None
    else Some(ParamOf(steps, ks[0], a).(ambiguousSteps := if |ks| == 1 then [] else Labels(steps, ks, a)))
  }

  // ---------------------------------------------------------------------
  // Readings of a key
  // ---------------------------------------------------------------------

  datatype Reading = Plain(arg: string) | Pair(qualifier: string, arg: string)

  function KeyOf(rd: Reading): string {
    if rd.Plain? then rd.arg else Dotted(rd.qualifier, rd.arg)
  }

  /** Step `i` registers the key with this reading. */
  predicate Reads(steps: seq<Step>, i: nat, rd: Reading) {
    && Declares(steps, i, rd.arg)
    && (rd.Pair? ==> rd.qualifier != "" && AnswersTo(steps, i, rd.qualifier))
  }

  ghost predicate Declared(steps: seq<Step>, rd: Reading) {
    exists i: nat :: Reads(steps, i, rd)
  }

  /** No other declared reading spells the same key. */
  ghost predicate SpelledOnlyAs(steps: seq<Step>, rd: Reading) {
    forall other :: Declared(steps, other) && KeyOf(other) == KeyOf(rd) ==> other == rd
  }

  function Target(steps: seq<Step>, n: nat, rd: Reading): Option<Mapped>
    requires n <= |steps|
  {
    if rd.Plain? then PlainTarget(steps, n, rd.arg) else QualifiedTarget(steps, n, rd.qualifier, rd.arg)
  }

  function Get(t: Table, key: string): Option<Mapped> {
    if key in t then Some(t[key]) else None
  }

  // ---------------------------------------------------------------------
  // One registration, seen from one key
  // ---------------------------------------------------------------------

  function First(o: Option<Mapped>, m: Mapped): Option<Mapped> {
    if o.None? then Some(m) else o
  }

  function Bump(o: Option<Mapped>, m: Mapped): Option<Mapped> {
    if o.None? then Some(m)
    else if o.value.stepIndex != m.stepIndex && o.value.measureName == m.measureName then
      var labels := if o.value.ambiguousSteps != [] then o.value.ambiguousSteps else [StepLabel(o.value)];
      Some(o.value.(ambiguousSteps := labels + [StepLabel(m)]))
    else o
  }

  ghost predicate HitsAlias(r: Reg, aliases: seq<string>, key: string) {
    exists n :: n in aliases && n != "" && n != r.measure && Dotted(n, r.arg) == key
  }

  lemma {:induction false} AliasEffect(t: Table, r: Reg, aliases: seq<string>, key: string)
    ensures Get(PutAliases(t, r, aliases), key) ==
            if HitsAlias(r, aliases, key) then First(Get(t, key), Param(r)) else Get(t, key)
  {
    if aliases != [] {
      var init, last := aliases[..|aliases| - 1], aliases[|aliases| - 1];
      AliasEffect(t, r, init, key);
      assert forall n :: n in aliases <==> n in init || n == last;
      assert HitsAlias(r, aliases, key) <==>
             HitsAlias(r, init, key) || (last != "" && last != r.measure && Dotted(last, r.arg) == key);
    }
  }

  /** A registration reaches a key as a plain name, then by its measure, then by an alias. */
  lemma {:induction false} RegistrationEffect(t: Table, r: Reg, key: string)
    ensures var plain := if r.arg == key then First(Get(t, key), Param(r)) else Get(t, key);
            var measured := if r.measure != "" && Dotted(r.measure, r.arg) == key then Bump(plain, Param(r)) else plain;
            Get(Registered(t, r), key) == if HitsAlias(r, r.aliases, key) then First(measured, Param(r)) else measured
  {
    var withPlain := PutFirst(t, r.arg, Param(r));
    var withDotted := if r.measure != "" then PutDotted(withPlain, Dotted(r.measure, r.arg), Param(r)) else withPlain;
    AliasEffect(withDotted, r, r.aliases, key);
  }

  lemma DottedDetermines(q: string, a: string, p: string)
    ensures Dotted(q, a) == Dotted(p, a) <==> q == p
    ensures Dotted(q, a) != a
  {
    assert Dotted(q, a)[..|q|] == q && Dotted(p, a)[..|p|] == p;
    assert |Dotted(q, a)| == |q| + 1 + |a| && |Dotted(p, a)| == |p| + 1 + |a|;
  }

  /** The effect of one declaration on a key with a single reading. */
  function Effect(o: Option<Mapped>, steps: seq<Step>, i: nat, d: Decl, rd: Reading): Option<Mapped>
    requires i < |steps|
  {
    var m := Param(RegOf(steps, i, d));
    if d.name != rd.arg then o
    else if rd.Plain? then First(o, m)
    else if MeasureName(steps[i]) == rd.qualifier then Bump(o, m)
    else if SoleAlias(steps, i, rd.qualifier) then First(o, m)
    else o
  }

  lemma ReadAsPlain(steps: seq<Step>, i: nat, a: string, rd: Reading)
    requires SpelledOnlyAs(steps, rd) && Declares(steps, i, a) && a == KeyOf(rd)
    ensures rd == Plain(a)
  {
    assert Reads(steps, i, Plain(a));
    assert Declared(steps, Plain(a)) && KeyOf(Plain(a)) == KeyOf(rd);
  }

  lemma ReadAsPair(steps: seq<Step>, i: nat, q: string, a: string, rd: Reading)
    requires SpelledOnlyAs(steps, rd) && Answers(steps, i, q, a) && q != "" && Dotted(q, a) == KeyOf(rd)
    ensures rd == Pair(q, a)
  {
    assert Reads(steps, i, Pair(q, a));
    assert Declared(steps, Pair(q, a)) && KeyOf(Pair(q, a)) == KeyOf(rd);
  }

  lemma AliasReading(steps: seq<Step>, i: nat, d: Decl, rd: Reading)
    requires i < |steps| && SpelledOnlyAs(steps, rd) && Declares(steps, i, d.name) && (rd.Pair? ==> rd.qualifier != "")
    ensures HitsAlias(RegOf(steps, i, d), Aliases(steps, i), KeyOf(rd)) <==>
            rd.Pair? && d.name == rd.arg && rd.qualifier != MeasureName(steps[i]) && SoleAlias(steps, i, rd.qualifier)
  {
    var r := RegOf(steps, i, d);
    if HitsAlias(r, Aliases(steps, i), KeyOf(rd)) {
      var n :| n in Aliases(steps, i) && n != "" && n != r.measure && Dotted(n, r.arg) == KeyOf(rd);
      AliasesAre(steps, i, n);
      ReadAsPair(steps, i, n, d.name, rd);
    }
    if rd.Pair? {
      AliasesAre(steps, i, rd.qualifier);
    }
  }

  lemma DeclarationEffect(t: Table, steps: seq<Step>, i: nat, d: Decl, rd: Reading)
    requires i < |steps| && SpelledOnlyAs(steps, rd) && Declares(steps, i, d.name) && (rd.Pair? ==> rd.qualifier != "")
    ensures Get(Registered(t, RegOf(steps, i, d)), KeyOf(rd)) == Effect(Get(t, KeyOf(rd)), steps, i, d, rd)
  {
    var r, key := RegOf(steps, i, d), KeyOf(rd);
    RegistrationEffect(t, r, key);
    AliasReading(steps, i, d, rd);
    DottedDetermines(r.measure, r.arg, r.measure);
    if r.arg == key {
      ReadAsPlain(steps, i, r.arg, rd);
    }
    if r.measure != "" && Dotted(r.measure, r.arg) == key {
      ReadAsPair(steps, i, r.measure, r.arg, rd);
    }
  }

  // ---------------------------------------------------------------------
  // The declarations of one step
  // ---------------------------------------------------------------------

  function Count(ds: seq<Decl>, a: string): nat {
    if ds == [] then 0 else Count(ds[..|ds| - 1], a) + (if ds[|ds| - 1].name == a then 1 else 0)
  }

  function FirstNamed(ds: seq<Decl>, a: string): Option<Value> {
    if ds == [] then None
    else
      var init, last := FirstNamed(ds[..|ds| - 1], a), ds[|ds| - 1];
      if init.None? && last.name == a then Some(last.default) else init
  }

  lemma Snoc(init: seq<Decl>, last: Decl, a: string)
    ensures Count(init + [last], a) == Count(init, a) + (if last.name == a then 1 else 0)
    ensures FirstNamed(init + [last], a) ==
            if FirstNamed(init, a).None? && last.name == a then Some(last.default) else FirstNamed(init, a)
  {
    assert (init + [last])[..|init|] == init;
  }

  lemma {:induction false} Concat(ds: seq<Decl>, es: seq<Decl>, a: string)
    ensures Count(ds + es, a) == Count(ds, a) + Count(es, a)
    ensures FirstNamed(ds + es, a) == if FirstNamed(ds, a).Some? then FirstNamed(ds, a) else FirstNamed(es, a)
  {
    if es == [] {
      assert ds + es == ds;
    } else {
      var init, last := es[..|es| - 1], es[|es| - 1];
      Concat(ds, init, a);
      assert es == init + [last] && ds + es == (ds + init) + [last];
      Snoc(ds + init, last, a);
      Snoc(init, last, a);
    }
  }

  lemma {:induction false} CountIffNamed(ds: seq<Decl>, a: string)
    ensures Count(ds, a) > 0 <==> FirstNamed(ds, a).Some?
  {
    if ds != [] {
      CountIffNamed(ds[..|ds| - 1], a);
    }
  }

  lemma {:induction false} NamesAreCounted(ds: seq<Decl>, d: Decl)
    requires d in ds
    ensures Count(ds, d.name) > 0
  {
    var init, last := ds[..|ds| - 1], ds[|ds| - 1];
    if d in init {
      NamesAreCounted(init, d);
    } else {
      assert ds == init + [last] && d == last;
    }
  }

  lemma {:induction false} ListedAre(s: Step, n: nat, a: string)
    requires s.Step? && WfStep(s) && n <= |s.argNames|
    ensures Count(ListedDecls(s, n), a) == if a in s.argNames[..n] then 1 else 0
    ensures FirstNamed(ListedDecls(s, n), a) == if a in s.argNames[..n] then Some(Listed(s, a)) else None
  {
    if n > 0 {
      ListedAre(s, n - 1, a);
      ListedSnoc(s, n - 1);
      Snoc(ListedDecls(s, n - 1), Decl(s.argNames[n - 1], Listed(s, s.argNames[n - 1])), a);
      LastListed(s, n, a);
    }
  }

  lemma LastListed(s: Step, n: nat, a: string)
    requires s.Step? && WfStep(s) && 0 < n <= |s.argNames|
    ensures a in s.argNames[..n] <==> a in s.argNames[..n - 1] || a == s.argNames[n - 1]
    ensures s.argNames[n - 1] !in s.argNames[..n - 1]
  {
    assert s.argNames[..n] == s.argNames[..n - 1] + [s.argNames[n - 1]];
  }

  ghost predicate DistinctXml(xs: seq<XmlArg>) {
    forall i, j :: 0 <= i < j < |xs| ==> xs[i].name != xs[j].name
  }

  lemma {:induction false} NoXmlDefault(xs: seq<XmlArg>, a: string)
    requires forall x :: x in xs ==> x.name != a
    ensures XmlDefault(xs, a).None?
  {
    if xs != [] {
      NoXmlDefault(xs[..|xs| - 1], a);
    }
  }

  lemma {:induction false} XmlAre(s: Step, xs: seq<XmlArg>, a: string)
    requires s.Step? && DistinctXml(xs)
    ensures Count(XmlDecls(s, xs), a) == if a !in s.args && XmlDefault(xs, a).Some? then 1 else 0
    ensures FirstNamed(XmlDecls(s, xs), a) == if a !in s.args then XmlDefault(xs, a) else None
  {
    if xs != [] {
      var init, last := xs[..|xs| - 1], xs[|xs| - 1];
      XmlAre(s, init, a);
      if last.name == a {
        NoXmlDefault(init, a);
      }
      if last.name in s.args {
        assert XmlDecls(s, xs) == XmlDecls(s, init);
      } else {
        Snoc(XmlDecls(s, init), Decl(last.name, last.default), a);
      }
    }
  }

  /** What a step registers is what it declares: how often, and with which default first. */
  lemma {:induction false} DeclsAreDefaults(s: Step, a: string)
    requires WfStep(s)
    ensures Count(Decls(s), a) == Times(s, a) && FirstNamed(Decls(s), a) == Default(s, a)
  {
    if s.Step? {
      var listed := ListedDecls(s, |s.argNames|);
      var fromXml := if s.xml.Some? then XmlDecls(s, s.xml.value.args) else [];
      ListedAre(s, |s.argNames|, a);
      assert s.argNames[..|s.argNames|] == s.argNames;
      assert a in s.args <==> a in (set n | n in s.argNames);
      if s.xml.Some? {
        XmlAre(s, s.xml.value.args, a);
      }
      SkipAre(s, a);
      Concat(listed, fromXml, a);
      Concat(listed + fromXml, SkipDecl(s), a);
    }
  }

  lemma SkipAre(s: Step, a: string)
    requires s.Step?
    ensures Count(SkipDecl(s), a) == if a == SKIP && SKIP !in s.args then 1 else 0
    ensures FirstNamed(SkipDecl(s), a) == if a == SKIP && SKIP !in s.args then Some(Bool(false)) else None
  {
    assert Count([], a) == 0 && FirstNamed([], a) == None;
    Snoc([], Decl(SKIP, Bool(false)), a);
    assert [] + [Decl(SKIP, Bool(false))] == [Decl(SKIP, Bool(false))];
  }

  // ---------------------------------------------------------------------
  // One step
  // ---------------------------------------------------------------------

  /** A step that registers the argument `n` times, seen from a key of another step of its measure. */
  function BumpTimes(o: Option<Mapped>, m: Mapped, n: nat): Option<Mapped> {
    if n == 0 then o
    else if o.None? then Some(m)
    else if o.value.stepIndex != m.stepIndex && o.value.measureName == m.measureName then
      var labels := if o.value.ambiguousSteps != [] then o.value.ambiguousSteps else [StepLabel(o.value)];
      Some(o.value.(ambiguousSteps := labels + Repeat(StepLabel(m), n)))
    else o
  }

  function StepEffect(o: Option<Mapped>, steps: seq<Step>, i: nat, rd: Reading, d: Option<Value>, n: nat): Option<Mapped>
    requires i < |steps|
  {
    if d.None? then o
    else
      var m := Param(RegOf(steps, i, Decl(rd.arg, d.value)));
      if rd.Plain? then First(o, m)
      else if MeasureName(steps[i]) == rd.qualifier then BumpTimes(o, m, n)
      else if SoleAlias(steps, i, rd.qualifier) then First(o, m)
      else o
  }

  lemma OneMoreBump(o: Option<Mapped>, m: Mapped, again: Mapped, n: nat)
    requires n > 0 && again.stepIndex == m.stepIndex && again.measureName == m.measureName && StepLabel(again) == StepLabel(m)
    ensures Bump(BumpTimes(o, m, n), again) == BumpTimes(o, m, n + 1)
  {
    assert Repeat(StepLabel(m), n + 1) == Repeat(StepLabel(m), n) + [StepLabel(m)];
    if o.Some? {
      var labels := if o.value.ambiguousSteps != [] then o.value.ambiguousSteps else [StepLabel(o.value)];
      assert labels + Repeat(StepLabel(m), n) + [StepLabel(m)] == labels + Repeat(StepLabel(m), n + 1);
    }
  }

  lemma FirstBump(o: Option<Mapped>, m: Mapped)
    ensures Bump(o, m) == BumpTimes(o, m, 1)
  {
    assert Repeat(StepLabel(m), 1) == [StepLabel(m)];
  }

  lemma EffectSnoc(o: Option<Mapped>, steps: seq<Step>, i: nat, rd: Reading, init: seq<Decl>, last: Decl)
    requires i < |steps|
    ensures Effect(StepEffect(o, steps, i, rd, FirstNamed(init, rd.arg), Count(init, rd.arg)), steps, i, last, rd) ==
            StepEffect(o, steps, i, rd, FirstNamed(init + [last], rd.arg), Count(init + [last], rd.arg))
  {
    Snoc(init, last, rd.arg);
    CountIffNamed(init, rd.arg);
    if last.name == rd.arg {
      var again := Param(RegOf(steps, i, last));
      if FirstNamed(init, rd.arg).Some? {
        OneMoreBump(o, Param(RegOf(steps, i, Decl(rd.arg, FirstNamed(init, rd.arg).value))), again, Count(init, rd.arg));
      } else {
        FirstBump(o, again);
      }
    }
  }

  ghost predicate AllDeclared(steps: seq<Step>, i: nat, ds: seq<Decl>) {
    forall d :: d in ds ==> Declares(steps, i, d.name)
  }

  lemma {:induction false} DeclarationsEffect(t: Table, steps: seq<Step>, i: nat, ds: seq<Decl>, rd: Reading)
    requires i < |steps| && SpelledOnlyAs(steps, rd) && AllDeclared(steps, i, ds) && (rd.Pair? ==> rd.qualifier != "")
    ensures Get(TableWith(t, steps, i, ds), KeyOf(rd)) ==
            StepEffect(Get(t, KeyOf(rd)), steps, i, rd, FirstNamed(ds, rd.arg), Count(ds, rd.arg))
  {
    if ds == [] {
      NoDecls(t, steps, i);
    } else {
      var init, last := ds[..|ds| - 1], ds[|ds| - 1];
      assert ds == init + [last];
      assert forall d :: d in init ==> d in ds;
      DeclarationsEffect(t, steps, i, init, rd);
      RegsSnoc(t, steps, i, init, last);
      DeclarationEffect(TableWith(t, steps, i, init), steps, i, last, rd);
      EffectSnoc(Get(t, KeyOf(rd)), steps, i, rd, init, last);
    }
  }

  lemma WholeStep(steps: seq<Step>, i: nat, t: Table, rd: Reading)
    requires WfSteps(steps) && i < |steps| && SpelledOnlyAs(steps, rd) && (rd.Pair? ==> rd.qualifier != "")
    ensures Get(NextTable(steps, i, t), KeyOf(rd)) ==
            StepEffect(Get(t, KeyOf(rd)), steps, i, rd, Default(steps[i], rd.arg), Times(steps[i], rd.arg))
  {
    var s := steps[i];
    assert WfStep(s);
    forall d | d in Decls(s) ensures Declares(steps, i, d.name) {
      NamesAreCounted(Decls(s), d);
      DeclsAreDefaults(s, d.name);
    }
    DeclsAreDefaults(s, rd.arg);
    DeclarationsEffect(t, steps, i, Decls(s), rd);
  }
}
