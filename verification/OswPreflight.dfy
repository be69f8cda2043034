/**
 The preflight checks of an OpenStudio workflow (osimflow/apply_params.py), and what
 passing them guarantees about the step arguments the parameters will write.
 */
module OswPreflight {
  import opened Wrappers
  import opened OswTable
  import Text

  datatype Outcome =
    | Accepted
    | Unmapped(missing: set<string>)
    | AmbiguousNames(names: seq<string>)
    | AmbiguousTargets(names: seq<string>)
    | CrossMeasureConflict(args: set<string>)

  predicate HasDot(key: string) {
    '.' in key
  }

  /** `key.rpartition(".")[2]` */
  function LastPart(key: string): (r: string)
    ensures !HasDot(r)
    ensures !HasDot(key) ==> r == key
    ensures HasDot(key) ==> |r| < |key| && key[|key| - |r| - 1] == '.' && key[|key| - |r|..] == r
  {
    if key == "" then ""
    else
      var last := key[|key| - 1];
      if last == '.' then "" else LastPart(key[..|key| - 1]) + [last]
  }

  // ---------------------------------------------------------------------
  // The checks, as functions of the parameter names and the table
  // ---------------------------------------------------------------------

  function Missing(params: seq<string>, t: Table): set<string> {
    set p | p in params && p !in t
  }

  /** A dotted key of the table that exposes argument `a` of a measure. */
  predicate Exposes(t: Table, key: string, a: string) {
    && key in t && t[key].kind == MeasureArgument && t[key].measureName.Some?
    && HasDot(key) && a != "" && LastPart(key) == a
  }

  function MeasureOf(t: Table, key: string): string {
    if key in t && t[key].measureName.Some? then t[key].measureName.value else ""
  }

  function Measures(t: Table, a: string): set<string> {
    set key | key in t && Exposes(t, key, a) :: MeasureOf(t, key)
  }

  predicate IsAmbiguousName(t: Table, p: string) {
    !HasDot(p) && |Measures(t, p)| > 1
  }

  predicate IsAmbiguousTarget(t: Table, p: string) {
    p in t && t[p].ambiguousSteps != []
  }

  /** Under which argument, and in which of its two lists, the conflict check files a key. */
  datatype Bin = Unfiled | PlainBin(arg: string) | DottedBin(arg: string)

  function BinOf(t: Table, key: string): Bin {
    if key !in t || t[key].kind != MeasureArgument then Unfiled
    else if !HasDot(key) then PlainBin(t[key].name)
    else if t[key].measureName.None? || LastPart(key) == "" then Unfiled
    else DottedBin(LastPart(key))
  }

  function Group(params: seq<string>, t: Table, b: Bin): (r: seq<string>)
    ensures forall k :: k in r <==> k in params && BinOf(t, k) == b
  {
    if params == [] then []
    else
      var init, last := params[..|params| - 1], params[|params| - 1];
      assert forall k :: k in params <==> k in init || k == last;
      if BinOf(t, last) == b then Group(init, t, b) + [last] else Group(init, t, b)
  }

  function StepIndex(t: Table, key: string): Option<nat> {
    if key in t then t[key].stepIndex else None
  }

  predicate AllDifferent(keys: seq<string>, t: Table) {
    forall j, k :: 0 <= j < k < |keys| ==> StepIndex(t, keys[j]) != StepIndex(t, keys[k])
  }

  predicate Isolated(keys: seq<string>, t: Table) {
    && (forall j :: 0 <= j < |keys| ==> StepIndex(t, keys[j]).Some?)
    && AllDifferent(keys, t)
  }

  predicate ConflictOn(params: seq<string>, t: Table, a: string) {
    var plain, dotted := Group(params, t, PlainBin(a)), Group(params, t, DottedBin(a));
    (plain != [] && dotted != []) || (|dotted| > 1 && !Isolated(dotted, t))
  }

  function ArgsOf(params: seq<string>, t: Table): set<string> {
    set p | p in params && BinOf(t, p) != Unfiled :: BinOf(t, p).arg
  }

  function Conflicts(params: seq<string>, t: Table): set<string> {
    set a | a in ArgsOf(params, t) && ConflictOn(params, t, a)
  }

  function SelectNames(params: seq<string>, t: Table): seq<string> {
    if params == [] then []
    else SelectNames(params[..|params| - 1], t) +
         (if IsAmbiguousName(t, params[|params| - 1]) then [params[|params| - 1]] else [])
  }

  function SelectTargets(params: seq<string>, t: Table): seq<string> {
    if params == [] then []
    else SelectTargets(params[..|params| - 1], t) +
         (if IsAmbiguousTarget(t, params[|params| - 1]) then [params[|params| - 1]] else [])
  }

  /** The checks in order: the first that finds something reports all of it. */
  function Preflight(params: seq<string>, t: Table): Outcome {
    if Missing(params, t) != {} then Unmapped(Missing(params, t))
    else if SelectNames(params, t) != [] then AmbiguousNames(SelectNames(params, t))
    else if SelectTargets(params, t) != [] then AmbiguousTargets(SelectTargets(params, t))
    else if Conflicts(params, t) != {} then CrossMeasureConflict(Conflicts(params, t))
    else Accepted
  }

  // ---------------------------------------------------------------------
  // The checks, as the source runs them
  // ---------------------------------------------------------------------

  type Filing = map<string, seq<string>>

  function Entries(f: Filing, a: string): seq<string> {
    if a in f then f[a] else []
  }

  function BinFor(dotted: bool, a: string): Bin {
    if dotted then DottedBin(a) else PlainBin(a)
  }

  ghost predicate Filed(f: Filing, params: seq<string>, t: Table, dotted: bool) {
    forall a :: Entries(f, a) == Group(params, t, BinFor(dotted, a)) && (a in f ==> f[a] != [])
  }

  lemma FiledSnoc(f: Filing, params: seq<string>, n: nat, t: Table, dotted: bool)
    requires n < |params| && Filed(f, params[..n], t, dotted)
    ensures var b := BinOf(t, params[n]);
            Filed(if b != Unfiled && b == BinFor(dotted, b.arg) then f[b.arg := Entries(f, b.arg) + [params[n]]] else f,
                  params[..n + 1], t, dotted)
  {
    assert params[..n + 1][..n] == params[..n];
  }

  method FileParams(params: seq<string>, t: Table) returns (plain: Filing, dotted: Filing)
    ensures Filed(plain, params, t, false) && Filed(dotted, params, t, true)
  {
    plain, dotted := map[], map[];
    for i := 0 to |params|
      invariant Filed(plain, params[..i], t, false) && Filed(dotted, params[..i], t, true)
    {
      FiledSnoc(plain, params, i, t, false);
      FiledSnoc(dotted, params, i, t, true);
      var key := params[i];
      if key in t && t[key].kind == MeasureArgument {
        if !HasDot(key) {
          plain := plain[t[key].name := Entries(plain, t[key].name) + [key]];
        } else if t[key].measureName.Some? {
          var arg := LastPart(key);
          if arg != "" {
            dotted := dotted[arg := Entries(dotted, arg) + [key]];
          }
        }
      }
    }
    assert params[..|params|] == params;
  }

  function Indices(keys: seq<string>, t: Table): set<Option<nat>> {
    if keys == [] then {} else Indices(keys[..|keys| - 1], t) + {StepIndex(t, keys[|keys| - 1])}
  }

  lemma {:induction false} IndicesAre(keys: seq<string>, t: Table)
    ensures forall o :: o in Indices(keys, t) <==> exists k :: 0 <= k < |keys| && StepIndex(t, keys[k]) == o
  {
    if keys != [] {
      var init := keys[..|keys| - 1];
      IndicesAre(init, t);
      assert forall k :: 0 <= k < |init| ==> init[k] == keys[k];
    }
  }

  lemma {:induction false} IndicesCount(keys: seq<string>, t: Table)
    ensures |Indices(keys, t)| <= |keys|
    ensures |Indices(keys, t)| == |keys| <==> AllDifferent(keys, t)
  {
    if keys != [] {
      var init, last := keys[..|keys| - 1], StepIndex(t, keys[|keys| - 1]);
      IndicesCount(init, t);
      IndicesAre(init, t);
      DifferentSnoc(init, keys[|keys| - 1], t);
      assert init + [keys[|keys| - 1]] == keys;
    }
  }

  lemma DifferentSnoc(init: seq<string>, last: string, t: Table)
    ensures AllDifferent(init + [last], t) <==>
            AllDifferent(init, t) && !(exists k :: 0 <= k < |init| && StepIndex(t, init[k]) == StepIndex(t, last))
  {
    var keys := init + [last];
    assert forall k :: 0 <= k < |init| ==> keys[k] == init[k];
    assert keys[|init|] == last;
  }

  /** `len(set(step_indices)) == len(step_indices)`, and none is missing. */
  method StepsIsolated(keys: seq<string>, t: Table) returns (r: bool)
    ensures r == Isolated(keys, t)
  {
    var seen: set<Option<nat>> := {};
    var allKnown := true;
    for j := 0 to |keys|
      invariant allKnown == forall k :: 0 <= k < j ==> StepIndex(t, keys[k]).Some?
      invariant seen == Indices(keys[..j], t)
    {
      assert keys[..j + 1][..j] == keys[..j];
      allKnown := allKnown && StepIndex(t, keys[j]).Some?;
      seen := seen + {StepIndex(t, keys[j])};
    }
    assert keys[..|keys|] == keys;
    IndicesCount(keys, t);
    r := allKnown && |seen| == |keys|;
  }

  lemma FiledIsArg(params: seq<string>, t: Table, f: Filing, dotted: bool, a: string)
    requires Filed(f, params, t, dotted) && a in f
    ensures a in ArgsOf(params, t)
  {
    var group := Group(params, t, BinFor(dotted, a));
    assert f[a] == Entries(f, a) == group;
    var p := group[0];
    assert p in group;
    assert p in params && BinOf(t, p) == BinFor(dotted, a);
  }

  lemma ArgIsFiled(params: seq<string>, t: Table, f: Filing, dotted: bool, p: string)
    requires Filed(f, params, t, dotted) && p in params && BinOf(t, p) != Unfiled && BinOf(t, p) == BinFor(dotted, BinOf(t, p).arg)
    ensures BinOf(t, p).arg in f
  {
    var a := BinOf(t, p).arg;
    assert p in Group(params, t, BinFor(dotted, a));
    assert Entries(f, a) == Group(params, t, BinFor(dotted, a));
  }

  lemma ArgsFiled(params: seq<string>, t: Table, plain: Filing, dotted: Filing)
    requires Filed(plain, params, t, false) && Filed(dotted, params, t, true)
    ensures plain.Keys + dotted.Keys == ArgsOf(params, t)
  {
    forall a | a in plain ensures a in ArgsOf(params, t) {
      FiledIsArg(params, t, plain, false, a);
    }
    forall a | a in dotted ensures a in ArgsOf(params, t) {
      FiledIsArg(params, t, dotted, true, a);
    }
    forall a | a in ArgsOf(params, t) ensures a in plain || a in dotted {
      var p :| p in params && BinOf(t, p) != Unfiled && BinOf(t, p).arg == a;
      if BinOf(t, p).DottedBin? {
        ArgIsFiled(params, t, dotted, true, p);
      } else {
        ArgIsFiled(params, t, plain, false, p);
      }
    }
  }

  method ConflictFor(params: seq<string>, t: Table, plain: Filing, dotted: Filing, a: string) returns (r: bool)
    requires Filed(plain, params, t, false) && Filed(dotted, params, t, true) && a in ArgsOf(params, t)
    ensures r <==> a in Conflicts(params, t)
  {
    assert Entries(plain, a) == Group(params, t, BinFor(false, a));
    assert Entries(dotted, a) == Group(params, t, BinFor(true, a));
    if Entries(plain, a) != [] && Entries(dotted, a) != [] {
      return true;
    }
    if |Entries(dotted, a)| > 1 {
      var isolated := StepsIsolated(Entries(dotted, a), t);
      return !isolated;
    }
    return false;
  }

  lemma Reporting(reported: set<string>, conflicts: set<string>, todo: set<string>, a: string)
    requires conflicts == reported - todo && a in todo
    ensures (if a in reported then conflicts + {a} else conflicts) == reported - (todo - {a})
    ensures |todo - {a}| < |todo|
  {
  }

  /** `_check_cross_measure_conflicts`: the arguments it reports. */
  method CheckCrossMeasureConflicts(params: seq<string>, t: Table) returns (conflicts: set<string>)
    ensures conflicts == Conflicts(params, t)
  {
    var plain, dotted := FileParams(params, t);
    ArgsFiled(params, t, plain, dotted);
    conflicts := ReportConflicts(params, t, plain, dotted, plain.Keys + dotted.Keys, Conflicts(params, t));
  }

  method ReportConflicts(params: seq<string>, t: Table, plain: Filing, dotted: Filing, args: set<string>, ghost reported: set<string>)
    returns (conflicts: set<string>)
    requires Filed(plain, params, t, false) && Filed(dotted, params, t, true)
    requires args == ArgsOf(params, t) && reported == Conflicts(params, t)
    ensures conflicts == reported
  {
    var todo := args;
    conflicts := {};
    assert reported <= todo;
    while todo != {}
      invariant todo <= args
      invariant conflicts == reported - todo
      decreases |todo|
    {
      var a :| a in todo;
      var conflicting := ConflictFor(params, t, plain, dotted, a);
      Reporting(reported, conflicts, todo, a);
      if conflicting {
        conflicts := conflicts + {a};
      }
      todo := todo - {a};
    }
  }

  type Index = map<string, set<string>>

  /** The index restricted to the keys seen so far. */
  function MeasuresAmong(t: Table, keys: set<string>, a: string): set<string> {
    set key | key in keys && Exposes(t, key, a) :: MeasureOf(t, key)
  }

  function Under(index: Index, a: string): set<string> {
    if a in index then index[a] else {}
  }

  ghost predicate Indexes(index: Index, t: Table, keys: set<string>) {
    forall a :: Under(index, a) == MeasuresAmong(t, keys, a)
  }

  function WithKey(index: Index, t: Table, key: string): Index
    requires key in t
  {
    if t[key].kind == MeasureArgument && t[key].measureName.Some? && HasDot(key) && LastPart(key) != "" then
      index[LastPart(key) := Under(index, LastPart(key)) + {t[key].measureName.value}]
    else index
  }

  lemma OneMoreKey(index: Index, t: Table, keys: set<string>, key: string)
    requires key in t && Indexes(index, t, keys)
    ensures Indexes(WithKey(index, t, key), t, keys + {key})
  {
    forall a ensures Under(WithKey(index, t, key), a) == MeasuresAmong(t, keys + {key}, a) {
      var before := MeasuresAmong(t, keys, a);
      assert Under(index, a) == before;
      assert MeasuresAmong(t, keys + {key}, a) == if Exposes(t, key, a) then before + {MeasureOf(t, key)} else before;
    }
  }

  /** The reverse index of `_check_ambiguous_parameters`. */
  method IndexMeasures(t: Table) returns (index: Index)
    ensures forall a :: Under(index, a) == Measures(t, a)
  {
    index := map[];
    var todo := t.Keys;
    while todo != {}
      invariant todo <= t.Keys && Indexes(index, t, t.Keys - todo)
      decreases |todo|
    {
      var key :| key in todo;
      OneMoreKey(index, t, t.Keys - todo, key);
      assert t.Keys - todo + {key} == t.Keys - (todo - {key});
      todo := todo - {key};
      if t[key].kind == MeasureArgument && t[key].measureName.Some? && HasDot(key) && LastPart(key) != "" {
        var arg := LastPart(key);
        index := index[arg := Under(index, arg) + {t[key].measureName.value}];
      }
    }
    assert t.Keys - todo == t.Keys;
    forall a ensures Under(index, a) == Measures(t, a) {
      assert Under(index, a) == MeasuresAmong(t, t.Keys, a);
    }
  }

  method CheckAmbiguousParameters(params: seq<string>, t: Table) returns (ambiguous: seq<string>)
    ensures ambiguous == SelectNames(params, t)
  {
    var index := IndexMeasures(t);
    ambiguous := [];
    for i := 0 to |params|
      invariant ambiguous == SelectNames(params[..i], t)
    {
      assert params[..i + 1][..i] == params[..i];
      assert Measures(t, params[i]) == Under(index, params[i]);
      if !HasDot(params[i]) && params[i] in index && |index[params[i]]| > 1 {
        ambiguous := ambiguous + [params[i]];
      }
    }
    assert params[..|params|] == params;
  }

  method CheckAmbiguousStepTargets(params: seq<string>, t: Table) returns (ambiguous: seq<string>)
    ensures ambiguous == SelectTargets(params, t)
  {
    ambiguous := [];
    for i := 0 to |params|
      invariant ambiguous == SelectTargets(params[..i], t)
    {
      assert params[..i + 1][..i] == params[..i];
      if params[i] in t && t[params[i]].ambiguousSteps != [] {
        ambiguous := ambiguous + [params[i]];
      }
    }
    assert params[..|params|] == params;
  }

  /** `preflight_check`, with the conflict override unset. */
  method PreflightCheck(params: seq<string>, t: Table) returns (r: Outcome)
    ensures r == Preflight(params, t)
  {
    var missing := set p | p in params && p !in t;
    if missing != {} {
      return Unmapped(missing);
    }
    var names := CheckAmbiguousParameters(params, t);
    if names != [] {
      return AmbiguousNames(names);
    }
    var targets := CheckAmbiguousStepTargets(params, t);
    if targets != [] {
      return AmbiguousTargets(targets);
    }
    var conflicts := CheckCrossMeasureConflicts(params, t);
    if conflicts != {} {
      return CrossMeasureConflict(conflicts);
    }
    r := Accepted;
  }

  // ---------------------------------------------------------------------
  // What acceptance means, pair by pair
  // ---------------------------------------------------------------------

  /** Two keys the conflict check cannot tell apart: same argument, and not two different steps by dotted keys. */
  predicate Clash(t: Table, k: string, l: string) {
    var b, c := BinOf(t, k), BinOf(t, l);
    b != Unfiled && c != Unfiled && b.arg == c.arg
    && (b.PlainBin? != c.PlainBin?
        || (b.DottedBin? && c.DottedBin? && (StepIndex(t, k).None? || StepIndex(t, k) == StepIndex(t, l))))
  }

  /** The plain name `p` is an argument of two measures, each exposed by a dotted key. */
  ghost predicate OfTwoMeasures(t: Table, p: string) {
    !HasDot(p) && exists k, l :: Exposes(t, k, p) && Exposes(t, l, p) && t[k].measureName != t[l].measureName
  }

  /** In the table, not a plain name of two measures, and not a dotted key of two steps. */
  ghost predicate KnownAndPrecise(t: Table, p: string) {
    p in t && !OfTwoMeasures(t, p) && t[p].ambiguousSteps == []
  }

  lemma AtMostOne<T>(xs: set<T>)
    ensures |xs| > 1 <==> exists x, y :: x in xs && y in xs && x != y
  {
    if xs != {} {
      var x :| x in xs;
      assert |xs - {x}| == |xs| - 1;
      assert |xs| > 1 ==> exists y :: y in xs - {x};
      if y, z :| y in xs && z in xs && y != z {
        assert xs - {x} != {};
      }
    }
  }

  /** Counting the measures that expose a name decides whether there are two. */
  lemma {:induction false} AmbiguousNameIff(t: Table, p: string)
    ensures IsAmbiguousName(t, p) <==>
            !HasDot(p) && exists k, l :: Exposes(t, k, p) && Exposes(t, l, p) && t[k].measureName != t[l].measureName
  {
    AtMostOne(Measures(t, p));
    if |Measures(t, p)| > 1 {
      var m, n :| m in Measures(t, p) && n in Measures(t, p) && m != n;
      var k :| k in t && Exposes(t, k, p) && MeasureOf(t, k) == m;
      var l :| l in t && Exposes(t, l, p) && MeasureOf(t, l) == n;
      assert t[k].measureName != t[l].measureName;
    }
    forall k, l | Exposes(t, k, p) && Exposes(t, l, p) && t[k].measureName != t[l].measureName ensures |Measures(t, p)| > 1 {
      assert MeasureOf(t, k) in Measures(t, p) && MeasureOf(t, l) in Measures(t, p);
    }
  }

  lemma {:induction false} GroupDistinct(params: seq<string>, t: Table, b: Bin)
    requires DistinctNames(params)
    ensures DistinctNames(Group(params, t, b))
  {
    if params != [] {
      var init, last := params[..|params| - 1], params[|params| - 1];
      GroupDistinct(init, t, b);
      assert forall k :: k in init ==> k != last;
    }
  }

  lemma {:induction false} SelectNamesEmpty(params: seq<string>, t: Table)
    ensures SelectNames(params, t) == [] <==> forall p :: p in params ==> !OfTwoMeasures(t, p)
  {
    if params != [] {
      var init, last := params[..|params| - 1], params[|params| - 1];
      SelectNamesEmpty(init, t);
      AmbiguousNameIff(t, last);
      assert IsAmbiguousName(t, last) <==> OfTwoMeasures(t, last);
      assert forall k :: k in params <==> k in init || k == last;
    }
  }

  lemma {:induction false} SelectTargetsEmpty(params: seq<string>, t: Table)
    ensures SelectTargets(params, t) == [] <==> forall p :: p in params ==> !IsAmbiguousTarget(t, p)
  {
    if params != [] {
      var init, last := params[..|params| - 1], params[|params| - 1];
      SelectTargetsEmpty(init, t);
      assert forall k :: k in params <==> k in init || k == last;
    }
  }

  /** A clash is reported. */
  lemma ClashConflicts(params: seq<string>, t: Table, k: string, l: string)
    requires k in params && l in params && k != l && Clash(t, k, l)
    ensures BinOf(t, k).arg in Conflicts(params, t)
  {
    var a := BinOf(t, k).arg;
    var plain, dotted := Group(params, t, PlainBin(a)), Group(params, t, DottedBin(a));
    assert k in plain || k in dotted;
    assert l in plain || l in dotted;
    if k in dotted && l in dotted {
      var i :| 0 <= i < |dotted| && dotted[i] == k;
      var j :| 0 <= j < |dotted| && dotted[j] == l;
      assert i != j && !Isolated(dotted, t);
    }
    assert ConflictOn(params, t, a);
  }

  /** Whatever is reported is a clash. */
  lemma ConflictClashes(params: seq<string>, t: Table, a: string) returns (k: string, l: string)
    requires DistinctNames(params) && a in Conflicts(params, t)
    ensures k in params && l in params && k != l && Clash(t, k, l) && BinOf(t, k).arg == a
  {
    var plain, dotted := Group(params, t, PlainBin(a)), Group(params, t, DottedBin(a));
    GroupDistinct(params, t, DottedBin(a));
    if plain != [] && dotted != [] {
      k, l := plain[0], dotted[0];
      assert k in plain && l in dotted;
    } else if i :| 0 <= i < |dotted| && StepIndex(t, dotted[i]).None? {
      k, l := dotted[i], dotted[if i == 0 then 1 else 0];
      assert k in dotted && l in dotted;
    } else {
      var i, j :| 0 <= i < j < |dotted| && StepIndex(t, dotted[i]) == StepIndex(t, dotted[j]);
      k, l := dotted[i], dotted[j];
      assert k in dotted && l in dotted;
    }
  }

  lemma AcceptedIffPrecise(params: seq<string>, t: Table)
    requires DistinctNames(params)
    ensures Preflight(params, t) == Accepted <==>
            && (forall p :: p in params ==> KnownAndPrecise(t, p))
            && (forall k, l :: k in params && l in params && k != l ==> !Clash(t, k, l))
  {
    SelectNamesEmpty(params, t);
    SelectTargetsEmpty(params, t);
    assert Missing(params, t) == {} <==> forall p :: p in params ==> p in t by {
      assert forall p :: p in params && p !in t ==> p in Missing(params, t);
    }
    if Conflicts(params, t) != {} {
      var a :| a in Conflicts(params, t);
      var k, l := ConflictClashes(params, t, a);
    }
    forall k, l | k in params && l in params && k != l && Clash(t, k, l) ensures Conflicts(params, t) != {} {
      ClashConflicts(params, t, k, l);
    }
  }

  /** Preflight accepts exactly the sets of known names, none of two measures or of two steps, and pairwise clash-free. */
  lemma {:induction false} AcceptedIffNoClash(params: seq<string>, t: Table)
    requires DistinctNames(params)
    ensures Preflight(params, t) == Accepted <==>
            && (forall p :: p in params ==> p in t && t[p].ambiguousSteps == [])
            && (forall p, k, l :: p in params && !HasDot(p) && Exposes(t, k, p) && Exposes(t, l, p) ==>
                                    t[k].measureName == t[l].measureName)
            && (forall k, l :: k in params && l in params && k != l ==> !Clash(t, k, l))
  {
    AcceptedIffPrecise(params, t);
    forall p ensures OfTwoMeasures(t, p) <==> !HasDot(p) && exists k, l :: Exposes(t, k, p) && Exposes(t, l, p) && t[k].measureName != t[l].measureName {
    }
  }

  lemma {:induction false} SelectedAre(params: seq<string>, t: Table, p: string)
    ensures p in SelectNames(params, t) <==> p in params && OfTwoMeasures(t, p)
    ensures p in SelectTargets(params, t) <==> p in params && p in t && t[p].ambiguousSteps != []
  {
    if params != [] {
      var init, last := params[..|params| - 1], params[|params| - 1];
      SelectedAre(init, t, p);
      AmbiguousNameIff(t, last);
      assert IsAmbiguousName(t, last) <==> OfTwoMeasures(t, last);
      assert p in params <==> p in init || p == last;
    }
  }

  /** What each refusal names, by its own condition, and that the checks come in this order. */
  lemma {:induction false} ReportsAre(params: seq<string>, t: Table, x: string)
    requires DistinctNames(params)
    ensures match Preflight(params, t)
            case Accepted => true
            case Unmapped(missing) => missing != {} && (x in missing <==> x in params && x !in t)
            case AmbiguousNames(names) =>
              && params != [] && (forall p :: p in params ==> p in t)
              && (x in names <==> x in params && OfTwoMeasures(t, x))
            case AmbiguousTargets(names) =>
              && (forall p :: p in params ==> p in t && !OfTwoMeasures(t, p))
              && (x in names <==> x in params && t[x].ambiguousSteps != [])
            case CrossMeasureConflict(args) =>
              && (forall p :: p in params ==> KnownAndPrecise(t, p))
              && (x in args <==> exists k, l :: k in params && l in params && k != l && Clash(t, k, l) && BinOf(t, k).arg == x)
  {
    SelectNamesEmpty(params, t);
    SelectTargetsEmpty(params, t);
    SelectedAre(params, t, x);
    if Missing(params, t) == {} {
      assert forall p :: p in params && p !in t ==> p in Missing(params, t);
    }
    if x in Conflicts(params, t) {
      var k, l := ConflictClashes(params, t, x);
    }
    forall k, l | k in params && l in params && k != l && Clash(t, k, l) && BinOf(t, k).arg == x ensures x in Conflicts(params, t) {
      ClashConflicts(params, t, k, l);
    }
  }

  // ---------------------------------------------------------------------
  // The shape of every table that comes from a workflow
  // ---------------------------------------------------------------------

  /** `key` is `<something>.<name>` */
  predicate Qualifies(key: string, name: string) {
    |key| > |name| && key[|key| - |name| - 1] == '.' && key[|key| - |name|..] == name
  }

  predicate EntryShape(steps: seq<Step>, key: string, m: Mapped) {
    && m.kind == MeasureArgument
    && m.stepIndex.Some? && m.stepIndex.value < |steps|
    && steps[m.stepIndex.value].Step?
    && m.measureName == NonEmpty(MeasureName(steps[m.stepIndex.value]))
    && m.stepName == NonEmpty(steps[m.stepIndex.value].name)
    && (key == m.name || (m.measureName.Some? && Qualifies(key, m.name)))
  }

  predicate Shape(steps: seq<Step>, t: Table) {
    forall key :: key in t ==> EntryShape(steps, key, t[key])
  }

  lemma DottedQualifies(q: string, a: string)
    ensures Qualifies(Dotted(q, a), a)
  {
    assert Dotted(q, a)[|q|] == '.';
  }

  predicate ShapeAt(steps: seq<Step>, t: Table, key: string) {
    key in t ==> EntryShape(steps, key, t[key])
  }

  lemma {:induction false} AliasesKeepShape(steps: seq<Step>, t: Table, r: Reg, aliases: seq<string>, key: string)
    requires ShapeAt(steps, t, key) && EntryShape(steps, r.arg, Param(r)) && (aliases != [] ==> r.measure != "")
    ensures ShapeAt(steps, PutAliases(t, r, aliases), key)
  {
    if aliases != [] {
      AliasesKeepShape(steps, t, r, aliases[..|aliases| - 1], key);
      DottedQualifies(aliases[|aliases| - 1], r.arg);
    }
  }

  lemma RegisteredKeepsShape(steps: seq<Step>, t: Table, r: Reg, key: string)
    requires ShapeAt(steps, t, key) && EntryShape(steps, r.arg, Param(r)) && (r.aliases != [] ==> r.measure != "")
    ensures ShapeAt(steps, Registered(t, r), key)
  {
    var withPlain := PutFirst(t, r.arg, Param(r));
    DottedQualifies(r.measure, r.arg);
    var withDotted := if r.measure != "" then PutDotted(withPlain, Dotted(r.measure, r.arg), Param(r)) else withPlain;
    AliasesKeepShape(steps, withDotted, r, r.aliases, key);
  }

  lemma AliasesNeedDirectory(steps: seq<Step>, i: nat)
    requires i < |steps| && Aliases(steps, i) != []
    ensures steps[i].Step? && MeasureName(steps[i]) != ""
  {
    AliasesAre(steps, i, Aliases(steps, i)[0]);
  }

  lemma {:induction false} StepKeepsShape(t: Table, steps: seq<Step>, i: nat, ds: seq<Decl>, key: string)
    requires i < |steps| && steps[i].Step? && ShapeAt(steps, t, key)
    ensures ShapeAt(steps, TableWith(t, steps, i, ds), key)
  {
    if ds != [] {
      var init, last := ds[..|ds| - 1], ds[|ds| - 1];
      StepKeepsShape(t, steps, i, init, key);
      if Aliases(steps, i) != [] {
        AliasesNeedDirectory(steps, i);
      }
      RegisteredKeepsShape(steps, TableWith(t, steps, i, init), RegOf(steps, i, last), key);
    }
  }

  lemma PassKeepsShape(steps: seq<Step>, i: nat, t: Table, key: string)
    requires i < |steps| && ShapeAt(steps, t, key)
    ensures ShapeAt(steps, NextTable(steps, i, t), key)
  {
    if steps[i].Step? {
      StepKeepsShape(t, steps, i, Decls(steps[i]), key);
    } else {
      NoDecls(t, steps, i);
    }
  }

  /** Every key of every workflow's table names the argument it writes, bare or qualified, in a real step. */
  lemma {:induction false} TableHasShape(steps: seq<Step>)
    ensures Shape(steps, TableOf(steps))
  {
    forall key | key in TableOf(steps) ensures EntryShape(steps, key, TableOf(steps)[key]) {
      var shapely := (i: nat, t: Table) => ShapeAt(steps, t, key);
      forall i: nat, t | i < |steps| && shapely(i, t) ensures shapely(i + 1, NextTable(steps, i, t)) {
        PassKeepsShape(steps, i, t, key);
      }
      TableInduction(steps, shapely);
      assert shapely(|steps|, TableOf(steps));
    }
  }

  // ---------------------------------------------------------------------
  // Passing preflight implies non-interfering writes
  // ---------------------------------------------------------------------

  datatype Target = Target(step: Option<nat>, arg: string)

  function TargetOf(t: Table, key: string): Target
    requires key in t
  {
    Target(t[key].stepIndex, t[key].name)
  }

  predicate DistinctTargets(params: seq<string>, t: Table) {
    && (forall p :: p in params ==> p in t)
    && (forall k, l :: k in params && l in params && k != l ==> TargetOf(t, k) != TargetOf(t, l))
  }

  /** The conflict check cannot read such a name back from a dotted key. */
  predicate BadName(a: string) {
    a == "" || a[|a| - 1] == '.'
  }

  /** The last part is all that can follow a dot without containing one. */
  lemma LastPartIs(key: string, a: string, r: string)
    requires key == a + ['.'] + r && !HasDot(r)
    ensures HasDot(key) && LastPart(key) == r
  {
    assert key[|a|] == '.';
    var s := LastPart(key);
    var b := key[..|key| - |s| - 1];
    assert key == b + ['.'] + s;
    Text.SplitUniqueFromRight('.', a, r, b, s);
  }

  lemma Regroup(pre: string, a: string, r: string)
    ensures pre + (a + ['.'] + r) == (pre + a) + ['.'] + r
  {
  }

  lemma EndsInLastPart(name: string) returns (a: string)
    requires HasDot(name)
    ensures name == a + ['.'] + LastPart(name)
  {
    a := name[..|name| - |LastPart(name)| - 1];
  }

  lemma LastPartOfName(pre: string, name: string)
    requires HasDot(name)
    ensures HasDot(pre + name) && LastPart(pre + name) == LastPart(name)
  {
    var a := EndsInLastPart(name);
    Regroup(pre, a, LastPart(name));
    LastPartIs(pre + name, pre + a, LastPart(name));
  }

  lemma LastPartOfQualified(key: string, name: string)
    requires HasDot(key) && (key == name || Qualifies(key, name))
    ensures LastPart(key) == (if HasDot(name) then LastPart(name) else name)
    ensures LastPart(key) == "" <==> BadName(name)
  {
    if key != name {
      var q := key[..|key| - |name| - 1];
      assert key == q + ['.'] + name;
      if HasDot(name) {
        LastPartOfName(q + ['.'], name);
      } else {
        LastPartIs(key, q, name);
      }
    }
  }

  /** Two keys of a workflow's table with one target either clash or hide behind a bad name. */
  lemma {:induction false} SameTargetClashes(steps: seq<Step>, t: Table, k: string, l: string)
    requires Shape(steps, t) && k in t && l in t && k != l && TargetOf(t, k) == TargetOf(t, l)
    ensures !BadName(t[k].name) ==> Clash(t, k, l)
    ensures BadName(t[k].name) ==> !Clash(t, k, l)
  {
    BinOfEntry(steps, t, k);
    BinOfEntry(steps, t, l);
    assert EntryShape(steps, k, t[k]) && EntryShape(steps, l, t[l]);
  }

  /** How the conflict check files a key of a workflow's table. */
  lemma BinOfEntry(steps: seq<Step>, t: Table, key: string)
    requires Shape(steps, t) && key in t
    ensures var name := t[key].name;
            && (!HasDot(key) ==> key == name && BinOf(t, key) == PlainBin(name))
            && (HasDot(key) && !BadName(name) && t[key].measureName.Some? ==>
                  BinOf(t, key) == DottedBin(if HasDot(name) then LastPart(name) else name))
            && (HasDot(key) && BadName(name) ==> BinOf(t, key) == Unfiled)
            && (t[key].measureName.None? ==> key == name)
  {
    var name := t[key].name;
    assert EntryShape(steps, key, t[key]);
    assert Qualifies(key, name) ==> HasDot(key);
    if HasDot(key) {
      LastPartOfQualified(key, name);
    }
  }

  /** Every set that preflight accepts writes each step argument at most once, when argument names are well formed. */
  lemma {:induction false} AcceptedTargetsDistinct(steps: seq<Step>, params: seq<string>)
    requires DistinctNames(params)
    requires forall p :: p in params && p in TableOf(steps) ==> !BadName(TableOf(steps)[p].name)
    requires Preflight(params, TableOf(steps)) == Accepted
    ensures DistinctTargets(params, TableOf(steps))
  {
    var t := TableOf(steps);
    TableHasShape(steps);
    AcceptedIffPrecise(params, t);
    forall k, l | k in params && l in params && k != l ensures TargetOf(t, k) != TargetOf(t, l) {
      if TargetOf(t, k) == TargetOf(t, l) {
        SameTargetClashes(steps, t, k, l);
      }
    }
  }

  /** Two precise keys for one argument whose name the conflict check cannot read back. */
  ghost predicate BlindPair(t: Table, k: string, l: string) {
    k in t && l in t && k != l && TargetOf(t, k) == TargetOf(t, l)
    && BadName(t[k].name) && KnownAndPrecise(t, k) && KnownAndPrecise(t, l)
  }

  ghost predicate PreflightIsSound(t: Table) {
    forall params :: DistinctNames(params) && Preflight(params, t) == Accepted ==> DistinctTargets(params, t)
  }

  lemma BlindPairIsAccepted(steps: seq<Step>, t: Table, k: string, l: string)
    requires Shape(steps, t) && BlindPair(t, k, l)
    ensures DistinctNames([k, l]) && Preflight([k, l], t) == Accepted && !DistinctTargets([k, l], t)
  {
    SameTargetClashes(steps, t, k, l);
    SameTargetClashes(steps, t, l, k);
    PairAccepted(t, k, l);
    assert k in [k, l] && l in [k, l];
  }

  lemma PairAccepted(t: Table, k: string, l: string)
    requires k != l && KnownAndPrecise(t, k) && KnownAndPrecise(t, l) && !Clash(t, k, l) && !Clash(t, l, k)
    ensures DistinctNames([k, l]) && Preflight([k, l], t) == Accepted
  {
    AcceptedIffPrecise([k, l], t);
  }

  lemma NoBlindPairIsSound(steps: seq<Step>, t: Table, params: seq<string>)
    requires Shape(steps, t) && DistinctNames(params) && Preflight(params, t) == Accepted
    requires forall k, l :: !BlindPair(t, k, l)
    ensures DistinctTargets(params, t)
  {
    AcceptedIffPrecise(params, t);
    forall k, l | k in params && l in params && k != l ensures TargetOf(t, k) != TargetOf(t, l) {
      assert !BlindPair(t, k, l);
      assert KnownAndPrecise(t, k) && KnownAndPrecise(t, l);
      if TargetOf(t, k) == TargetOf(t, l) {
        SameTargetClashes(steps, t, k, l);
      }
    }
  }

  /** Exactly when preflight is sound for a workflow: its table has no blind pair. */
  lemma {:induction false} SoundIffNoBlindPair(steps: seq<Step>)
    ensures PreflightIsSound(TableOf(steps)) <==> forall k, l :: !BlindPair(TableOf(steps), k, l)
  {
    var t := TableOf(steps);
    TableHasShape(steps);
    forall k, l | BlindPair(t, k, l) ensures !PreflightIsSound(t) {
      BlindPairIsAccepted(steps, t, k, l);
    }
    if forall k, l :: !BlindPair(t, k, l) {
      forall params | DistinctNames(params) && Preflight(params, t) == Accepted ensures DistinctTargets(params, t) {
        NoBlindPairIsSound(steps, t, params);
      }
    }
  }

  // ---------------------------------------------------------------------
  // A workflow where it is not
  // ---------------------------------------------------------------------

  ghost predicate OnlyStep(t: Table, i: nat) {
    forall k :: k in t ==> t[k].stepIndex == Some(i) && t[k].ambiguousSteps == []
  }

  ghost predicate Extends(t: Table, u: Table) {
    forall k :: k in t ==> k in u && u[k] == t[k]
  }

  lemma {:induction false} AliasesExtend(t: Table, r: Reg, aliases: seq<string>)
    requires OnlyStep(t, r.idx)
    ensures OnlyStep(PutAliases(t, r, aliases), r.idx) && Extends(t, PutAliases(t, r, aliases))
  {
    if aliases != [] {
      AliasesExtend(t, r, aliases[..|aliases| - 1]);
    }
  }

  lemma SameStepExtends(t: Table, r: Reg)
    requires OnlyStep(t, r.idx)
    ensures OnlyStep(Registered(t, r), r.idx) && Extends(t, Registered(t, r))
    ensures r.arg in Registered(t, r)
    ensures r.measure != "" ==> Dotted(r.measure, r.arg) in Registered(t, r)
  {
    var withPlain := PutFirst(t, r.arg, Param(r));
    var withDotted := if r.measure != "" then PutDotted(withPlain, Dotted(r.measure, r.arg), Param(r)) else withPlain;
    AliasesExtend(withDotted, r, r.aliases);
  }

  lemma {:induction false} FirstDeclStays(steps: seq<Step>, ds: seq<Decl>, m: string)
    requires |steps| == 1 && MeasureName(steps[0]) == m != "" && ds != []
    ensures var t, a := TableWith(map[], steps, 0, ds), ds[0].name;
            OnlyStep(t, 0) && a in t && Dotted(m, a) in t
            && t[a] == t[Dotted(m, a)] == Param(RegOf(steps, 0, ds[0]))
  {
    var init, last := ds[..|ds| - 1], ds[|ds| - 1];
    assert ds == init + [last];
    RegsSnoc(map[], steps, 0, init, last);
    NoDecls(map[], steps, 0);
    if init != [] {
      FirstDeclStays(steps, init, m);
      SameStepExtends(TableWith(map[], steps, 0, init), RegOf(steps, 0, last));
    } else {
      var r := RegOf(steps, 0, last);
      var t1: Table := map[][r.arg := Param(r)];
      var t2 := t1[Dotted(m, r.arg) := Param(r)];
      AliasesExtend(t2, r, r.aliases);
      assert |Dotted(m, r.arg)| > |r.arg|;
      assert Registered(map[], r) == PutAliases(t2, r, r.aliases);
    }
  }

  /** An empty argument name, or one that ends in a dot, lets both of its keys through: the two writes collide. */
  lemma {:induction false} BadNameSlipsThrough(s: Step)
    requires WfStep(s) && s.Step? && MeasureName(s) != "" && s.argNames != [] && BadName(s.argNames[0])
    ensures BlindPair(TableOf([s]), s.argNames[0], Dotted(MeasureName(s), s.argNames[0]))
  {
    var steps, a, m := [s], s.argNames[0], MeasureName(s);
    var t := TableOf(steps);
    ListedSnoc(s, 0);
    assert Decls(s)[0].name == a;
    TableStep(steps, 0);
    FirstDeclStays(steps, Decls(s), m);
    DottedQualifies(m, a);
    assert Measures(t, a) == {};
    assert HasDot(a) || a == "";
  }
}
