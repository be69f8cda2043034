/**
 The verdict of preflight, read off the workflow itself: which argument names, plain or
 qualified, a dot-free workflow accepts together (osimflow/apply_params.py).
 */
module OswVerdicts {
  import opened Wrappers
  import opened OswTable
  import opened OswReadings
  import opened OswLookup
  import P = OswPreflight

  // ---------------------------------------------------------------------
  // The table holds the declared readings and nothing else
  // ---------------------------------------------------------------------

  ghost predicate OnlyDeclared(steps: seq<Step>, t: Table, key: string) {
    key in t ==> exists rd :: Declared(steps, rd) && KeyOf(rd) == key
  }

  lemma RegistrationIsDeclared(steps: seq<Step>, t: Table, i: nat, d: Decl, key: string)
    requires i < |steps| && Declares(steps, i, d.name) && OnlyDeclared(steps, t, key)
    ensures OnlyDeclared(steps, Registered(t, RegOf(steps, i, d)), key)
  {
    var r := RegOf(steps, i, d);
    RegistrationEffect(t, r, key);
    if r.arg == key {
      ReadingIsDeclared(steps, i, Plain(r.arg));
    } else if r.measure != "" && Dotted(r.measure, r.arg) == key {
      ReadingIsDeclared(steps, i, Pair(r.measure, r.arg));
    } else if HitsAlias(r, r.aliases, key) {
      var n :| n in r.aliases && n != "" && n != r.measure && Dotted(n, r.arg) == key;
      AliasesAre(steps, i, n);
      ReadingIsDeclared(steps, i, Pair(n, r.arg));
    }
  }

  lemma ReadingIsDeclared(steps: seq<Step>, i: nat, rd: Reading)
    requires Reads(steps, i, rd)
    ensures exists other :: Declared(steps, other) && KeyOf(other) == KeyOf(rd)
  {
    assert Declared(steps, rd);
  }

  lemma {:induction false} StepIsDeclared(steps: seq<Step>, t: Table, i: nat, ds: seq<Decl>, key: string)
    requires i < |steps| && AllDeclared(steps, i, ds) && OnlyDeclared(steps, t, key)
    ensures OnlyDeclared(steps, TableWith(t, steps, i, ds), key)
  {
    if ds == [] {
      NoDecls(t, steps, i);
    } else {
      var init, last := ds[..|ds| - 1], ds[|ds| - 1];
      assert ds == init + [last] && forall d :: d in init ==> d in ds;
      StepIsDeclared(steps, t, i, init, key);
      RegsSnoc(t, steps, i, init, last);
      RegistrationIsDeclared(steps, TableWith(t, steps, i, init), i, last, key);
    }
  }

  lemma DeclsAreDeclared(steps: seq<Step>, i: nat)
    requires WfSteps(steps) && i < |steps|
    ensures AllDeclared(steps, i, Decls(steps[i]))
  {
    forall d | d in Decls(steps[i]) ensures Declares(steps, i, d.name) {
      NamesAreCounted(Decls(steps[i]), d);
      DeclsAreDefaults(steps[i], d.name);
    }
  }

  /** Every key of a workflow's table is a name some step declares, plain or under a qualifier the step answers to. */
  lemma {:induction false} KeysAreDeclared(steps: seq<Step>, key: string)
    requires WfSteps(steps) && key in TableOf(steps)
    ensures exists rd :: Declared(steps, rd) && KeyOf(rd) == key
  {
    var declared := (i: nat, t: Table) => OnlyDeclared(steps, t, key);
    forall i: nat, t | i < |steps| && declared(i, t) ensures declared(i + 1, NextTable(steps, i, t)) {
      DeclsAreDeclared(steps, i);
      StepIsDeclared(steps, t, i, Decls(steps[i]), key);
    }
    TableInduction(steps, declared);
    assert declared(|steps|, TableOf(steps));
  }

  // ---------------------------------------------------------------------
  // One name
  // ---------------------------------------------------------------------

  /** An argument, plain or under a qualifier, spelled without dots and not empty. */
  predicate WellSpelled(rd: Reading) {
    rd.arg != "" && DotFree(rd.arg) && (rd.Pair? ==> rd.qualifier != "" && DotFree(rd.qualifier))
  }

  /** Steps of two different measures declare the argument. */
  ghost predicate TwoMeasuresDeclare(steps: seq<Step>, a: string) {
    exists i: nat, j: nat :: OfMeasure(steps, i, a) && OfMeasure(steps, j, a) && MeasureName(steps[i]) != MeasureName(steps[j])
  }

  predicate OfMeasure(steps: seq<Step>, i: nat, a: string) {
    Declares(steps, i, a) && MeasureName(steps[i]) != ""
  }

  /** Some step declares the argument; for a plain name no two measures do, for a qualified one no two steps. */
  ghost predicate Precise(steps: seq<Step>, rd: Reading) {
    && Declared(steps, rd)
    && (rd.Plain? ==> !TwoMeasuresDeclare(steps, rd.arg))
    && (rd.Pair? ==> !SeveralAnswer(steps, rd.qualifier, rd.arg))
  }

  /** The two names reach one step. */
  ghost predicate OneStepAnswersBoth(steps: seq<Step>, rd: Reading, other: Reading) {
    exists i: nat :: Reads(steps, i, rd) && Reads(steps, i, other)
  }

  /** The same argument once plain and once qualified, or by two qualifiers of one step. */
  ghost predicate Collide(steps: seq<Step>, rd: Reading, other: Reading) {
    rd.arg == other.arg && (rd.Plain? != other.Plain? || (rd.Pair? && OneStepAnswersBoth(steps, rd, other)))
  }

  lemma KeyShape(rd: Reading)
    requires WellSpelled(rd)
    ensures P.HasDot(KeyOf(rd)) <==> rd.Pair?
    ensures P.LastPart(KeyOf(rd)) == rd.arg
  {
    if rd.Pair? {
      assert KeyOf(rd) == rd.qualifier + ['.'] + rd.arg;
      P.LastPartIs(KeyOf(rd), rd.qualifier, rd.arg);
    }
  }

  ghost predicate Plainly(steps: seq<Step>) {
    WfSteps(steps) && DotFreeSteps(steps)
  }

  lemma KnownIffDeclared(steps: seq<Step>, rd: Reading)
    requires Plainly(steps) && WellSpelled(rd)
    ensures KeyOf(rd) in TableOf(steps) <==> Declared(steps, rd)
  {
    if KeyOf(rd) in TableOf(steps) {
      KeysAreDeclared(steps, KeyOf(rd));
      var other :| Declared(steps, other) && KeyOf(other) == KeyOf(rd);
      DotFreeReading(steps, other);
      SplitsOneWay(rd, other);
    }
    if Declared(steps, rd) {
      DotFreeKeyIsRight(steps, rd);
      DeclaredHasTarget(steps, rd);
    }
  }

  /** The entry of a declared name: the first step that reads it, ambiguous exactly if several answer to a qualifier. */
  lemma EntryIs(steps: seq<Step>, rd: Reading) returns (i: nat)
    requires Plainly(steps) && WellSpelled(rd) && Declared(steps, rd)
    ensures KeyOf(rd) in TableOf(steps) && Reads(steps, i, rd)
    ensures var m := TableOf(steps)[KeyOf(rd)];
            && m.kind == MeasureArgument && m.name == rd.arg && m.stepIndex == Some(i) && m.measureName == NonEmpty(MeasureName(steps[i]))
            && (m.ambiguousSteps != [] <==> rd.Pair? && SeveralAnswer(steps, rd.qualifier, rd.arg))
  {
    DotFreeKeyIsRight(steps, rd);
    DeclaredHasTarget(steps, rd);
    if rd.Plain? {
      i := Declaring(steps, |steps|, rd.arg)[0];
    } else {
      i := Qualified(steps, |steps|, rd.qualifier, rd.arg)[0];
      SeveralIfTwo(steps, rd.qualifier, rd.arg);
      assert Answers(steps, i, rd.qualifier, rd.arg);
    }
  }

  lemma QualifiedHasMeasure(steps: seq<Step>, i: nat, rd: Reading)
    requires rd.Pair? && Reads(steps, i, rd)
    ensures MeasureName(steps[i]) != ""
  {
    if MeasureName(steps[i]) != rd.qualifier {
      RawAliasesAre(steps[i], rd.qualifier);
    }
  }

  /** A dotted key exposes an argument exactly if it is a declared qualified name of it. */
  lemma ExposesIs(steps: seq<Step>, key: string, a: string) returns (i: nat)
    requires Plainly(steps) && a != "" && DotFree(a) && P.Exposes(TableOf(steps), key, a)
    ensures Declares(steps, i, a) && MeasureName(steps[i]) != "" && TableOf(steps)[key].measureName == Some(MeasureName(steps[i]))
  {
    KeysAreDeclared(steps, key);
    var rd :| Declared(steps, rd) && KeyOf(rd) == key;
    DotFreeReading(steps, rd);
    if rd.Pair? {
      assert KeyOf(rd) == rd.qualifier + ['.'] + rd.arg;
      P.LastPartIs(key, rd.qualifier, rd.arg);
    }
    assert rd.arg == a;
    assert exists k: nat :: Reads(steps, k, rd);
    i := EntryIs(steps, rd);
    QualifiedHasMeasure(steps, i, rd);
  }

  lemma MeasureExposes(steps: seq<Step>, i: nat, a: string)
    requires Plainly(steps) && a != "" && DotFree(a) && Declares(steps, i, a) && MeasureName(steps[i]) != ""
    ensures var key := Dotted(MeasureName(steps[i]), a);
            P.Exposes(TableOf(steps), key, a) && TableOf(steps)[key].measureName == Some(MeasureName(steps[i]))
  {
    var m := MeasureName(steps[i]);
    var rd := Pair(m, a);
    assert AnswersTo(steps, i, m) && Reads(steps, i, rd);
    DotFreeReading(steps, rd);
    KeyShape(rd);
    var first := EntryIs(steps, rd);
    QualifiedHasMeasure(steps, first, rd);
    OneWayToAnswer(steps, i, first, m);
  }

  /** The index of exposed names finds two measures exactly if steps of two measures declare the argument. */
  lemma {:induction false} TwoMeasuresIff(steps: seq<Step>, a: string)
    requires Plainly(steps) && a != "" && DotFree(a)
    ensures P.OfTwoMeasures(TableOf(steps), a) <==> TwoMeasuresDeclare(steps, a)
  {
    var t := TableOf(steps);
    if P.OfTwoMeasures(t, a) {
      var k, l :| P.Exposes(t, k, a) && P.Exposes(t, l, a) && t[k].measureName != t[l].measureName;
      var i := ExposesIs(steps, k, a);
      var j := ExposesIs(steps, l, a);
      assert OfMeasure(steps, i, a) && OfMeasure(steps, j, a);
    }
    if TwoMeasuresDeclare(steps, a) {
      var i: nat, j: nat :| OfMeasure(steps, i, a) && OfMeasure(steps, j, a) && MeasureName(steps[i]) != MeasureName(steps[j]);
      MeasureExposes(steps, i, a);
      MeasureExposes(steps, j, a);
    }
  }

  lemma PreciseIff(steps: seq<Step>, rd: Reading)
    requires Plainly(steps) && WellSpelled(rd)
    ensures P.KnownAndPrecise(TableOf(steps), KeyOf(rd)) <==> Precise(steps, rd)
  {
    KnownIffDeclared(steps, rd);
    KeyShape(rd);
    if Declared(steps, rd) {
      var i := EntryIs(steps, rd);
      if rd.Plain? {
        TwoMeasuresIff(steps, rd.arg);
      }
    }
  }

  // ---------------------------------------------------------------------
  // Several names
  // ---------------------------------------------------------------------

  lemma BinIs(steps: seq<Step>, rd: Reading)
    requires Plainly(steps) && WellSpelled(rd) && Declared(steps, rd)
    ensures P.BinOf(TableOf(steps), KeyOf(rd)) == if rd.Plain? then P.PlainBin(rd.arg) else P.DottedBin(rd.arg)
  {
    KeyShape(rd);
    var i := EntryIs(steps, rd);
    if rd.Pair? {
      QualifiedHasMeasure(steps, i, rd);
    }
  }

  lemma SameStepIff(steps: seq<Step>, rd: Reading, other: Reading)
    requires Plainly(steps) && WellSpelled(rd) && WellSpelled(other) && Precise(steps, rd) && Precise(steps, other)
    requires rd.Pair? && other.Pair?
    ensures var was, now := P.StepIndex(TableOf(steps), KeyOf(rd)), P.StepIndex(TableOf(steps), KeyOf(other));
            was.Some? && (was == now <==> OneStepAnswersBoth(steps, rd, other))
  {
    var i := EntryIs(steps, rd);
    var j := EntryIs(steps, other);
    if OneStepAnswersBoth(steps, rd, other) {
      var k: nat :| Reads(steps, k, rd) && Reads(steps, k, other);
      OnlyAnswer(steps, rd, i, k);
      OnlyAnswer(steps, other, j, k);
    }
  }

  lemma ClashByBins(t: Table, k: string, l: string, a: string, b: string, first: bool, second: bool)
    requires P.BinOf(t, k) == if first then P.PlainBin(a) else P.DottedBin(a)
    requires P.BinOf(t, l) == if second then P.PlainBin(b) else P.DottedBin(b)
    requires !first && !second ==> P.StepIndex(t, k).Some?
    ensures P.Clash(t, k, l) <==> a == b && (first != second || (!first && P.StepIndex(t, k) == P.StepIndex(t, l)))
  {
  }

  lemma ClashIff(steps: seq<Step>, rd: Reading, other: Reading)
    requires Plainly(steps) && WellSpelled(rd) && WellSpelled(other) && Precise(steps, rd) && Precise(steps, other)
    ensures P.Clash(TableOf(steps), KeyOf(rd), KeyOf(other)) <==> Collide(steps, rd, other)
  {
    BinIs(steps, rd);
    BinIs(steps, other);
    if rd.Pair? && other.Pair? {
      SameStepIff(steps, rd, other);
    }
    ClashByBins(TableOf(steps), KeyOf(rd), KeyOf(other), rd.arg, other.arg, rd.Plain?, other.Plain?);
  }

  lemma OnlyAnswer(steps: seq<Step>, rd: Reading, i: nat, k: nat)
    requires rd.Pair? && Precise(steps, rd) && Reads(steps, i, rd) && Reads(steps, k, rd)
    ensures i == k
  {
    assert Answers(steps, i, rd.qualifier, rd.arg) && Answers(steps, k, rd.qualifier, rd.arg);
  }

  function Spelled(rds: seq<Reading>): (r: seq<string>)
    ensures |r| == |rds| && forall i :: 0 <= i < |rds| ==> r[i] == KeyOf(rds[i])
  {
    seq(|rds|, i requires 0 <= i < |rds| => KeyOf(rds[i]))
  }

  ghost predicate AllPrecise(steps: seq<Step>, rds: seq<Reading>) {
    forall i :: 0 <= i < |rds| ==> Precise(steps, rds[i])
  }

  ghost predicate NoneCollide(steps: seq<Step>, rds: seq<Reading>) {
    forall i, j :: 0 <= i < |rds| && 0 <= j < |rds| && i != j ==> !Collide(steps, rds[i], rds[j])
  }

  lemma SpelledApart(rds: seq<Reading>)
    requires forall i :: 0 <= i < |rds| ==> WellSpelled(rds[i])
    requires forall i, j :: 0 <= i < j < |rds| ==> rds[i] != rds[j]
    ensures DistinctNames(Spelled(rds))
  {
    forall i, j | 0 <= i < j < |rds| ensures Spelled(rds)[i] != Spelled(rds)[j] {
      if KeyOf(rds[i]) == KeyOf(rds[j]) {
        SplitsOneWay(rds[i], rds[j]);
      }
    }
  }

  lemma PreciseAll(steps: seq<Step>, rds: seq<Reading>)
    requires Plainly(steps) && forall i :: 0 <= i < |rds| ==> WellSpelled(rds[i])
    ensures AllPrecise(steps, rds) <==> forall p :: p in Spelled(rds) ==> P.KnownAndPrecise(TableOf(steps), p)
  {
    var ps := Spelled(rds);
    forall i | 0 <= i < |rds| ensures ps[i] in ps && (P.KnownAndPrecise(TableOf(steps), ps[i]) <==> Precise(steps, rds[i])) {
      PreciseIff(steps, rds[i]);
    }
  }

  lemma ClashAll(steps: seq<Step>, rds: seq<Reading>)
    requires Plainly(steps) && AllPrecise(steps, rds) && forall i :: 0 <= i < |rds| ==> WellSpelled(rds[i])
    requires DistinctNames(Spelled(rds))
    ensures var ps := Spelled(rds);
            NoneCollide(steps, rds) <==> forall k, l :: k in ps && l in ps && k != l ==> !P.Clash(TableOf(steps), k, l)
  {
    var ps := Spelled(rds);
    forall i, j | 0 <= i < |rds| && 0 <= j < |rds| && i != j
      ensures ps[i] != ps[j] && (P.Clash(TableOf(steps), ps[i], ps[j]) <==> Collide(steps, rds[i], rds[j]))
    {
      assert Precise(steps, rds[i]) && Precise(steps, rds[j]);
      ClashIff(steps, rds[i], rds[j]);
    }
  }

  /**
   Preflight accepts a list of different well-spelled names exactly if every one is precise (declared;
   plain ones not by two measures, qualified ones not by two steps), no argument is given both plain
   and qualified, and no step gets an argument by two qualifiers.
   */
  lemma {:induction false} VerdictIs(steps: seq<Step>, rds: seq<Reading>)
    requires WfSteps(steps) && DotFreeSteps(steps)
    requires forall i :: 0 <= i < |rds| ==> WellSpelled(rds[i])
    requires forall i, j :: 0 <= i < j < |rds| ==> rds[i] != rds[j]
    ensures P.Preflight(Spelled(rds), TableOf(steps)) == P.Accepted <==> AllPrecise(steps, rds) && NoneCollide(steps, rds)
  {
    var ps, t := Spelled(rds), TableOf(steps);
    SpelledApart(rds);
    P.AcceptedIffPrecise(ps, t);
    PreciseAll(steps, rds);
    if AllPrecise(steps, rds) {
      ClashAll(steps, rds);
    }
  }

  // ---------------------------------------------------------------------
  // One step, whatever its names
  // ---------------------------------------------------------------------

  lemma {:induction false} OneStepKeys(steps: seq<Step>, ds: seq<Decl>, a: string)
    requires |steps| == 1
    ensures var t := TableWith(map[], steps, 0, ds);
            P.OnlyStep(t, 0) && (Count(ds, a) > 0 ==> a in t)
  {
    NoDecls(map[], steps, 0);
    if ds != [] {
      var init, last := ds[..|ds| - 1], ds[|ds| - 1];
      assert ds == init + [last];
      OneStepKeys(steps, init, a);
      RegsSnoc(map[], steps, 0, init, last);
      Snoc(init, last, a);
      P.SameStepExtends(TableWith(map[], steps, 0, init), RegOf(steps, 0, last));
    }
  }

  lemma SameMeasureThroughout(s: Step, k: string, l: string)
    requires k in TableOf([s]) && l in TableOf([s])
    ensures TableOf([s])[k].measureName == TableOf([s])[l].measureName
  {
    P.TableHasShape([s]);
    assert P.EntryShape([s], k, TableOf([s])[k]) && P.EntryShape([s], l, TableOf([s])[l]);
  }

  /** A one-step workflow accepts each of its names on its own, and knows every argument the step declares. */
  lemma {:induction false} OneStepAcceptsItsNames(s: Step, key: string)
    requires WfStep(s)
    ensures Default(s, key).Some? ==> key in TableOf([s])
    ensures P.Preflight([key], TableOf([s])) == if key in TableOf([s]) then P.Accepted else P.Unmapped({key})
  {
    var t := TableOf([s]);
    TableStep([s], 0);
    OneStepKeys([s], Decls(s), key);
    DeclsAreDefaults(s, key);
    assert t == TableWith(map[], [s], 0, Decls(s));
    forall p, k, l | p in [key] && !P.HasDot(p) && P.Exposes(t, k, p) && P.Exposes(t, l, p) ensures t[k].measureName == t[l].measureName {
      SameMeasureThroughout(s, k, l);
    }
    P.AcceptedIffNoClash([key], t);
    assert key !in t ==> P.Missing([key], t) == {key};
  }
}
