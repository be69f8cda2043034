/**
 What every key of the table resolves to. A key may be read as a plain argument name or as
 `<qualifier>.<argument>`; where only one reading is declared, a plain name goes to the first
 step declaring it and a qualified one to the only step it can mean, with the competing steps
 listed when there are several. The table is right throughout exactly when no key has two readings.
 */
module OswLookup {
  import opened Wrappers
  import opened OswTable
  import opened OswReadings
  import Text

  // ---------------------------------------------------------------------
  // The whole table
  // ---------------------------------------------------------------------

  /** A measure name is nobody's alias, and an alias is one step's. */
  lemma OneWayToAnswer(steps: seq<Step>, i: nat, j: nat, q: string)
    requires i < |steps| && j < |steps| && AnswersTo(steps, i, q) && AnswersTo(steps, j, q)
    requires q != ""
    ensures i != j ==> MeasureName(steps[i]) == q && MeasureName(steps[j]) == q
  {
    assert MeasureName(steps[i]) == q ==> q in Canonical(steps);
    assert MeasureName(steps[j]) == q ==> q in Canonical(steps);
  }

  lemma MoreLabels(steps: seq<Step>, ks: seq<nat>, n: nat, a: string)
    requires ks != [] && Declares(steps, n, a) && forall j :: 0 <= j < |ks| ==> Declares(steps, ks[j], a)
    ensures Labels(steps, ks + [n], a) == Labels(steps, ks, a) + Repeat(LabelOf(steps, n, a), Times(steps[n], a))
    ensures |ks| == 1 ==> Labels(steps, ks, a) == [LabelOf(steps, ks[0], a)]
  {
    assert (ks + [n])[..|ks|] == ks;
  }

  lemma TargetGrows(steps: seq<Step>, n: nat, rd: Reading)
    requires n < |steps| && (rd.Pair? ==> rd.qualifier != "")
    ensures Target(steps, n + 1, rd) ==
            StepEffect(Target(steps, n, rd), steps, n, rd, Default(steps[n], rd.arg), Times(steps[n], rd.arg))
  {
    if rd.Pair? {
      QualifiedTargetGrows(steps, n, rd.qualifier, rd.arg);
    }
  }

  lemma QualifiedTargetGrows(steps: seq<Step>, n: nat, q: string, a: string)
    requires n < |steps| && q != ""
    ensures QualifiedTarget(steps, n + 1, q, a) ==
            StepEffect(QualifiedTarget(steps, n, q, a), steps, n, Pair(q, a), Default(steps[n], a), Times(steps[n], a))
  {
    var ks := Qualified(steps, n, q, a);
    if Answers(steps, n, q, a) && ks != [] {
      assert Answers(steps, ks[0], q, a);
      OneWayToAnswer(steps, ks[0], n, q);
      MoreLabels(steps, ks, n, a);
    }
  }

  /** The table knows everything the first `n` steps say about one key. */
  predicate RightAfter(steps: seq<Step>, n: nat, t: Table, rd: Reading) {
    n <= |steps| && Get(t, KeyOf(rd)) == Target(steps, n, rd)
  }

  lemma RightAfterStep(steps: seq<Step>, n: nat, t: Table, rd: Reading)
    requires WfSteps(steps) && n < |steps| && SpelledOnlyAs(steps, rd) && (rd.Pair? ==> rd.qualifier != "")
    requires RightAfter(steps, n, t, rd)
    ensures RightAfter(steps, n + 1, NextTable(steps, n, t), rd)
  {
    WholeStep(steps, n, t, rd);
    TargetGrows(steps, n, rd);
  }

  /** A key with one reading resolves to its reference target, in every workflow. */
  lemma {:induction false} KeyIsRight(steps: seq<Step>, rd: Reading)
    requires WfSteps(steps) && SpelledOnlyAs(steps, rd) && (rd.Pair? ==> rd.qualifier != "")
    ensures Get(TableOf(steps), KeyOf(rd)) == Target(steps, |steps|, rd)
  {
    var right := (i: nat, t: Table) => RightAfter(steps, i, t, rd);
    forall i: nat, t | i < |steps| && right(i, t) ensures right(i + 1, NextTable(steps, i, t)) {
      RightAfterStep(steps, i, t, rd);
    }
    TableInduction(steps, right);
    assert right(|steps|, TableOf(steps));
  }

  ghost predicate NoKeyHasTwoReadings(steps: seq<Step>) {
    forall rd :: Declared(steps, rd) ==> SpelledOnlyAs(steps, rd)
  }

  /** Every declared reading of every key resolves to its own target. */
  ghost predicate TableRight(steps: seq<Step>) {
    forall rd :: Declared(steps, rd) ==> Get(TableOf(steps), KeyOf(rd)) == Target(steps, |steps|, rd)
  }

  lemma DeclaredHasTarget(steps: seq<Step>, rd: Reading)
    requires Declared(steps, rd)
    ensures Target(steps, |steps|, rd).Some? && Target(steps, |steps|, rd).value.name == rd.arg
  {
    var i: nat :| Reads(steps, i, rd);
    if rd.Plain? {
      DeclaringIsComplete(steps, |steps|, rd.arg);
      assert i in Declaring(steps, |steps|, rd.arg);
    } else {
      QualifiedIsComplete(steps, |steps|, rd.qualifier, rd.arg);
      assert i in Qualified(steps, |steps|, rd.qualifier, rd.arg);
    }
  }

  function QualifierOf(rd: Reading): string {
    if rd.Pair? then rd.qualifier else ""
  }

  lemma SameArgSameReading(rd: Reading, other: Reading)
    requires rd.arg == other.arg && KeyOf(rd) == KeyOf(other)
    ensures rd == other
  {
    DottedDetermines(QualifierOf(rd), rd.arg, QualifierOf(other));
    DottedDetermines(QualifierOf(other), rd.arg, QualifierOf(rd));
  }

  /** One key cannot serve two readings. */
  lemma TwoReadingsClash(steps: seq<Step>, rd: Reading, other: Reading)
    requires Declared(steps, rd) && Declared(steps, other) && KeyOf(rd) == KeyOf(other) && rd != other
    ensures Target(steps, |steps|, rd) != Target(steps, |steps|, other)
  {
    DeclaredHasTarget(steps, rd);
    DeclaredHasTarget(steps, other);
    if rd.arg == other.arg {
      SameArgSameReading(rd, other);
    }
  }

  /** The table is right, for every declared plain and qualified name, if and only if no key has two readings. */
  lemma {:induction false} TableIsRightIff(steps: seq<Step>)
    requires WfSteps(steps)
    ensures TableRight(steps) <==> NoKeyHasTwoReadings(steps)
  {
    if NoKeyHasTwoReadings(steps) {
      forall rd | Declared(steps, rd) ensures Get(TableOf(steps), KeyOf(rd)) == Target(steps, |steps|, rd) {
        KeyIsRight(steps, rd);
      }
    }
    forall rd, other | Declared(steps, rd) && Declared(steps, other) && KeyOf(rd) == KeyOf(other) && rd != other
      ensures !TableRight(steps)
    {
      TwoReadingsClash(steps, rd, other);
    }
  }

  // ---------------------------------------------------------------------
  // What that says of plain names, measures and aliases
  // ---------------------------------------------------------------------

  /** A plain name goes to the lowest step declaring it. */
  lemma {:induction false} PlainKeyTakesFirstStep(steps: seq<Step>, a: string)
    requires WfSteps(steps) && SpelledOnlyAs(steps, Plain(a))
    ensures a in TableOf(steps) <==> exists i :: 0 <= i < |steps| && Default(steps[i], a).Some?
    ensures a in TableOf(steps) ==>
              && TableOf(steps)[a].stepIndex.Some?
              && var i := TableOf(steps)[a].stepIndex.value;
                 i < |steps| && Default(steps[i], a) == Some(TableOf(steps)[a].default)
                 && forall j :: 0 <= j < i ==> Default(steps[j], a).None?
  {
    KeyIsRight(steps, Plain(a));
    DeclaringIsComplete(steps, |steps|, a);
    var ks := Declaring(steps, |steps|, a);
    assert forall i :: 0 <= i < |steps| && Default(steps[i], a).Some? ==> Declares(steps, i, a);
    if ks != [] {
      assert Declares(steps, ks[0], a);
      forall j | 0 <= j < ks[0] ensures Default(steps[j], a).None? {
        assert forall k :: 0 <= k < |ks| ==> ks[0] <= ks[k];
        assert j !in ks;
      }
    }
  }

  /** The first step that declares a plain name gives it its own default, index, measure and name. */
  lemma {:induction false} FirstStepOwnsName(steps: seq<Step>, i: nat, a: string)
    requires WfSteps(steps) && SpelledOnlyAs(steps, Plain(a)) && i < |steps| && Default(steps[i], a).Some?
    requires forall j :: 0 <= j < i ==> Default(steps[j], a).None?
    ensures var s := steps[i];
            var m := if s.dirName != "" then s.dirName else s.name;
            && a in TableOf(steps)
            && TableOf(steps)[a] == Mapped(MeasureArgument, a, Default(s, a).value, Some(i), if m == "" then None else Some(m),
                                           if s.name == "" then None else Some(s.name), [])
  {
    KeyIsRight(steps, Plain(a));
    DeclaringIsComplete(steps, |steps|, a);
    var ks := Declaring(steps, |steps|, a);
    assert Declares(steps, i, a) && i in ks;
    assert Declares(steps, ks[0], a);
  }

  /** The directory of a measure, or else the name of its step, owns the dotted names of its arguments. */
  lemma {:induction false} MeasureOwnsItsKeys(steps: seq<Step>, i: nat, m: string, a: string)
    requires WfSteps(steps) && SpelledOnlyAs(steps, Pair(m, a)) && i < |steps| && Default(steps[i], a).Some?
    requires m != "" && m == if steps[i].dirName != "" then steps[i].dirName else steps[i].name
    requires forall j :: 0 <= j < |steps| && j != i && steps[j].Step? ==> m != if steps[j].dirName != "" then steps[j].dirName else steps[j].name
    ensures var s := steps[i];
            && m + "." + a in TableOf(steps)
            && TableOf(steps)[m + "." + a] == Mapped(MeasureArgument, a, Default(s, a).value, Some(i), Some(m),
                                                     if s.name == "" then None else Some(s.name), [])
  {
    KeyIsRight(steps, Pair(m, a));
    QualifiedIsComplete(steps, |steps|, m, a);
    var ks := Qualified(steps, |steps|, m, a);
    assert Answers(steps, i, m, a) && i in ks;
    forall j: nat | Answers(steps, j, m, a) ensures j == i {
      OneWayToAnswer(steps, i, j, m);
    }
    assert forall k :: 0 <= k < |ks| ==> ks[k] == i;
  }

  ghost predicate SeveralAnswer(steps: seq<Step>, q: string, a: string) {
    exists i, j :: 0 <= i < j && Answers(steps, i, q, a) && Answers(steps, j, q, a)
  }

  lemma SeveralIfTwo(steps: seq<Step>, q: string, a: string)
    ensures |Qualified(steps, |steps|, q, a)| > 1 <==> SeveralAnswer(steps, q, a)
  {
    QualifiedIsComplete(steps, |steps|, q, a);
    var ks := Qualified(steps, |steps|, q, a);
    if |ks| > 1 {
      assert ks[0] < ks[1] && Answers(steps, ks[0], q, a) && Answers(steps, ks[1], q, a);
    }
    forall i, j | 0 <= i < j && Answers(steps, i, q, a) && Answers(steps, j, q, a) ensures |ks| > 1 {
      assert i in ks && j in ks;
    }
  }

  /** Steps that share a qualifier are steps of one measure. */
  lemma SeveralOfOneMeasure(steps: seq<Step>, m: string, a: string)
    requires m != ""
    ensures SeveralAnswer(steps, m, a) <==>
            exists i, j :: 0 <= i < j < |steps| && MeasureName(steps[i]) == m && MeasureName(steps[j]) == m
                           && Declares(steps, i, a) && Declares(steps, j, a)
  {
    if SeveralAnswer(steps, m, a) {
      var i, j :| 0 <= i < j && Answers(steps, i, m, a) && Answers(steps, j, m, a);
      OneWayToAnswer(steps, i, j, m);
    }
    forall i, j | 0 <= i < j < |steps| && MeasureName(steps[i]) == m && MeasureName(steps[j]) == m
                  && Declares(steps, i, a) && Declares(steps, j, a)
      ensures SeveralAnswer(steps, m, a)
    {
      assert Answers(steps, i, m, a) && Answers(steps, j, m, a);
    }
  }

  /** `M.arg` is ambiguous exactly when two steps of the measure declare it; the labels list them in order. */
  lemma {:induction false} AmbiguousIffTwoSteps(steps: seq<Step>, m: string, a: string)
    requires WfSteps(steps) && SpelledOnlyAs(steps, Pair(m, a)) && m != "" && Dotted(m, a) in TableOf(steps)
    ensures var t, ks := TableOf(steps)[Dotted(m, a)], Qualified(steps, |steps|, m, a);
            && (t.ambiguousSteps != [] <==>
                exists i, j :: 0 <= i < j < |steps| && MeasureName(steps[i]) == m && MeasureName(steps[j]) == m
                               && Declares(steps, i, a) && Declares(steps, j, a))
            && (t.ambiguousSteps != [] ==> ks != [] && t.ambiguousSteps == Labels(steps, ks, a))
  {
    KeyIsRight(steps, Pair(m, a));
    SeveralIfTwo(steps, m, a);
    SeveralOfOneMeasure(steps, m, a);
  }

  /** Every step but the first registers the argument once. */
  ghost predicate OnceEach(steps: seq<Step>, ks: seq<nat>, a: string)
    requires forall j :: 0 <= j < |ks| ==> Declares(steps, ks[j], a)
  {
    forall j :: 0 < j < |ks| ==> Declares(steps, ks[j], a) && Times(steps[ks[j]], a) == 1
  }

  /** There is one label per step, or some step is listed twice. */
  lemma {:induction false} OneLabelEachIff(steps: seq<Step>, ks: seq<nat>, a: string)
    requires ks != [] && forall j :: 0 <= j < |ks| ==> Declares(steps, ks[j], a)
    ensures |Labels(steps, ks, a)| >= |ks|
    ensures |Labels(steps, ks, a)| == |ks| <==> OnceEach(steps, ks, a)
  {
    if |ks| > 1 {
      var init, last := ks[..|ks| - 1], ks[|ks| - 1];
      assert Declares(steps, last, a);
      OneLabelEachIff(steps, init, a);
      assert forall j :: 0 <= j < |init| ==> init[j] == ks[j];
    }
  }

  /** The step's `measure.xml` declares `__SKIP__` and its arguments do not list it. */
  predicate DoublySkips(s: Step) {
    s.Step? && SKIP !in s.args && InXml(s, SKIP).Some?
  }

  lemma TwiceIff(s: Step, a: string)
    requires Default(s, a).Some?
    ensures Times(s, a) != 1 <==> a == SKIP && DoublySkips(s)
  {
  }

  lemma OnceEachIff(steps: seq<Step>, ks: seq<nat>, a: string)
    requires forall j :: 0 <= j < |ks| ==> Declares(steps, ks[j], a)
    ensures !OnceEach(steps, ks, a) <==> a == SKIP && exists j :: 0 < j < |ks| && DoublySkips(steps[ks[j]])
  {
    forall j | 0 < j < |ks| ensures Times(steps[ks[j]], a) != 1 <==> a == SKIP && DoublySkips(steps[ks[j]]) {
      assert Declares(steps, ks[j], a);
      TwiceIff(steps[ks[j]], a);
    }
  }

  /** A step is listed twice exactly when the key is a `__SKIP__` that a later step's `measure.xml` declares as well. */
  lemma {:induction false} LabelsRepeatIff(steps: seq<Step>, m: string, a: string)
    requires WfSteps(steps) && SpelledOnlyAs(steps, Pair(m, a)) && m != "" && SeveralAnswer(steps, m, a)
    ensures Dotted(m, a) in TableOf(steps)
    ensures var ks := Qualified(steps, |steps|, m, a);
            |TableOf(steps)[Dotted(m, a)].ambiguousSteps| > |ks| <==>
            a == SKIP && exists j :: 0 < j < |ks| && DoublySkips(steps[ks[j]])
  {
    KeyIsRight(steps, Pair(m, a));
    SeveralIfTwo(steps, m, a);
    var ks := Qualified(steps, |steps|, m, a);
    assert forall j :: 0 <= j < |ks| ==> Answers(steps, ks[j], m, a);
    OneLabelEachIff(steps, ks, a);
    OnceEachIff(steps, ks, a);
  }

  lemma AliasAnswersAlone(steps: seq<Step>, i: nat, n: string, a: string)
    requires i < |steps| && SoleAlias(steps, i, n) && n != ""
    ensures Qualified(steps, |steps|, n, a) == if Declares(steps, i, a) then [i] else []
  {
    QualifiedIsComplete(steps, |steps|, n, a);
    var ks := Qualified(steps, |steps|, n, a);
    assert |ks| > 1 ==> ks[0] < ks[1];
    forall j: nat | Answers(steps, j, n, a) ensures j == i {
      OneWayToAnswer(steps, i, j, n);
      assert steps[i].Step? ==> MeasureName(steps[i]) in Canonical(steps);
    }
    assert Declares(steps, i, a) ==> Answers(steps, i, n, a);
  }

  /** An alias names one step, and a measure name is never read as an alias. */
  lemma {:induction false} AliasNamesOneStep(steps: seq<Step>, i: nat, n: string, a: string)
    requires WfSteps(steps) && i < |steps| && SoleAlias(steps, i, n) && n != "" && SpelledOnlyAs(steps, Pair(n, a))
    ensures Get(TableOf(steps), Dotted(n, a)) ==
            if Default(steps[i], a).Some? then Some(ParamOf(steps, i, a)) else None
  {
    KeyIsRight(steps, Pair(n, a));
    AliasAnswersAlone(steps, i, n, a);
  }

  // ---------------------------------------------------------------------
  // Workflows that are right, and workflows that are not
  // ---------------------------------------------------------------------

  predicate DotFree(s: string) {
    '.' !in s
  }

  ghost predicate DotFreeStep(s: Step) {
    s.Step? ==>
      && DotFree(s.dirName) && DotFree(s.name)
      && (forall a :: a in s.args ==> DotFree(a))
      && (s.xml.Some? ==>
            && (forall x :: x in s.xml.value.args ==> DotFree(x.name))
            && (forall n :: n in s.xml.value.aliases ==> DotFree(n)))
  }

  ghost predicate DotFreeSteps(steps: seq<Step>) {
    forall i :: 0 <= i < |steps| ==> DotFreeStep(steps[i])
  }

  lemma DeclaredArgIsDotFree(s: Step, a: string)
    requires DotFreeStep(s) && Default(s, a).Some?
    ensures DotFree(a)
  {
    if a !in s.args && InXml(s, a).Some? {
      XmlNameIn(s.xml.value.args, a);
      var i :| 0 <= i < |s.xml.value.args| && s.xml.value.args[i].name == a;
      assert s.xml.value.args[i] in s.xml.value.args;
    }
    assert DotFree(SKIP);
  }

  lemma QualifierIsDotFree(steps: seq<Step>, i: nat, q: string)
    requires DotFreeSteps(steps) && i < |steps| && AnswersTo(steps, i, q)
    ensures DotFree(q)
  {
    var s := steps[i];
    assert DotFreeStep(s);
    if MeasureName(s) != q {
      DedupKeepsMembers((if s.name != "" then [s.name] else []) + (if s.xml.Some? then s.xml.value.aliases else []), q);
    }
  }

  lemma DotFreeReading(steps: seq<Step>, rd: Reading)
    requires DotFreeSteps(steps) && Declared(steps, rd)
    ensures DotFree(rd.arg) && (rd.Pair? ==> DotFree(rd.qualifier))
  {
    var i: nat :| Reads(steps, i, rd);
    assert DotFreeStep(steps[i]);
    DeclaredArgIsDotFree(steps[i], rd.arg);
    if rd.Pair? {
      QualifierIsDotFree(steps, i, rd.qualifier);
    }
  }

  lemma SplitsOneWay(rd: Reading, other: Reading)
    requires DotFree(rd.arg) && DotFree(other.arg) && (rd.Pair? ==> DotFree(rd.qualifier)) && (other.Pair? ==> DotFree(other.qualifier))
    requires KeyOf(rd) == KeyOf(other)
    ensures rd == other
  {
    if rd.Pair? {
      assert KeyOf(rd)[|rd.qualifier|] == '.';
    }
    if other.Pair? {
      assert KeyOf(other)[|other.qualifier|] == '.';
    }
    if rd.Pair? && other.Pair? {
      assert rd.qualifier + ['.'] + rd.arg == other.qualifier + ['.'] + other.arg;
      Text.SplitUnique('.', rd.qualifier, rd.arg, other.qualifier, other.arg);
    }
  }

  /** Without dots in names the table is right. */
  lemma {:induction false} DotFreeIsRight(steps: seq<Step>)
    requires WfSteps(steps) && DotFreeSteps(steps)
    ensures TableRight(steps)
  {
    forall rd, other | Declared(steps, rd) && Declared(steps, other) && KeyOf(rd) == KeyOf(other) ensures rd == other {
      DotFreeReading(steps, rd);
      DotFreeReading(steps, other);
      SplitsOneWay(rd, other);
    }
    TableIsRightIff(steps);
  }

  /** A measure `p.q` with argument `a` and a measure `p` with argument `q.a` share a key: one of them resolves to the other. */
  lemma {:induction false} DotsMergeMeasures(steps: seq<Step>, i: nat, j: nat, p: string, q: string, a: string)
    requires WfSteps(steps) && i < |steps| && j < |steps| && p != ""
    requires MeasureName(steps[i]) == Dotted(p, q) && Declares(steps, i, a)
    requires MeasureName(steps[j]) == p && Declares(steps, j, Dotted(q, a))
    ensures Dotted(Dotted(p, q), a) == Dotted(p, Dotted(q, a))
    ensures !TableRight(steps)
  {
    var rd, other := Pair(Dotted(p, q), a), Pair(p, Dotted(q, a));
    assert Dotted(Dotted(p, q), a) == p + "." + q + "." + a == Dotted(p, Dotted(q, a));
    assert Reads(steps, i, rd) && Reads(steps, j, other);
    DottedDetermines(q, a, q);
    TwoReadingsClash(steps, rd, other);
  }

  /** Such a workflow, for all names: two steps with one argument each. */
  lemma {:induction false} DottedWorkflowIsWrong(p: string, q: string, a: string)
    requires p != ""
    ensures var steps := [Step(Dotted(p, q), "", [a], map[a := Null], None),
                          Step(p, "", [Dotted(q, a)], map[Dotted(q, a) := Null], None)];
            WfSteps(steps) && !TableRight(steps)
  {
    var steps := [Step(Dotted(p, q), "", [a], map[a := Null], None),
                  Step(p, "", [Dotted(q, a)], map[Dotted(q, a) := Null], None)];
    assert Dotted(p, q) != "";
    assert (set n | n in [a]) == {a} && (set n | n in [Dotted(q, a)]) == {Dotted(q, a)};
    assert WfStep(steps[0]) && WfStep(steps[1]);
    DotsMergeMeasures(steps, 0, 1, p, q, a);
  }

  lemma TwoStepsAnswer(steps: seq<Step>, m: string, a: string)
    requires |steps| == 2 && m != "" && steps[0].Step? && steps[1].Step?
    requires MeasureName(steps[0]) == m == MeasureName(steps[1]) && Declares(steps, 0, a) && Declares(steps, 1, a)
    ensures Qualified(steps, 2, m, a) == [0, 1]
    ensures Labels(steps, [0, 1], a) == [LabelOf(steps, 0, a)] + Repeat(LabelOf(steps, 1, a), Times(steps[1], a))
  {
    assert Qualified(steps, 0, m, a) == [];
    assert Answers(steps, 0, m, a) && Answers(steps, 1, m, a);
    assert Qualified(steps, 1, m, a) == [0];
    assert [0, 1][..1] == [0];
  }

  lemma DotFreeKeyIsRight(steps: seq<Step>, rd: Reading)
    requires WfSteps(steps) && DotFreeSteps(steps) && Declared(steps, rd)
    ensures Get(TableOf(steps), KeyOf(rd)) == Target(steps, |steps|, rd)
  {
    DotFreeIsRight(steps);
  }

  /** A step of measure `m` named `n` with the one argument `a`. */
  function NamedStep(m: string, n: string, a: string, v: Value): Step {
    Step(m, n, [a], map[a := v], None)
  }

  lemma NamedStepsAre(m: string, n1: string, n2: string, a: string, v1: Value, v2: Value)
    requires DotFree(m) && DotFree(n1) && DotFree(n2) && DotFree(a)
    ensures var steps := [NamedStep(m, n1, a, v1), NamedStep(m, n2, a, v2)];
            && WfSteps(steps) && DotFreeSteps(steps) && Declares(steps, 0, a) && Declares(steps, 1, a)
  {
    assert (set k | k in [a]) == {a};
  }

  lemma PlainOfFirst(steps: seq<Step>, a: string)
    requires WfSteps(steps) && DotFreeSteps(steps) && Declares(steps, 0, a)
    ensures Get(TableOf(steps), a) == Some(ParamOf(steps, 0, a))
  {
    assert Reads(steps, 0, Plain(a));
    DotFreeKeyIsRight(steps, Plain(a));
    DeclaringIsComplete(steps, |steps|, a);
  }

  lemma DottedOfTwo(steps: seq<Step>, m: string, a: string)
    requires |steps| == 2 && m != "" && steps[0].Step? && steps[1].Step?
    requires MeasureName(steps[0]) == m == MeasureName(steps[1]) && Declares(steps, 0, a) && Declares(steps, 1, a)
    ensures QualifiedTarget(steps, 2, m, a) ==
            Some(ParamOf(steps, 0, a).(ambiguousSteps := [LabelOf(steps, 0, a)] + Repeat(LabelOf(steps, 1, a), Times(steps[1], a))))
  {
    TwoStepsAnswer(steps, m, a);
  }

  lemma TwoStepTarget(steps: seq<Step>, m: string, a: string)
    requires WfSteps(steps) && DotFreeSteps(steps) && |steps| == 2 && m != "" && steps[0].Step? && steps[1].Step?
    requires MeasureName(steps[0]) == m == MeasureName(steps[1]) && Declares(steps, 0, a) && Declares(steps, 1, a)
    ensures Get(TableOf(steps), m + "." + a) ==
            Some(ParamOf(steps, 0, a).(ambiguousSteps := [LabelOf(steps, 0, a)] + Repeat(LabelOf(steps, 1, a), Times(steps[1], a))))
  {
    assert Reads(steps, 0, Pair(m, a));
    DotFreeKeyIsRight(steps, Pair(m, a));
    DottedOfTwo(steps, m, a);
  }

  lemma AliasTarget(steps: seq<Step>, i: nat, n: string, a: string)
    requires WfSteps(steps) && DotFreeSteps(steps) && Declares(steps, i, a) && SoleAlias(steps, i, n) && n != ""
    ensures Get(TableOf(steps), Dotted(n, a)) == Some(ParamOf(steps, i, a))
  {
    assert Reads(steps, i, Pair(n, a));
    DotFreeKeyIsRight(steps, Pair(n, a));
    AliasAnswersAlone(steps, i, n, a);
  }

  lemma StepNameIsSole(steps: seq<Step>, i: nat, m: string, n: string)
    requires |steps| == 2 && i < 2 && steps[0].Step? && steps[1].Step? && steps[0].dirName == m == steps[1].dirName != ""
    requires steps[1 - i].xml.None? && n != "" && n != m && steps[i].name == n && steps[1 - i].name != n
    ensures SoleAlias(steps, i, n)
  {
    RawAliasesAre(steps[i], n);
    RawAliasesAre(steps[1 - i], n);
    assert MeasureName(steps[0]) == m && MeasureName(steps[1]) == m;
    assert n !in Canonical(steps);
    forall j | 0 <= j < |steps| && j != i ensures n !in RawAliases(steps[j]) {
      assert j == 1 - i;
    }
  }

  lemma DottedOfNamed(m: string, n1: string, n2: string, a: string, v1: Value, v2: Value)
    requires m != "" && n1 != "" && n2 != "" && DotFree(m) && DotFree(n1) && DotFree(n2) && DotFree(a)
    ensures Get(TableOf([NamedStep(m, n1, a, v1), NamedStep(m, n2, a, v2)]), m + "." + a) ==
            Some(Mapped(MeasureArgument, a, v1, Some(0), Some(m), Some(n1), [n1, n2]))
  {
    var steps := [NamedStep(m, n1, a, v1), NamedStep(m, n2, a, v2)];
    NamedStepsAre(m, n1, n2, a, v1, v2);
    TwoStepTarget(steps, m, a);
    assert ParamOf(steps, 0, a) == Mapped(MeasureArgument, a, v1, Some(0), Some(m), Some(n1), []);
    assert LabelOf(steps, 0, a) == n1 && LabelOf(steps, 1, a) == n2 && Times(steps[1], a) == 1;
    assert [n1] + Repeat(n2, 1) == [n1, n2];
  }

  lemma AliasOfNamed(steps: seq<Step>, i: nat, m: string, n: string, a: string, v: Value)
    requires WfSteps(steps) && DotFreeSteps(steps) && |steps| == 2 && i < 2
    requires steps[i] == NamedStep(m, n, a, v) && m != "" && n != "" && m != n && Declares(steps, i, a)
    requires steps[1 - i].Step? && steps[1 - i].dirName == m && steps[1 - i].name != n && steps[1 - i].xml.None?
    ensures Get(TableOf(steps), n + "." + a) == Some(Mapped(MeasureArgument, a, v, Some(i), Some(m), Some(n), []))
  {
    StepNameIsSole(steps, i, m, n);
    AliasTarget(steps, i, n, a);
  }

  /** Two named steps of one measure: the plain name goes to the first, the dotted one lists both, each alias is its own. */
  lemma {:induction false} RepeatedMeasure(m: string, n1: string, n2: string, a: string, v1: Value, v2: Value)
    requires m != "" && n1 != "" && n2 != "" && m != n1 && m != n2 && n1 != n2
    requires DotFree(m) && DotFree(n1) && DotFree(n2) && DotFree(a)
    ensures var t := TableOf([NamedStep(m, n1, a, v1), NamedStep(m, n2, a, v2)]);
            && Get(t, a) == Some(Mapped(MeasureArgument, a, v1, Some(0), Some(m), Some(n1), []))
            && Get(t, m + "." + a) == Some(Mapped(MeasureArgument, a, v1, Some(0), Some(m), Some(n1), [n1, n2]))
            && Get(t, n1 + "." + a) == Some(Mapped(MeasureArgument, a, v1, Some(0), Some(m), Some(n1), []))
            && Get(t, n2 + "." + a) == Some(Mapped(MeasureArgument, a, v2, Some(1), Some(m), Some(n2), []))
  {
    var steps := [NamedStep(m, n1, a, v1), NamedStep(m, n2, a, v2)];
    NamedStepsAre(m, n1, n2, a, v1, v2);
    PlainOfFirst(steps, a);
    DottedOfNamed(m, n1, n2, a, v1, v2);
    AliasOfNamed(steps, 0, m, n1, a, v1);
    AliasOfNamed(steps, 1, m, n2, a, v2);
  }

  /** A step of measure `m`, unnamed and without arguments, whose `measure.xml` declares `__SKIP__`. */
  function SkipStep(m: string, default: Value): Step {
    Step(m, "", [], map[], Some(Xml([XmlArg("__SKIP__", "Boolean", default)], [])))
  }

  lemma SkipStepIs(m: string, default: Value)
    requires m != "" && DotFree(m)
    ensures var s := SkipStep(m, default);
            WfStep(s) && DotFreeStep(s) && Default(s, SKIP) == Some(default) && Times(s, SKIP) == 2
  {
    assert (set n: string | n in []) == {};
    assert DotFree(SKIP);
    XmlDefaultIs([XmlArg("__SKIP__", "Boolean", default)], 0);
  }

  lemma UnnamedLabels(steps: seq<Step>, a: string)
    requires Declares(steps, 0, a) && Declares(steps, 1, a) && steps[0].name == "" && steps[1].name == ""
    ensures [LabelOf(steps, 0, a)] + Repeat(LabelOf(steps, 1, a), 2) == ["step[0]", "step[1]", "step[1]"]
  {
    assert Text.Decimal(0) == "0" && Text.Decimal(1) == "1";
    assert "step[" + "0" + "]" == "step[0]" && "step[" + "1" + "]" == "step[1]";
  }

  /** Two unnamed steps of a measure whose `measure.xml` declares `__SKIP__`: three labels, the second step's twice. */
  lemma {:induction false} SkipIsListedTwice(m: string, default: Value)
    requires m != "" && DotFree(m)
    ensures var s := SkipStep(m, default);
            && WfSteps([s, s])
            && Get(TableOf([s, s]), m + "." + "__SKIP__") ==
               Some(Mapped(MeasureArgument, "__SKIP__", default, Some(0), Some(m), None, ["step[0]", "step[1]", "step[1]"]))
  {
    var s := SkipStep(m, default);
    var steps := [s, s];
    SkipStepIs(m, default);
    TwoStepTarget(steps, m, SKIP);
    UnnamedLabels(steps, SKIP);
  }
}
