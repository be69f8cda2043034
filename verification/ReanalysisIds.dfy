/**
 Which tables of data points are safe from a reanalysis that replaces a point
 (osimflow/data_point_manager.py): the exact condition over all runs in which nothing is
 unregistered and no client imitates a reanalysis id.
 */
module ReanalysisIds {
  import opened Wrappers
  import opened DataPoints
  import Text

  /** Every operation is disciplined and succeeds. */
  ghost predicate CleanRun(ps: Points, ops: seq<Op>) {
    forall i :: 0 <= i < |ops| ==> Disciplined(Fold(ps, ops[..i]), ops[i]) && Apply(Fold(ps, ops[..i]), ops[i]).Ok?
  }

  ghost predicate Reach(ps: Points, qs: Points) {
    exists ops :: CleanRun(ps, ops) && Fold(ps, ops) == qs
  }

  /** The next reanalysis of `id` would replace a point. */
  ghost predicate Overwrites(qs: Points, id: string) {
    id in qs && (qs[id].status.Completed? || qs[id].status.Failed?) && ReanalyzeId(id, qs[id].reanalyzeCount + 1) in qs
  }

  /** Some clean run gets there. */
  ghost predicate CanOverwrite(ps: Points) {
    exists qs, id :: Reach(ps, qs) && Overwrites(qs, id)
  }

  /** A clean run can bring the id into the table: it is there, or is no reanalysis id, or its parent can still hand it out. */
  ghost predicate Obtainable(ps: Points, x: string)
    decreases |x|
  {
    x in ps || forall y, m: nat :: |y| < |x| && LooksReanalyzed(x, y, m) ==>
                                     Obtainable(ps, y) && (y in ps ==> m > ps[y].reanalyzeCount)
  }

  /** The id is in the table already, and its parent has yet to hand it out. */
  ghost predicate Clashes(ps: Points, x: string, n: nat) {
    n >= 1 && ReanalyzeId(x, n) in ps && Obtainable(ps, x) && (x in ps ==> n > ps[x].reanalyzeCount)
  }

  ghost predicate Clashing(ps: Points) {
    exists x, n: nat :: Clashes(ps, x, n)
  }

  // ---------------------------------------------------------------------
  // Runs
  // ---------------------------------------------------------------------

  lemma ReachSelf(ps: Points)
    ensures Reach(ps, ps)
  {
    assert CleanRun(ps, []) && Fold(ps, []) == ps;
  }

  lemma ReachStep(ps: Points, qs: Points, op: Op)
    requires Reach(ps, qs) && Disciplined(qs, op) && Apply(qs, op).Ok?
    ensures Reach(ps, Apply(qs, op).value)
  {
    var ops :| CleanRun(ps, ops) && Fold(ps, ops) == qs;
    var more := ops + [op];
    assert more[..|ops|] == ops;
    forall i | 0 <= i < |more| ensures Disciplined(Fold(ps, more[..i]), more[i]) && Apply(Fold(ps, more[..i]), more[i]).Ok? {
      if i < |ops| {
        assert more[..i] == ops[..i];
      }
    }
    assert CleanRun(ps, more);
  }

  // ---------------------------------------------------------------------
  // A table without a clash stays without one
  // ---------------------------------------------------------------------

  /** Ids that appear are the client's, which imitate nothing, or the one a reanalysis hands out. */
  lemma KeptOrNew(ps: Points, op: Op, k: string)
    requires Disciplined(ps, op) && Apply(ps, op).Ok?
    ensures var qs := Apply(ps, op).value;
            && (k in ps ==> k in qs)
            && (k in qs && k !in ps ==>
                  || (forall y, m: nat :: !LooksReanalyzed(k, y, m))
                  || (op.MarkForReanalysis? && op.id in ps && k == ReanalyzeId(op.id, ps[op.id].reanalyzeCount + 1)))
  {
    var qs := Apply(ps, op).value;
    if k in qs && k !in ps && !op.MarkForReanalysis? {
      assert k in ClientIds(op);
    }
  }

  lemma NextIdIsFree(ps: Points, id: string)
    requires !Clashing(ps) && id in ps
    ensures ReanalyzeId(id, ps[id].reanalyzeCount + 1) !in ps
  {
    assert !Clashes(ps, id, ps[id].reanalyzeCount + 1);
  }

  lemma CountersGrow(ps: Points, op: Op, k: string)
    requires !Clashing(ps) && Disciplined(ps, op) && Apply(ps, op).Ok? && k in ps
    ensures var qs := Apply(ps, op).value;
            k in qs && ps[k].reanalyzeCount <= qs[k].reanalyzeCount
            && (op.MarkForReanalysis? && op.id == k ==> qs[k].reanalyzeCount == ps[k].reanalyzeCount + 1)
  {
    if op.MarkForReanalysis? {
      NextIdIsFree(ps, op.id);
    }
  }

  /** No operation makes an id obtainable. */
  lemma {:induction false} ObtainableBefore(ps: Points, op: Op, x: string)
    requires !Clashing(ps) && Disciplined(ps, op) && Apply(ps, op).Ok?
    requires Obtainable(Apply(ps, op).value, x)
    ensures Obtainable(ps, x)
    decreases |x|
  {
    var qs := Apply(ps, op).value;
    KeptOrNew(ps, op, x);
    if x !in ps {
      forall y, m: nat | |y| < |x| && LooksReanalyzed(x, y, m)
        ensures Obtainable(ps, y) && (y in ps ==> m > ps[y].reanalyzeCount)
      {
        if x in qs {
          ReanalyzeIdInjective(y, m, op.id, ps[op.id].reanalyzeCount + 1);
        } else {
          ObtainableBefore(ps, op, y);
          if y in ps {
            CountersGrow(ps, op, y);
          }
        }
      }
    }
  }

  lemma {:induction false} StaysClashFree(ps: Points, op: Op)
    requires !Clashing(ps) && Disciplined(ps, op) && Apply(ps, op).Ok?
    ensures !Clashing(Apply(ps, op).value)
  {
    var qs := Apply(ps, op).value;
    forall x, n: nat ensures !Clashes(qs, x, n) {
      var id := ReanalyzeId(x, n);
      if n >= 1 && id in qs && Obtainable(qs, x) {
        KeptOrNew(ps, op, id);
        ObtainableBefore(ps, op, x);
        assert LooksReanalyzed(id, x, n) && !Clashes(ps, x, n);
        if id !in ps {
          ReanalyzeIdInjective(x, n, op.id, ps[op.id].reanalyzeCount + 1);
        }
        CountersGrow(ps, op, x);
      }
    }
  }

  lemma {:induction false} RunStaysClashFree(ps: Points, ops: seq<Op>)
    requires !Clashing(ps) && CleanRun(ps, ops)
    ensures !Clashing(Fold(ps, ops))
  {
    if ops != [] {
      var init := ops[..|ops| - 1];
      forall i | 0 <= i < |init| ensures Disciplined(Fold(ps, init[..i]), init[i]) && Apply(Fold(ps, init[..i]), init[i]).Ok? {
        assert init[..i] == ops[..i];
      }
      RunStaysClashFree(ps, init);
      StaysClashFree(Fold(ps, init), ops[|ops| - 1]);
    }
  }

  // ---------------------------------------------------------------------
  // A clash can be driven to an overwrite
  // ---------------------------------------------------------------------

  /** Reachable, with the same ids and some more, none longer than `limit`. */
  ghost predicate Grown(ps: Points, qs: Points, limit: nat) {
    Reach(ps, qs) && ps.Keys <= qs.Keys && forall k :: k in qs && k !in ps ==> |k| <= limit
  }

  lemma {:induction false} DecimalGrows(m: nat, n: nat)
    requires m <= n
    ensures |Text.Decimal(m)| <= |Text.Decimal(n)|
  {
    if m >= 10 {
      DecimalGrows(m / 10, n / 10);
    }
  }

  lemma IdGrows(x: string, m: nat, n: nat)
    requires m <= n
    ensures |ReanalyzeId(x, m)| <= |ReanalyzeId(x, n)| && |x| < |ReanalyzeId(x, n)|
  {
    DecimalGrows(m, n);
  }

  /** The two operations that reanalyse `y`. */
  lemma CompleteThenMark(qs: Points, y: string)
    requires y in qs
    ensures var newId := ReanalyzeId(y, qs[y].reanalyzeCount + 1);
            var done := Apply(qs, UpdateStatus(y, Completed, "", 0.0));
            && done.Ok? && done.value.Keys == qs.Keys && done.value[y].status.Completed?
            && done.value[y].reanalyzeCount == qs[y].reanalyzeCount
            && var marked := Apply(done.value, MarkForReanalysis(y, 0.0));
               && marked.Ok? && marked.value.Keys == qs.Keys + {newId}
               && marked.value[y].reanalyzeCount == qs[y].reanalyzeCount + 1 && marked.value[newId].reanalyzeCount == 0
  {
    assert |ReanalyzeId(y, qs[y].reanalyzeCount + 1)| > |y|;
  }

  lemma ReachMarked(ps: Points, qs: Points, y: string) returns (us: Points, rs: Points)
    requires Reach(ps, qs) && y in qs
    ensures Reach(ps, us) && us.Keys == qs.Keys && us[y].status.Completed? && us[y].reanalyzeCount == qs[y].reanalyzeCount
    ensures var newId := ReanalyzeId(y, qs[y].reanalyzeCount + 1);
            && Reach(ps, rs) && rs.Keys == qs.Keys + {newId}
            && rs[y].reanalyzeCount == qs[y].reanalyzeCount + 1 && rs[newId].reanalyzeCount == 0
  {
    CompleteThenMark(qs, y);
    ReachStep(ps, qs, UpdateStatus(y, Completed, "", 0.0));
    us := Apply(qs, UpdateStatus(y, Completed, "", 0.0)).value;
    ReachStep(ps, us, MarkForReanalysis(y, 0.0));
    rs := Apply(us, MarkForReanalysis(y, 0.0)).value;
  }

  /** One more reanalysis of `y`. */
  lemma Reanalyze(ps: Points, qs: Points, y: string, limit: nat) returns (rs: Points)
    requires Grown(ps, qs, limit) && y in qs
    requires |ReanalyzeId(y, qs[y].reanalyzeCount + 1)| <= limit
    ensures !CanOverwrite(ps) ==>
              var newId := ReanalyzeId(y, qs[y].reanalyzeCount + 1);
              && newId !in qs && Grown(ps, rs, limit) && rs.Keys == qs.Keys + {newId}
              && rs[y].reanalyzeCount == qs[y].reanalyzeCount + 1 && rs[newId].reanalyzeCount == 0
  {
    var us;
    us, rs := ReachMarked(ps, qs, y);
    var newId := ReanalyzeId(y, qs[y].reanalyzeCount + 1);
    if newId in qs {
      OverwriteSeen(ps, us, y);
    } else {
      GrownByOne(ps, qs, rs, newId, limit);
    }
  }

  lemma OverwriteSeen(ps: Points, us: Points, y: string)
    requires Reach(ps, us) && y in us && us[y].status.Completed? && ReanalyzeId(y, us[y].reanalyzeCount + 1) in us
    ensures CanOverwrite(ps)
  {
    assert Overwrites(us, y);
  }

  lemma GrownByOne(ps: Points, qs: Points, rs: Points, newId: string, limit: nat)
    requires Grown(ps, qs, limit) && Reach(ps, rs) && rs.Keys == qs.Keys + {newId} && |newId| <= limit
    ensures Grown(ps, rs, limit)
  {
  }

  /** Reanalyses of `y` up to the m-th. */
  lemma {:induction false} Raise(ps: Points, qs: Points, y: string, m: nat, limit: nat) returns (rs: Points)
    requires Grown(ps, qs, limit) && y in qs && qs[y].reanalyzeCount < m && |ReanalyzeId(y, m)| <= limit
    ensures !CanOverwrite(ps) ==>
              && ReanalyzeId(y, m) !in qs && Grown(ps, rs, limit)
              && ReanalyzeId(y, m) in rs && rs[ReanalyzeId(y, m)].reanalyzeCount == 0
    decreases m - qs[y].reanalyzeCount
  {
    var next := qs[y].reanalyzeCount + 1;
    IdGrows(y, next, m);
    rs := Reanalyze(ps, qs, y, limit);
    if !CanOverwrite(ps) && next < m {
      rs := Raise(ps, rs, y, m, limit);
    }
  }

  /** An obtainable id can be brought into the table, its counter untouched. */
  lemma {:induction false} Obtain(ps: Points, x: string) returns (qs: Points)
    requires Obtainable(ps, x)
    ensures !CanOverwrite(ps) ==>
              && Grown(ps, qs, |x|) && x in qs
              && qs[x].reanalyzeCount == if x in ps then ps[x].reanalyzeCount else 0
    decreases |x|
  {
    qs := ps;
    ReachSelf(ps);
    if x !in ps {
      if y, m: nat :| LooksReanalyzed(x, y, m) {
        IdGrows(y, m, m);
        var us := Obtain(ps, y);
        if !CanOverwrite(ps) {
          qs := Raise(ps, us, y, m, |x|);
        }
      } else {
        var op := Register(x, None, 0, 0.0);
        ReachStep(ps, ps, op);
        qs := Apply(ps, op).value;
      }
    }
  }

  lemma {:induction false} ClashOverwrites(ps: Points, x: string, n: nat)
    requires Clashes(ps, x, n)
    ensures CanOverwrite(ps)
  {
    var id := ReanalyzeId(x, n);
    IdGrows(x, n, n);
    var qs := Obtain(ps, x);
    if !CanOverwrite(ps) {
      var rs := Raise(ps, qs, x, n, |id|);
    }
  }

  /**
   Some run without unregistering and without imitated ids lets a reanalysis replace a point if
   and only if the table holds an id that its parent can still hand out.
   */
  lemma {:induction false} OverwritableIffClashing(ps: Points)
    ensures CanOverwrite(ps) <==> Clashing(ps)
  {
    if Clashing(ps) {
      var x, n: nat :| Clashes(ps, x, n);
      ClashOverwrites(ps, x, n);
    }
    forall qs, id | !Clashing(ps) && Reach(ps, qs) ensures !Overwrites(qs, id) {
      var ops :| CleanRun(ps, ops) && Fold(ps, ops) == qs;
      RunStaysClashFree(ps, ops);
      if id in qs {
        NextIdIsFree(qs, id);
      }
    }
  }

  lemma CountedIsClashFree(ps: Points)
    requires Counted(ps)
    ensures !Clashing(ps)
  {
  }

  /** While the counters cover the ids, no such run replaces a point. */
  lemma {:induction false} CountedNeverOverwrites(ps: Points)
    requires Counted(ps)
    ensures !CanOverwrite(ps)
  {
    CountedIsClashFree(ps);
    OverwritableIffClashing(ps);
  }
}
