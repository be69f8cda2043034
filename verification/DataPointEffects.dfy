/**
 What each data-point operation leaves in the state file, field by field, and what that comes to
 over whole runs (osimflow/data_point_manager.py).
 */
module DataPointEffects {
  import opened Wrappers
  import opened DataPoints
  import Text

  /** Only the points named in `ids` differ, and no point is lost. */
  ghost predicate OnlyTouches(ps: Points, qs: Points, ids: set<string>) {
    && (forall k :: k in ps ==> k in qs)
    && (forall k :: k in qs ==> k in ps || k in ids)
    && (forall k :: k in ps && k !in ids ==> qs[k] == ps[k])
  }

  /** A known point as it stands, an unknown one as an automatic registration starts it. */
  function Before(ps: Points, id: string, now: real): DataPoint {
    if id in ps then ps[id] else DataPoint(id, Pending, 0, None, now, now, None, None, None, [], 0, None, None, None)
  }

  // ---------------------------------------------------------------------
  // One operation
  // ---------------------------------------------------------------------

  /** The given status and time, the completion time of a final status, the error text if there is one; nothing else. */
  lemma {:induction false} StatusEffect(ps: Points, id: string, status: Status, error: string, now: real)
    ensures var r, dp := Apply(ps, UpdateStatus(id, status, error, now)), Before(ps, id, now);
            && r.Ok? && OnlyTouches(ps, r.value, {id}) && id in r.value
            && r.value[id] == DataPoint(
                 dp.sampleId, status, dp.priority, dp.workDir, dp.createdAt, now,
                 if status in {Completed, Failed, Cancelled} then Some(now) else dp.completedAt,
                 if error == "" then dp.errorSummary else Some(error),
                 dp.mergedInto, dp.mergedFrom, dp.reanalyzeCount, dp.originalSampleId, dp.seedModel, dp.weatherFile)
  {
  }

  /** A new point is pending with the given priority and directory; a known one takes the priority, and a directory if one is given. */
  lemma {:induction false} RegisterEffect(ps: Points, id: string, workDir: Option<string>, prio: int, now: real)
    ensures var r, dp := Apply(ps, Register(id, workDir, prio, now)), Before(ps, id, now);
            && r.Ok? && OnlyTouches(ps, r.value, {id}) && id in r.value
            && r.value[id] == DataPoint(
                 dp.sampleId, dp.status, prio, if workDir == None then dp.workDir else workDir, dp.createdAt, now,
                 dp.completedAt, dp.errorSummary, dp.mergedInto, dp.mergedFrom, dp.reanalyzeCount, dp.originalSampleId,
                 dp.seedModel, dp.weatherFile)
  {
  }

  /** A seed model or a weather file is the only field its operation sets besides the time. */
  lemma {:induction false} FileEffect(ps: Points, id: string, path: string, now: real)
    ensures var r, dp := Apply(ps, WithSeedModel(id, path, now)), Before(ps, id, now);
            r.Ok? && OnlyTouches(ps, r.value, {id}) && id in r.value && r.value[id] == dp.(seedModel := Some(path), updatedAt := now)
    ensures var r, dp := Apply(ps, WithWeatherFile(id, path, now)), Before(ps, id, now);
            r.Ok? && OnlyTouches(ps, r.value, {id}) && id in r.value && r.value[id] == dp.(weatherFile := Some(path), updatedAt := now)
  {
  }

  /** The priority and the time of a known point; an unknown one is an error. */
  lemma {:induction false} PriorityEffect(ps: Points, id: string, prio: int, now: real)
    ensures var r := Apply(ps, SetPriority(id, prio, now));
            if id !in ps then r == Err(KeyError(id))
            else r.Ok? && OnlyTouches(ps, r.value, {id}) && r.value[id] == ps[id].(priority := prio, updatedAt := now)
  {
  }

  /** Exactly the pending points that are listed take their new priority. */
  lemma {:induction false} ReorderEffect(ps: Points, priorities: map<string, int>, now: real)
    ensures var r := Apply(ps, ReorderPending(priorities, now));
            && r.Ok? && r.value.Keys == ps.Keys
            && forall k :: k in ps ==>
                 r.value[k] == if ps[k].status == Pending && k in priorities then ps[k].(priority := priorities[k], updatedAt := now) else ps[k]
  {
  }

  /** Both ends of a merge: the sources point at the target, the target lists the sources, all are merged. */
  lemma {:induction false} MergeEffect(ps: Points, sources: seq<string>, target: string, workDir: string, now: real)
    requires sources != [] && forall s :: s in sources ==> s in ps
    ensures var r := Apply(ps, Merge(sources, target, workDir, now));
            && r.Ok? && OnlyTouches(ps, r.value, (set s | s in sources) + {target}) && target in r.value
            && r.value[target].status == Merged && r.value[target].mergedFrom == sources && r.value[target].updatedAt == now
            && (target !in ps ==>
                  r.value[target] == DataPoint(target, Merged, 0, Some(workDir), now, now, None, None, None, sources, 0, None, None, None))
            && (target in ps ==>
                  r.value[target] == ps[target].(status := Merged, mergedFrom := sources, updatedAt := now,
                                                 mergedInto := if target in sources then Some(target) else ps[target].mergedInto))
            && forall s :: s in sources && s != target ==>
                 s in r.value && r.value[s] == ps[s].(status := Merged, mergedInto := Some(target), updatedAt := now)
  {
  }

  /** A merge of nothing, or of an unknown point, is an error; the unknown point named is the first. */
  lemma {:induction false} MergeErrors(ps: Points, sources: seq<string>, target: string, workDir: string, now: real, i: nat)
    ensures Apply(ps, Merge([], target, workDir, now)) == Err(ValueError)
    ensures i < |sources| && sources[i] !in ps && (forall s :: s in sources[..i] ==> s in ps) ==>
              Apply(ps, Merge(sources, target, workDir, now)) == Err(KeyError(sources[i]))
  {
    if i < |sources| && sources[i] !in ps && forall s :: s in sources[..i] ==> s in ps {
      FirstMissingIs(ps, sources, i);
      assert sources[i] in sources;
    }
  }

  /** The reanalysis takes priority, directory, seed model and weather file from its parent, and starts afresh otherwise. */
  lemma {:induction false} ReanalysisEffect(ps: Points, id: string, now: real)
    ensures var r := Apply(ps, MarkForReanalysis(id, now));
            if id !in ps then r == Err(KeyError(id))
            else if ps[id].status !in {Completed, Failed} then r == Err(ValueError)
            else
              var newId := id + "_reanalyze_" + Text.Decimal(ps[id].reanalyzeCount + 1);
              && r.Ok? && OnlyTouches(ps, r.value, {id, newId}) && newId in r.value && newId != id
              && r.value[newId] == DataPoint(newId, Pending, ps[id].priority, ps[id].workDir, now, now, None, None, None, [], 0,
                                             Some(id), ps[id].seedModel, ps[id].weatherFile)
              && r.value[id] == ps[id].(reanalyzeCount := ps[id].reanalyzeCount + 1, updatedAt := now)
  {
    if id in ps {
      assert |ReanalyzeId(id, ps[id].reanalyzeCount + 1)| > |id|;
    }
  }

  /** Unregistering removes the one point. */
  lemma {:induction false} UnregisterEffect(ps: Points, id: string)
    ensures var r := Apply(ps, Unregister(id));
            && r.Ok? && id !in r.value && |r.value| == |ps| - (if id in ps then 1 else 0)
            && forall k :: k != id ==> (k in r.value <==> k in ps) && (k in ps ==> r.value[k] == ps[k])
  {
    var qs := Apply(ps, Unregister(id)).value;
    assert qs.Keys == ps.Keys - {id};
    if id in ps {
      assert |ps.Keys - {id}| == |ps.Keys| - 1;
    }
  }

  // ---------------------------------------------------------------------
  // Whole runs
  // ---------------------------------------------------------------------

  /** The clock reading of an operation, if it takes one. */
  function ClockOf(op: Op, before: real): real {
    if op.Unregister? then before else op.now
  }

  /** Times lie in order, a final status has its completion time, and a point lies under its own id. */
  ghost predicate WellKept(ps: Points, latest: real) {
    forall k :: k in ps ==> PointWellKept(k, ps[k], latest)
  }

  predicate PointWellKept(id: string, dp: DataPoint, latest: real) {
    && dp.sampleId == id
    && dp.createdAt <= dp.updatedAt <= latest
    && (dp.status in {Completed, Failed, Cancelled} ==> dp.completedAt.Some?)
    && (dp.completedAt.Some? ==> dp.createdAt <= dp.completedAt.value <= dp.updatedAt)
  }

  lemma OperationKeepsWell(ps: Points, op: Op, latest: real)
    requires WellKept(ps, latest) && latest <= ClockOf(op, latest) && Apply(ps, op).Ok?
    ensures WellKept(Apply(ps, op).value, ClockOf(op, latest))
  {
    var qs := Apply(ps, op).value;
    forall k | k in qs ensures PointWellKept(k, qs[k], ClockOf(op, latest)) {
      assert k in ps ==> PointWellKept(k, ps[k], latest);
    }
  }

  /** The clock after a run that started at `from`. */
  function ClockAfter(from: real, ops: seq<Op>): real {
    if ops == [] then from else ClockOf(ops[|ops| - 1], ClockAfter(from, ops[..|ops| - 1]))
  }

  /** In every run with a clock that does not go back, created <= completed <= updated, and every final point has a completion time. */
  lemma {:induction false} RunsAreWellKept(ps: Points, from: real, ops: seq<Op>)
    requires WellKept(ps, from)
    requires forall i :: 0 <= i < |ops| ==> ClockAfter(from, ops[..i]) <= ClockOf(ops[i], ClockAfter(from, ops[..i]))
    ensures WellKept(Fold(ps, ops), ClockAfter(from, ops))
  {
    if ops != [] {
      var init := ops[..|ops| - 1];
      forall i | 0 <= i < |init| ensures ClockAfter(from, init[..i]) <= ClockOf(init[i], ClockAfter(from, init[..i])) {
        assert init[..i] == ops[..i];
      }
      RunsAreWellKept(ps, from, init);
      if Apply(Fold(ps, init), ops[|ops| - 1]).Ok? {
        OperationKeepsWell(Fold(ps, init), ops[|ops| - 1], ClockAfter(from, init));
      }
    }
  }

  /** The operation may set the status of the point. */
  ghost predicate SetsStatus(ps: Points, op: Op, id: string) {
    || (op.UpdateStatus? && op.id == id)
    || (op.Unregister? && op.id == id)
    || (op.Merge? && (op.target == id || id in op.sources))
    || (op.MarkForReanalysis? && op.id in ps && ReanalyzeId(op.id, ps[op.id].reanalyzeCount + 1) == id)
  }

  /** The operation may set the priority of the point. */
  ghost predicate SetsPriority(ps: Points, op: Op, id: string) {
    || (op.Register? && op.id == id)
    || (op.SetPriority? && op.id == id)
    || (op.Unregister? && op.id == id)
    || (op.ReorderPending? && id in op.priorities)
    || (op.MarkForReanalysis? && op.id in ps && ReanalyzeId(op.id, ps[op.id].reanalyzeCount + 1) == id)
  }

  /** The table after the operation, as it was if the operation raised. */
  function AfterOp(ps: Points, op: Op): Points {
    if Apply(ps, op).Ok? then Apply(ps, op).value else ps
  }

  lemma FoldIs(ps: Points, ops: seq<Op>)
    requires ops != []
    ensures Fold(ps, ops) == AfterOp(Fold(ps, ops[..|ops| - 1]), ops[|ops| - 1])
  {
  }

  predicate SameStatus(dp: DataPoint, now: DataPoint) {
    now.status == dp.status && now.completedAt == dp.completedAt && now.errorSummary == dp.errorSummary
  }

  lemma StatusStaysOnce(ps: Points, op: Op, id: string)
    requires id in ps && !SetsStatus(ps, op, id)
    ensures id in AfterOp(ps, op) && SameStatus(ps[id], AfterOp(ps, op)[id])
  {
  }

  lemma PriorityStaysOnce(ps: Points, op: Op, id: string)
    requires id in ps && !SetsPriority(ps, op, id)
    ensures id in AfterOp(ps, op) && AfterOp(ps, op)[id].priority == ps[id].priority
  {
  }

  ghost predicate NeverSetsStatus(ps: Points, ops: seq<Op>, id: string) {
    forall i :: 0 <= i < |ops| ==> !SetsStatus(Fold(ps, ops[..i]), ops[i], id)
  }

  ghost predicate NeverSetsPriority(ps: Points, ops: seq<Op>, id: string) {
    forall i :: 0 <= i < |ops| ==> !SetsPriority(Fold(ps, ops[..i]), ops[i], id)
  }

  lemma NeverBefore(ps: Points, ops: seq<Op>, id: string)
    requires ops != []
    ensures NeverSetsStatus(ps, ops, id) ==>
              NeverSetsStatus(ps, ops[..|ops| - 1], id) && !SetsStatus(Fold(ps, ops[..|ops| - 1]), ops[|ops| - 1], id)
    ensures NeverSetsPriority(ps, ops, id) ==>
              NeverSetsPriority(ps, ops[..|ops| - 1], id) && !SetsPriority(Fold(ps, ops[..|ops| - 1]), ops[|ops| - 1], id)
  {
    var init := ops[..|ops| - 1];
    assert forall i :: 0 <= i < |init| ==> init[..i] == ops[..i] && init[i] == ops[i];
  }

  lemma {:induction false} StatusStays(ps: Points, ops: seq<Op>, id: string)
    requires id in ps && NeverSetsStatus(ps, ops, id)
    ensures id in Fold(ps, ops) && SameStatus(ps[id], Fold(ps, ops)[id])
  {
    if ops != [] {
      var before, last := Fold(ps, ops[..|ops| - 1]), ops[|ops| - 1];
      NeverBefore(ps, ops, id);
      StatusStays(ps, ops[..|ops| - 1], id);
      FoldIs(ps, ops);
      StatusStaysOnce(before, last, id);
    }
  }

  lemma {:induction false} PriorityStays(ps: Points, ops: seq<Op>, id: string)
    requires id in ps && NeverSetsPriority(ps, ops, id)
    ensures id in Fold(ps, ops) && Fold(ps, ops)[id].priority == ps[id].priority
  {
    if ops != [] {
      var before, last := Fold(ps, ops[..|ops| - 1]), ops[|ops| - 1];
      NeverBefore(ps, ops, id);
      PriorityStays(ps, ops[..|ops| - 1], id);
      FoldIs(ps, ops);
      PriorityStaysOnce(before, last, id);
    }
  }

  /** A reported status is the one on file, with its completion time, until an operation that may set it comes along. */
  lemma {:induction false} LastStatusHolds(ps: Points, id: string, status: Status, error: string, now: real, later: seq<Op>)
    requires NeverSetsStatus(AfterOp(ps, UpdateStatus(id, status, error, now)), later, id)
    ensures var qs := Fold(AfterOp(ps, UpdateStatus(id, status, error, now)), later);
            && id in qs && qs[id].status == status
            && (status in {Completed, Failed, Cancelled} ==> qs[id].completedAt == Some(now))
            && (error != "" ==> qs[id].errorSummary == Some(error))
  {
    StatusEffect(ps, id, status, error, now);
    StatusStays(AfterOp(ps, UpdateStatus(id, status, error, now)), later, id);
  }

  /** A priority set is the one on file until an operation that may set it comes along. */
  lemma {:induction false} LastPriorityHolds(ps: Points, id: string, prio: int, now: real, later: seq<Op>)
    requires id in ps && NeverSetsPriority(AfterOp(ps, SetPriority(id, prio, now)), later, id)
    ensures var qs := Fold(AfterOp(ps, SetPriority(id, prio, now)), later);
            id in qs && qs[id].priority == prio
  {
    PriorityEffect(ps, id, prio, now);
    PriorityStays(AfterOp(ps, SetPriority(id, prio, now)), later, id);
  }
}
