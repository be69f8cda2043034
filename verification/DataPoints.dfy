/**
 The data point manager (osimflow/data_point_manager.py): every public operation
 re-reads the state file, changes the table and writes it back. Here one
 operation runs at a time; DataPointProtocol interleaves them.
 Each operation reads the clock once, as `now`.
 */
module DataPoints {
  import opened Wrappers
  import Text

  datatype Status = Pending | Running | Completed | Failed | Cancelled | Merged

  datatype DataPoint = DataPoint(
    sampleId: string, status: Status, priority: int, workDir: Option<string>,
    createdAt: real, updatedAt: real, completedAt: Option<real>, errorSummary: Option<string>,
    mergedInto: Option<string>, mergedFrom: seq<string>,
    reanalyzeCount: nat, originalSampleId: Option<string>,
    seedModel: Option<string>, weatherFile: Option<string>)

  type Points = map<string, DataPoint>

  datatype Error = KeyError(id: string) | ValueError

  datatype Op =
    | Register(id: string, workDir: Option<string>, prio: int, now: real)
    | WithSeedModel(id: string, path: string, now: real)
    | WithWeatherFile(id: string, path: string, now: real)
    | UpdateStatus(id: string, status: Status, error: string, now: real)
    | SetPriority(id: string, prio: int, now: real)
    | Unregister(id: string)
    | MarkForReanalysis(id: string, now: real)
    | Merge(sources: seq<string>, target: string, targetWorkDir: string, now: real)
    | ReorderPending(priorities: map<string, int>, now: real)

  function NewPoint(id: string, now: real): DataPoint {
    DataPoint(id, Pending, 0, None, now, now, None, None, None, [], 0, None, None, None)
  }

  /** `_auto_register` of an unknown id. */
  function AutoRegistered(ps: Points, id: string, now: real): Points {
    if id in ps then ps else ps[id := NewPoint(id, now)]
  }

  function ReanalyzeId(id: string, n: nat): string {
    id + "_reanalyze_" + Text.Decimal(n)
  }

  predicate IsFinal(s: Status) {
    s.Completed? || s.Failed? || s.Cancelled?
  }

  function WithStatus(dp: DataPoint, status: Status, error: string, now: real): DataPoint {
    dp.(status := status, updatedAt := now,
        completedAt := if IsFinal(status) then Some(now) else dp.completedAt,
        errorSummary := if error != "" then Some(error) else dp.errorSummary)
  }

  function Reanalysis(ps: Points, id: string, now: real): Points
    requires id in ps
  {
    var parent := ps[id];
    var newId := ReanalyzeId(id, parent.reanalyzeCount + 1);
    ps[id := parent.(reanalyzeCount := parent.reanalyzeCount + 1, updatedAt := now)]
      [newId := DataPoint(newId, Pending, parent.priority, parent.workDir, now, now, None, None, None, [], 0,
                          Some(id), parent.seedModel, parent.weatherFile)]
  }

  function MergeTarget(ps: Points, sources: seq<string>, target: string, workDir: string, now: real): DataPoint {
    if target in ps then ps[target].(status := Merged, mergedFrom := sources, updatedAt := now)
    else NewPoint(target, now).(status := Merged, workDir := Some(workDir), mergedFrom := sources)
  }

  function Linked(dp: DataPoint, target: string, now: real): DataPoint {
    dp.(status := Merged, mergedInto := Some(target), updatedAt := now)
  }

  /** The target first, then every source, a target among its own sources included. */
  function MergedPoints(ps: Points, sources: seq<string>, target: string, workDir: string, now: real): Points {
    map k | k in ps.Keys + {target} ::
      var dp := if k == target then MergeTarget(ps, sources, target, workDir, now) else ps[k];
      if k in sources then Linked(dp, target, now) else dp
  }

  function Reordered(ps: Points, priorities: map<string, int>, now: real): Points {
    map k | k in ps ::
      if k in priorities && ps[k].status.Pending? then ps[k].(priority := priorities[k], updatedAt := now) else ps[k]
  }

  /** The table an operation writes back, or the exception that leaves the file alone. */
  function Apply(ps: Points, op: Op): Result<Points, Error> {
    match op
    case Register(id, workDir, prio, now) =>
      if id in ps then
        Ok(ps[id := ps[id].(priority := prio, workDir := if workDir.Some? then workDir else ps[id].workDir, updatedAt := now)])
      else
        Ok(ps[id := NewPoint(id, now).(priority := prio, workDir := workDir)])
    case WithSeedModel(id, path, now) =>
      var qs := AutoRegistered(ps, id, now);
      Ok(qs[id := qs[id].(seedModel := Some(path), updatedAt := now)])
    case WithWeatherFile(id, path, now) =>
      var qs := AutoRegistered(ps, id, now);
      Ok(qs[id := qs[id].(weatherFile := Some(path), updatedAt := now)])
    case UpdateStatus(id, status, error, now) =>
      var qs := AutoRegistered(ps, id, now);
      Ok(qs[id := WithStatus(qs[id], status, error, now)])
    case SetPriority(id, prio, now) =>
      if id in ps then Ok(ps[id := ps[id].(priority := prio, updatedAt := now)]) else Err(KeyError(id))
    case Unregister(id) => Ok(ps - {id})
    case MarkForReanalysis(id, now) =>
      if id !in ps then Err(KeyError(id))
      else if ps[id].status.Completed? || ps[id].status.Failed? then Ok(Reanalysis(ps, id, now))
      else Err(ValueError)
    case Merge(sources, target, workDir, now) =>
      if sources == [] then Err(ValueError)
      else if forall s :: s in sources ==> s in ps then Ok(MergedPoints(ps, sources, target, workDir, now))
      else Err(KeyError(FirstMissing(ps, sources)))
    case ReorderPending(priorities, now) => Ok(Reordered(ps, priorities, now))
  }

  function FirstMissing(ps: Points, ids: seq<string>): (id: string)
    requires exists s :: s in ids && s !in ps
    ensures id in ids && id !in ps
  {
    if ids[0] !in ps then ids[0] else FirstMissing(ps, ids[1..])
  }

  lemma {:induction false} FirstMissingIs(ps: Points, ids: seq<string>, i: nat)
    requires i < |ids| && ids[i] !in ps && forall s :: s in ids[..i] ==> s in ps
    ensures FirstMissing(ps, ids) == ids[i]
  {
    if i > 0 {
      assert ids[0] in ids[..i];
      assert ids[1..][..i - 1] == ids[..i][1..];
      FirstMissingIs(ps, ids[1..], i - 1);
    }
  }

  // ---------------------------------------------------------------------
  // The manager
  // ---------------------------------------------------------------------

  class StateFile {
    var content: Points

    constructor ()
      ensures content == map[]
    {
      content := map[];
    }
  }

  class DataPointManager {
    const file: StateFile
    var dataPoints: Points

    constructor (file: StateFile)
      ensures this.file == file && dataPoints == file.content
    {
      this.file := file;
      dataPoints := file.content;
    }

    method Register(id: string, workDir: Option<string>, prio: int, now: real) returns (dp: DataPoint)
      modifies this, file
      ensures Apply(old(file.content), Op.Register(id, workDir, prio, now)) == Ok(file.content)
      ensures dataPoints == file.content && id in dataPoints && dp == dataPoints[id]
    {
      dataPoints := file.content;
      if id in dataPoints {
        dp := dataPoints[id].(priority := prio);
        if workDir.Some? {
          dp := dp.(workDir := workDir);
        }
        dp := dp.(updatedAt := now);
      } else {
        dp := NewPoint(id, now).(priority := prio, workDir := workDir);
      }
      dataPoints := dataPoints[id := dp];
      file.content := dataPoints;
    }

    method UpdateStatus(id: string, status: Status, error: string, now: real) returns (dp: DataPoint)
      modifies this, file
      ensures Apply(old(file.content), Op.UpdateStatus(id, status, error, now)) == Ok(file.content)
      ensures dataPoints == file.content && id in dataPoints && dp == dataPoints[id]
    {
      dataPoints := file.content;
      if id !in dataPoints {
        dataPoints := dataPoints[id := NewPoint(id, now)];
      }
      dp := dataPoints[id].(status := status, updatedAt := now);
      if status == Completed || status == Failed || status == Cancelled {
        dp := dp.(completedAt := Some(now));
      }
      if error != "" {
        dp := dp.(errorSummary := Some(error));
      }
      dataPoints := dataPoints[id := dp];
      file.content := dataPoints;
    }

    method SetPriority(id: string, prio: int, now: real) returns (r: Result<DataPoint, Error>)
      modifies this, file
      ensures r.Ok? ==> Apply(old(file.content), Op.SetPriority(id, prio, now)) == Ok(file.content) && id in dataPoints && r.value == dataPoints[id]
      ensures r.Err? ==> Apply(old(file.content), Op.SetPriority(id, prio, now)) == Err(r.error) && file.content == old(file.content)
      ensures dataPoints == file.content
    {
      dataPoints := file.content;
      if id !in dataPoints {
        return Err(KeyError(id));
      }
      dataPoints := dataPoints[id := dataPoints[id].(priority := prio, updatedAt := now)];
      file.content := dataPoints;
      r := Ok(dataPoints[id]);
    }

    method MarkForReanalysis(id: string, now: real) returns (r: Result<DataPoint, Error>)
      modifies this, file
      ensures r.Ok? ==> Apply(old(file.content), Op.MarkForReanalysis(id, now)) == Ok(file.content)
      ensures r.Ok? ==> r.value.sampleId in dataPoints && r.value == dataPoints[r.value.sampleId] && r.value.originalSampleId == Some(id)
      ensures r.Err? ==> Apply(old(file.content), Op.MarkForReanalysis(id, now)) == Err(r.error) && file.content == old(file.content)
      ensures dataPoints == file.content
    {
      dataPoints := file.content;
      if id !in dataPoints {
        return Err(KeyError(id));
      }
      var original := dataPoints[id];
      if !(original.status == Completed || original.status == Failed) {
        return Err(ValueError);
      }
      var newId := ReanalyzeId(id, original.reanalyzeCount + 1);
      dataPoints := dataPoints[id := original.(reanalyzeCount := original.reanalyzeCount + 1, updatedAt := now)];
      var dp := DataPoint(newId, Pending, original.priority, original.workDir, now, now, None, None, None, [], 0,
                          Some(id), original.seedModel, original.weatherFile);
      dataPoints := dataPoints[newId := dp];
      file.content := dataPoints;
      r := Ok(dp);
    }

    method Merge(sources: seq<string>, target: string, workDir: string, now: real) returns (r: Result<DataPoint, Error>)
      modifies this, file
      ensures r.Ok? ==> Apply(old(file.content), Op.Merge(sources, target, workDir, now)) == Ok(file.content)
      ensures r.Ok? ==> dataPoints == file.content && target in dataPoints && r.value == dataPoints[target]
      ensures r.Err? ==> Apply(old(file.content), Op.Merge(sources, target, workDir, now)) == Err(r.error) && file.content == old(file.content)
    {
      if sources == [] {
        return Err(ValueError);
      }
      dataPoints := file.content;
      for i := 0 to |sources|
        invariant dataPoints == file.content == old(file.content)
        invariant forall s :: s in sources[..i] ==> s in dataPoints
      {
        if sources[i] !in dataPoints {
          FirstMissingIs(dataPoints, sources, i);
          return Err(KeyError(sources[i]));
        }
      }
      ghost var ps := dataPoints;
      dataPoints := dataPoints[target := MergeTarget(dataPoints, sources, target, workDir, now)];
      LinkSources(sources, target, now);
      assert dataPoints == MergedPoints(ps, sources, target, workDir, now);
      file.content := dataPoints;
      r := Ok(dataPoints[target]);
    }

    /** Marks every source, once or more often, as merged into the target. */
    method LinkSources(sources: seq<string>, target: string, now: real)
      requires forall s :: s in sources ==> s in dataPoints
      modifies this`dataPoints
      ensures dataPoints == map k | k in old(dataPoints) ::
                              if k in sources then Linked(old(dataPoints)[k], target, now) else old(dataPoints)[k]
    {
      for i := 0 to |sources|
        invariant dataPoints.Keys == old(dataPoints).Keys
        invariant forall k :: k in dataPoints ==>
                                dataPoints[k] == if k in sources[..i] then Linked(old(dataPoints)[k], target, now) else old(dataPoints)[k]
      {
        assert sources[..i + 1] == sources[..i] + [sources[i]];
        assert sources[i] in sources;
        dataPoints := dataPoints[sources[i] := Linked(dataPoints[sources[i]], target, now)];
      }
      assert sources[..|sources|] == sources;
    }

    method ReorderPending(priorities: map<string, int>, now: real)
      modifies this, file
      ensures Apply(old(file.content), Op.ReorderPending(priorities, now)) == Ok(file.content)
      ensures dataPoints == file.content
    {
      dataPoints := file.content;
      ghost var ps := dataPoints;
      var todo := priorities.Keys;
      while todo != {}
        invariant todo <= priorities.Keys
        invariant dataPoints.Keys == ps.Keys && file.content == ps
        invariant forall k :: k in ps ==> dataPoints[k] == if k in todo then ps[k] else Reordered(ps, priorities, now)[k]
        decreases todo
      {
        var sid :| sid in todo;
        todo := todo - {sid};
        if sid in dataPoints {
          var dp := dataPoints[sid];
          if dp.status == Pending {
            dataPoints := dataPoints[sid := dp.(priority := priorities[sid], updatedAt := now)];
          }
        }
      }
      assert dataPoints == Reordered(ps, priorities, now);
      file.content := dataPoints;
    }
  }

  // ---------------------------------------------------------------------
  // Reanalysis ids
  // ---------------------------------------------------------------------

  lemma {:induction false} ReanalyzeIdInjective(x: string, m: nat, y: string, n: nat)
    requires ReanalyzeId(x, m) == ReanalyzeId(y, n)
    ensures x == y && m == n
  {
    var a, b := x + "_reanalyze", y + "_reanalyze";
    assert ReanalyzeId(x, m) == a + ['_'] + Text.Decimal(m);
    assert ReanalyzeId(y, n) == b + ['_'] + Text.Decimal(n);
    assert forall c :: c in Text.Decimal(m) ==> c != '_';
    assert forall c :: c in Text.Decimal(n) ==> c != '_';
    Text.SplitUniqueFromRight('_', a, Text.Decimal(m), b, Text.Decimal(n));
    Text.DecimalInjective(m, n);
    assert x == a[..|x|] && y == b[..|y|];
  }

  /** Every reanalysis id in the table was handed out by its parent's counter. */
  ghost predicate Counted(ps: Points) {
    forall x, n: nat :: n >= 1 && ReanalyzeId(x, n) in ps ==> x in ps && n <= ps[x].reanalyzeCount
  }

  predicate LooksReanalyzed(id: string, x: string, n: nat) {
    n >= 1 && id == ReanalyzeId(x, n)
  }

  /** The ids a client may bring into existence with the operation. */
  function ClientIds(op: Op): set<string> {
    match op
    case Register(id, _, _, _) => {id}
    case WithSeedModel(id, _, _) => {id}
    case WithWeatherFile(id, _, _) => {id}
    case UpdateStatus(id, _, _, _) => {id}
    case Merge(_, target, _, _) => {target}
    case _ => {}
  }

  /** No unregistering, and no new client id that imitates a reanalysis id. */
  ghost predicate Disciplined(ps: Points, op: Op) {
    && !op.Unregister?
    && forall id, x, n :: id in ClientIds(op) && id !in ps ==> !LooksReanalyzed(id, x, n)
  }

  lemma {:induction false} ReanalysisIdIsFresh(ps: Points, id: string)
    requires Counted(ps) && id in ps
    ensures ReanalyzeId(id, ps[id].reanalyzeCount + 1) !in ps
  {
  }

  /** A reanalysis adds one point and changes nothing of the others but the parent's counter and timestamp. */
  lemma {:induction false} ReanalysisOverwritesNothing(ps: Points, id: string, now: real)
    requires Counted(ps) && Apply(ps, MarkForReanalysis(id, now)).Ok?
    ensures var qs := Apply(ps, MarkForReanalysis(id, now)).value;
            && |qs| == |ps| + 1
            && forall k :: k in ps && k != id ==> k in qs && qs[k] == ps[k]
    ensures var qs := Apply(ps, MarkForReanalysis(id, now)).value;
            id in qs && qs[id] == ps[id].(reanalyzeCount := ps[id].reanalyzeCount + 1, updatedAt := now)
  {
    ReanalysisIdIsFresh(ps, id);
    var newId := ReanalyzeId(id, ps[id].reanalyzeCount + 1);
    var qs := Reanalysis(ps, id, now);
    assert newId != id;
    assert qs.Keys == ps.Keys + {newId};
    assert |qs.Keys| == |ps.Keys| + 1;
  }

  /** Exactly when a reanalysis adds a point and keeps every other: its id is not taken. */
  lemma {:induction false} ReanalysisAddsIffIdFree(ps: Points, id: string, now: real)
    requires Apply(ps, MarkForReanalysis(id, now)).Ok?
    ensures var qs := Apply(ps, MarkForReanalysis(id, now)).value;
            (|qs| == |ps| + 1 && forall k :: k in ps && k != id ==> k in qs && qs[k] == ps[k])
            <==> ReanalyzeId(id, ps[id].reanalyzeCount + 1) !in ps
  {
    var newId := ReanalyzeId(id, ps[id].reanalyzeCount + 1);
    var qs := Reanalysis(ps, id, now);
    assert |newId| > |id|;
    assert qs.Keys == ps.Keys + {newId};
    assert newId in ps ==> qs.Keys == ps.Keys;
    assert newId !in ps ==> |qs.Keys| == |ps.Keys| + 1;
  }

  lemma {:induction false} DisciplinedKeepsCounted(ps: Points, op: Op)
    requires Counted(ps) && Disciplined(ps, op) && Apply(ps, op).Ok?
    ensures Counted(Apply(ps, op).value)
  {
    var qs := Apply(ps, op).value;
    forall x, n: nat | n >= 1 && ReanalyzeId(x, n) in qs ensures x in qs && n <= qs[x].reanalyzeCount {
      var id := ReanalyzeId(x, n);
      if op.MarkForReanalysis? {
        var newId := ReanalyzeId(op.id, ps[op.id].reanalyzeCount + 1);
        ReanalysisIdIsFresh(ps, op.id);
        if id == newId {
          ReanalyzeIdInjective(x, n, op.id, ps[op.id].reanalyzeCount + 1);
        }
      } else {
        assert id !in ps ==> id in ClientIds(op) && LooksReanalyzed(id, x, n);
        assert x in ps ==> x in qs && qs[x].reanalyzeCount == ps[x].reanalyzeCount;
      }
    }
  }

  /** Committed operations in order; an operation that raises commits nothing. */
  function Fold(ps: Points, ops: seq<Op>): Points {
    if ops == [] then ps
    else
      var before := Fold(ps, ops[..|ops| - 1]);
      var after := Apply(before, ops[|ops| - 1]);
      if after.Ok? then after.value else before
  }

  lemma {:induction false} CountedForever(ps: Points, ops: seq<Op>)
    requires Counted(ps)
    requires forall i :: 0 <= i < |ops| ==> Disciplined(Fold(ps, ops[..i]), ops[i])
    ensures Counted(Fold(ps, ops))
  {
    if ops != [] {
      var init := ops[..|ops| - 1];
      forall i | 0 <= i < |init| ensures Disciplined(Fold(ps, init[..i]), init[i]) {
        assert init[..i] == ops[..i];
      }
      CountedForever(ps, init);
      if Apply(Fold(ps, init), ops[|ops| - 1]).Ok? {
        DisciplinedKeepsCounted(Fold(ps, init), ops[|ops| - 1]);
      }
    }
  }

  /** Unregistering and registering again resets the counter, so the next reanalysis replaces an old one. */
  lemma {:induction false} UnregisterMakesReanalysisOverwrite(ps: Points, id: string, now: real)
    requires id in ps && ps[id].reanalyzeCount == 0 && (ps[id].status.Completed? || ps[id].status.Failed?)
    ensures var s1 := Apply(ps, MarkForReanalysis(id, now)).value;
            var s2 := Apply(s1, Unregister(id)).value;
            var s3 := Apply(s2, UpdateStatus(id, Completed, "", now)).value;
            && Apply(s3, MarkForReanalysis(id, now)).Ok?
            && ReanalyzeId(id, s3[id].reanalyzeCount + 1) in s3
  {
    var newId := ReanalyzeId(id, 1);
    assert |newId| > |id|;
  }
}
