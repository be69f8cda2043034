/**
 Several processes working on one state file (osimflow/data_point_manager.py):
 inter-process lock, load, mutate in memory, write a temporary file, `os.replace`,
 unlock. Any process may crash between any two steps, and any write may fail.
 One thread per process; the state file exists.
 */
module DataPointProtocol {
  import opened Wrappers
  import opened DataPoints

  /** What reading a file would yield: half a JSON document, or a table. */
  datatype Content = Torn | Whole(points: Points)

  datatype Stage =
    | Idle
    | Waiting(op: Op)                               // wants the lock
    | Locked(op: Op)
    | Loaded(op: Op, mem: Points)                   // after _load
    | Mutated(op: Op, mem: Points)                  // after the change in memory
    | Writing(op: Op, mem: Points, tmp: nat)        // write_text has begun
    | Written(op: Op, mem: Points, tmp: nat)        // write_text has returned
    | Leaving                                       // saved or raising; the lock is still held
  {
    predicate HoldsLock() {
      !Idle? && !Waiting?
    }
  }

  datatype State = State(file: Content, tmps: map<nat, Content>, nextTmp: nat, lock: Option<nat>,
                         stages: map<nat, Stage>, commits: seq<Op>)

  datatype Event =
    | Begin(p: nat, op: Op)
    | GiveUp(p: nat)      // lock timeout
    | Advance(p: nat)     // the next step of the operation
    | Fails(p: nat)       // the write or the replace raises
    | Crash(p: nat)       // the process dies; the system drops its lock

  function To(s: State, p: nat, stage: Stage): State {
    s.(stages := s.stages[p := stage])
  }

  /** `_load`: an unreadable file counts as an empty table. */
  function Read(c: Content): Points {
    if c.Torn? then map[] else c.points
  }

  function AdvanceStep(s: State, p: nat): State
    requires p in s.stages
  {
    match s.stages[p]
    case Idle => s
    case Waiting(op) => if s.lock.None? then To(s.(lock := Some(p)), p, Locked(op)) else s
    case Locked(op) => To(s, p, Loaded(op, Read(s.file)))
    case Loaded(op, mem) =>
      var r := Apply(mem, op);
      To(s, p, if r.Ok? then Mutated(op, r.value) else Leaving)
    case Mutated(op, mem) =>
      To(s.(tmps := s.tmps[s.nextTmp := Torn], nextTmp := s.nextTmp + 1), p, Writing(op, mem, s.nextTmp))
    case Writing(op, mem, tmp) => To(s.(tmps := s.tmps[tmp := Whole(mem)]), p, Written(op, mem, tmp))
    case Written(op, _, tmp) =>
      if tmp in s.tmps
      then To(s.(file := s.tmps[tmp], tmps := s.tmps - {tmp}, commits := s.commits + [op]), p, Leaving)
      else s
    case Leaving => To(s.(lock := None), p, Idle)
  }

  function Step(s: State, e: Event): State {
    if e.p !in s.stages then s
    else
      match e
      case Begin(p, op) => if s.stages[p].Idle? then To(s, p, Waiting(op)) else s
      case GiveUp(p) => if s.stages[p].Waiting? then To(s, p, Idle) else s
      case Advance(p) => AdvanceStep(s, p)
      case Fails(p) =>
        (match s.stages[p]
         case Writing(_, _, tmp) => To(s.(tmps := s.tmps - {tmp}), p, Leaving)
         case Written(_, _, tmp) => To(s.(tmps := s.tmps - {tmp}), p, Leaving)
         case _ => s)
      case Crash(p) => To(if s.stages[p].HoldsLock() then s.(lock := None) else s, p, Idle)
  }

  function Run(s: State, es: seq<Event>): State {
    if es == [] then s else Step(Run(s, es[..|es| - 1]), es[|es| - 1])
  }

  function Init(points: Points, procs: set<nat>): State {
    State(Whole(points), map[], 0, None, map p | p in procs :: Idle, [])
  }

  /** Everything the lock holder has in memory or on disk was computed from the current file. */
  ghost predicate HolderOk(s: State, p: nat)
    requires p in s.stages && s.file.Whole?
  {
    match s.stages[p]
    case Idle => true
    case Waiting(_) => true
    case Locked(_) => true
    case Loaded(_, mem) => mem == s.file.points
    case Mutated(op, mem) => Apply(s.file.points, op) == Ok(mem)
    case Writing(op, mem, tmp) => Apply(s.file.points, op) == Ok(mem) && tmp < s.nextTmp
    case Written(op, mem, tmp) => Apply(s.file.points, op) == Ok(mem) && tmp in s.tmps && s.tmps[tmp] == Whole(mem)
    case Leaving => true
  }

  /** The operations that got as far as a commit did not raise. */
  ghost predicate AllSucceed(points: Points, ops: seq<Op>) {
    forall i :: 0 <= i < |ops| ==> Apply(Fold(points, ops[..i]), ops[i]).Ok?
  }

  ghost predicate FileOk(s: State, points: Points) {
    s.file == Whole(Fold(points, s.commits)) && AllSucceed(points, s.commits)
  }

  ghost predicate LockOk(s: State) {
    forall p :: p in s.stages ==> (s.stages[p].HoldsLock() <==> s.lock == Some(p))
  }

  ghost predicate HoldersOk(s: State) {
    s.file.Whole? && forall p :: p in s.stages ==> HolderOk(s, p)
  }

  ghost predicate Inv(s: State, points: Points) {
    FileOk(s, points) && LockOk(s) && HoldersOk(s)
  }

  lemma CommitExtendsFold(points: Points, ops: seq<Op>, op: Op, mem: Points)
    requires AllSucceed(points, ops) && Apply(Fold(points, ops), op) == Ok(mem)
    ensures Fold(points, ops + [op]) == mem && AllSucceed(points, ops + [op])
  {
    var all := ops + [op];
    assert all[..|ops|] == ops;
    forall i | 0 <= i < |all| ensures Apply(Fold(points, all[..i]), all[i]).Ok? {
      if i < |ops| {
        assert all[..i] == ops[..i];
      }
    }
  }

  lemma StepKeepsLock(s: State, e: Event)
    requires LockOk(s)
    ensures LockOk(Step(s, e))
  {
  }

  /** Only the lock holder's steps change files. */
  lemma StepKeepsFile(s: State, points: Points, e: Event)
    requires Inv(s, points)
    ensures FileOk(Step(s, e), points)
  {
    if e.p in s.stages && e.Advance? && s.stages[e.p].Written? {
      assert HolderOk(s, e.p);
      CommitExtendsFold(points, s.commits, s.stages[e.p].op, s.stages[e.p].mem);
    }
  }

  lemma StepFrame(s: State, e: Event, p: nat)
    requires LockOk(s) && p in s.stages && p != e.p
    ensures var t := Step(s, e);
            && p in t.stages && t.stages[p] == s.stages[p] && s.nextTmp <= t.nextTmp
            && (s.stages[p].HoldsLock() ==> t.file == s.file && t.tmps == s.tmps)
  {
    assert e.p in s.stages && s.stages[e.p].HoldsLock() ==> s.lock == Some(e.p);
  }

  lemma HolderFrame(s: State, t: State, p: nat)
    requires p in s.stages && p in t.stages && t.stages[p] == s.stages[p] && s.nextTmp <= t.nextTmp
    requires s.file.Whole? && t.file.Whole? && HolderOk(s, p)
    requires s.stages[p].HoldsLock() ==> t.file == s.file && t.tmps == s.tmps
    ensures HolderOk(t, p)
  {
  }

  lemma StepKeepsActor(s: State, e: Event)
    requires HoldersOk(s) && e.p in s.stages
    ensures Step(s, e).file.Whole? && HolderOk(Step(s, e), e.p)
  {
    assert HolderOk(s, e.p);
  }

  lemma SameProcesses(s: State, e: Event)
    ensures Step(s, e).stages.Keys == s.stages.Keys
  {
  }

  lemma StepKeepsHolder(s: State, points: Points, e: Event, p: nat)
    requires Inv(s, points) && p in Step(s, e).stages && Step(s, e).file.Whole?
    ensures HolderOk(Step(s, e), p)
  {
    SameProcesses(s, e);
    if p == e.p {
      StepKeepsActor(s, e);
    } else {
      StepFrame(s, e, p);
      HolderFrame(s, Step(s, e), p);
    }
  }

  lemma StepKeepsHolders(s: State, points: Points, e: Event)
    requires Inv(s, points)
    ensures HoldersOk(Step(s, e))
  {
    var t := Step(s, e);
    assert t.file.Whole? by {
      StepKeepsFile(s, points, e);
    }
    forall p | p in t.stages ensures HolderOk(t, p) {
      StepKeepsHolder(s, points, e, p);
    }
  }

  lemma {:induction false} StepKeepsInv(s: State, points: Points, e: Event)
    requires Inv(s, points)
    ensures Inv(Step(s, e), points)
  {
    StepKeepsFile(s, points, e);
    StepKeepsLock(s, e);
    StepKeepsHolders(s, points, e);
  }

  /**
   Whatever the interleaving, the crashes and the failed writes, the state file is
   never torn and holds exactly the committed operations, folded in commit order.
   */
  lemma {:induction false} FileIsFoldOfCommits(points: Points, procs: set<nat>, es: seq<Event>)
    ensures var s := Run(Init(points, procs), es);
            s.file == Whole(Fold(points, s.commits)) && AllSucceed(points, s.commits)
    ensures Inv(Run(Init(points, procs), es), points)
  {
    if es != [] {
      FileIsFoldOfCommits(points, procs, es[..|es| - 1]);
      StepKeepsInv(Run(Init(points, procs), es[..|es| - 1]), points, es[|es| - 1]);
    }
  }

  /** No lost update: a commit is computed from the file as it is at that very moment. */
  lemma {:induction false} CommitSeesCurrentFile(points: Points, procs: set<nat>, es: seq<Event>, p: nat)
    requires var s := Run(Init(points, procs), es);
             p in s.stages && Step(s, Advance(p)).commits != s.commits
    ensures var s := Run(Init(points, procs), es);
            var t := Step(s, Advance(p));
            && s.stages[p].Written? && t.commits == s.commits + [s.stages[p].op]
            && s.file.Whole? && t.file.Whole? && Apply(s.file.points, s.stages[p].op) == Ok(t.file.points)
  {
    FileIsFoldOfCommits(points, procs, es);
    assert HoldersOk(Run(Init(points, procs), es));
    assert HolderOk(Run(Init(points, procs), es), p);
  }

  /** At most one process is between taking and dropping the lock. */
  lemma {:induction false} MutualExclusion(points: Points, procs: set<nat>, es: seq<Event>, p: nat, q: nat)
    requires var s := Run(Init(points, procs), es);
             p in s.stages && q in s.stages && s.stages[p].HoldsLock() && s.stages[q].HoldsLock()
    ensures p == q
  {
    FileIsFoldOfCommits(points, procs, es);
  }

  ghost predicate AllDisciplined(points: Points, cs: seq<Op>) {
    forall j :: 0 <= j < |cs| ==> Disciplined(Fold(points, cs[..j]), cs[j])
  }

  lemma CountedBefore(points: Points, cs: seq<Op>, i: nat)
    requires Counted(points) && AllDisciplined(points, cs) && i <= |cs|
    ensures Counted(Fold(points, cs[..i]))
  {
    var init := cs[..i];
    forall j | 0 <= j < |init| ensures Disciplined(Fold(points, init[..j]), init[j]) {
      assert init[..j] == cs[..j];
    }
    CountedForever(points, init);
  }

  lemma FoldSnoc(points: Points, cs: seq<Op>, i: nat)
    requires i < |cs| && AllSucceed(points, cs)
    ensures Apply(Fold(points, cs[..i]), cs[i]) == Ok(Fold(points, cs[..i + 1]))
  {
    assert cs[..i + 1][..i] == cs[..i];
  }

  /** With disciplined clients a reanalysis never overwrites a data point, in any interleaved run. */
  lemma {:induction false} ReanalysisFreshInEveryRun(points: Points, procs: set<nat>, es: seq<Event>, i: nat)
    requires Counted(points)
    requires var cs := Run(Init(points, procs), es).commits;
             i < |cs| && cs[i].MarkForReanalysis? && AllDisciplined(points, cs)
    ensures var cs := Run(Init(points, procs), es).commits;
            var before, after := Fold(points, cs[..i]), Fold(points, cs[..i + 1]);
            && cs[i].id in before
            && ReanalyzeId(cs[i].id, before[cs[i].id].reanalyzeCount + 1) !in before
            && |after| == |before| + 1
            && forall k :: k in before && k != cs[i].id ==> k in after && after[k] == before[k]
  {
    FileIsFoldOfCommits(points, procs, es);
    var cs := Run(Init(points, procs), es).commits;
    FoldSnoc(points, cs, i);
    CountedBefore(points, cs, i);
    ReanalysisIdIsFresh(Fold(points, cs[..i]), cs[i].id);
    ReanalysisOverwritesNothing(Fold(points, cs[..i]), cs[i].id, cs[i].now);
  }

  // ---------------------------------------------------------------------
  // Progress
  // ---------------------------------------------------------------------

  /** Process `p` takes `n` steps and nobody else does anything. */
  function Advanced(s: State, p: nat, n: nat): State {
    if n == 0 then s else Step(Advanced(s, p, n - 1), Advance(p))
  }

  lemma {:induction false} AdvancedFurther(s: State, p: nat, m: nat, n: nat)
    ensures Advanced(Advanced(s, p, m), p, n) == Advanced(s, p, m + n)
  {
    if n > 0 {
      AdvancedFurther(s, p, m, n - 1);
    }
  }

  lemma FourSteps(s: State, p: nat, a: State, b: State, c: State)
    requires p in s.stages && p in a.stages && p in b.stages && p in c.stages
    requires a == AdvanceStep(s, p) && b == AdvanceStep(a, p) && c == AdvanceStep(b, p)
    ensures Advanced(s, p, 1) == a && Advanced(s, p, 3) == c && Advanced(s, p, 4) == AdvanceStep(c, p)
  {
    assert Advanced(s, p, 0) == s;
    assert Advanced(s, p, 1) == a;
    assert Advanced(s, p, 2) == b;
    assert Advanced(s, p, 3) == c;
  }

  lemma UpToMutation(s: State, p: nat, op: Op)
    requires p in s.stages && s.stages[p].Idle? && s.lock.None? && s.file.Whole?
    ensures var r := Apply(s.file.points, op);
            Advanced(Step(s, Begin(p, op)), p, 3) == To(s.(lock := Some(p)), p, if r.Ok? then Mutated(op, r.value) else Leaving)
  {
    var s0 := Step(s, Begin(p, op));
    var a := AdvanceStep(s0, p);
    assert a == To(s.(lock := Some(p)), p, Locked(op));
    var b := AdvanceStep(a, p);
    assert b == To(s.(lock := Some(p)), p, Loaded(op, s.file.points));
    FourSteps(s0, p, a, b, AdvanceStep(b, p));
  }

  lemma WritesTheTable(s: State, p: nat, op: Op, mem: Points)
    requires p in s.stages && s.stages[p] == Mutated(op, mem)
    ensures var t := AdvanceStep(AdvanceStep(s, p), p);
            && t.stages == s.stages[p := Written(op, mem, s.nextTmp)] && t.commits == s.commits
            && s.nextTmp in t.tmps && t.tmps[s.nextTmp] == Whole(mem)
  {
  }

  lemma ReplacesTheFile(s: State, p: nat, op: Op, mem: Points, tmp: nat)
    requires p in s.stages && s.stages[p] == Written(op, mem, tmp) && tmp in s.tmps && s.tmps[tmp] == Whole(mem)
    ensures var c := AdvanceStep(s, p);
            var t := AdvanceStep(c, p);
            && c.stages == s.stages[p := Leaving]
            && t.file == Whole(mem) && t.commits == s.commits + [op] && t.lock.None? && t.stages == s.stages[p := Idle]
  {
  }

  lemma FromMutation(s: State, p: nat, op: Op, mem: Points)
    requires p in s.stages && s.stages[p] == Mutated(op, mem)
    ensures var t := Advanced(s, p, 4);
            t.file == Whole(mem) && t.commits == s.commits + [op] && t.lock.None? && t.stages == s.stages[p := Idle]
  {
    var a := AdvanceStep(s, p);
    var b := AdvanceStep(a, p);
    WritesTheTable(s, p, op, mem);
    ReplacesTheFile(b, p, op, mem, s.nextTmp);
    FourSteps(s, p, a, b, AdvanceStep(b, p));
  }

  /** An idle process that finds the lock free and is left alone commits its operation, or leaves the file as it was if it raises; then the lock is free again. */
  lemma {:induction false} LeftAloneItCommits(s: State, p: nat, op: Op)
    requires p in s.stages && s.stages[p].Idle? && s.lock.None? && s.file.Whole?
    ensures var r := Apply(s.file.points, op);
            var t := Advanced(Step(s, Begin(p, op)), p, if r.Ok? then 7 else 4);
            && t.file == Whole(if r.Ok? then r.value else s.file.points)
            && t.commits == (if r.Ok? then s.commits + [op] else s.commits)
            && t.lock.None? && t.stages == s.stages
  {
    var r, s0 := Apply(s.file.points, op), Step(s, Begin(p, op));
    var s3 := Advanced(s0, p, 3);
    UpToMutation(s, p, op);
    if r.Ok? {
      FromMutation(s3, p, op, r.value);
      AdvancedFurther(s0, p, 3, 4);
    } else {
      assert Advanced(s0, p, 4) == Step(s3, Advance(p));
    }
  }

  /** The system drops a dead process's lock: after a crash the file is what it was, and the next process to be left alone commits. */
  lemma {:induction false} CrashReleasesLock(s: State, p: nat, q: nat, op: Op)
    requires p in s.stages && q in s.stages && p != q && s.stages[p].HoldsLock() && s.stages[q].Idle? && s.file.Whole?
    requires Apply(s.file.points, op).Ok?
    ensures var t := Step(s, Crash(p));
            && t.file == s.file && t.commits == s.commits && t.lock.None?
            && Advanced(Step(t, Begin(q, op)), q, 7).file == Whole(Apply(s.file.points, op).value)
  {
    LeftAloneItCommits(Step(s, Crash(p)), q, op);
  }
}
