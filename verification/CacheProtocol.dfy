/**
 The whole campaign: any number of processes, each subscribed from the start,
 one shared hash, and an inbox of undelivered broadcasts per process that may be
 emptied in any order and at any time (osimflow/distributed_cache.py). Every
 public operation is one step; `up` says whether its Redis command went through.
 */
module CacheProtocol {
  import opened Wrappers
  import opened SqliteCache
  import opened DistributedCache

  datatype Event =
    | Store(p: nat, key: CacheKey, path: string, exitCode: int, now: real, up: bool)
    | Lookup(p: nat, key: CacheKey, onDisk: set<string>, now: real, up: bool)
    | Invalidate(p: nat, scope: Scope, up: bool, published: bool)
    | Deliver(p: nat, i: nat)

  datatype State = State(local: map<nat, Table>, shared: Shared, inbox: map<nat, seq<Message>>) {
    /** Every process has a table and an inbox. */
    predicate Wf() {
      local.Keys == inbox.Keys
    }
  }

  function Init(procs: set<nat>): State {
    State(map p | p in procs :: map[], map[], map p | p in procs :: [])
  }

  function Step(s: State, e: Event): State
    requires s.Wf()
  {
    if e.p !in s.local then s
    else
      match e
      case Store(p, key, path, exitCode, now, up) =>
        s.(local := s.local[p := s.local[p][key := Row(key, path, now, now, exitCode)]],
           shared := if up then s.shared[FieldForKey(key) := SharedEntry(path, exitCode)] else s.shared)
      case Lookup(p, key, onDisk, now, up) =>
        s.(local := s.local[p := Backfilled(s.local[p], s.shared, key, onDisk, up, now)])
      case Invalidate(p, scope, up, published) =>
        if scope.OneKey? then s
        else
          State(s.local[p := Kept(s.local[p], scope)],
                if up then SharedAfterInvalidate(s.shared, scope) else s.shared,
                if published then map q | q in s.inbox :: s.inbox[q] + [Message(p, scope)] else s.inbox)
      case Deliver(p, i) =>
        if i >= |s.inbox[p]| then s
        else
          s.(local := s.local[p := AfterMessage(s.local[p], p, s.inbox[p][i])],
             inbox := s.inbox[p := s.inbox[p][..i] + s.inbox[p][i + 1..]])
  }

  function Run(s: State, es: seq<Event>): (t: State)
    requires s.Wf()
    ensures t.Wf() && t.local.Keys == s.local.Keys
  {
    if es == [] then s else Step(Run(s, es[..|es| - 1]), es[|es| - 1])
  }

  // ---------------------------------------------------------------------
  // Invalidation coherence
  // ---------------------------------------------------------------------

  /**
   Every shared store reaches Redis, a delete that reaches Redis is broadcast, and
   names are free of separators and glob characters. Reads may fail, and so may deletes.
   */
  predicate Orderly(e: Event) {
    match e
    case Store(_, key, _, _, _, up) => up && PipeFree(key)
    case Lookup(_, key, _, _, _) => PipeFree(key)
    case Invalidate(_, scope, up, published) => (up ==> published) && PlainScope(scope) && Named(scope)
    case Deliver(_, _) => true
  }

  /** An undelivered broadcast of a peer will remove the key. */
  ghost predicate Pending(msgs: seq<Message>, p: nat, key: CacheKey) {
    exists m :: m in msgs && m.originator != p && m.scope.Covers(key)
  }

  ghost predicate CoherentAt(s: State, p: nat) {
    p in s.local && p in s.inbox ==>
      && (forall k :: k in s.local[p] ==> PipeFree(k) && (FieldForKey(k) in s.shared || Pending(s.inbox[p], p, k)))
      && (forall m :: m in s.inbox[p] ==> Named(m.scope))
  }

  ghost predicate Coherent(s: State) {
    forall p :: CoherentAt(s, p)
  }

  lemma StoreKeepsCoherent(s: State, e: Event, q: nat)
    requires s.Wf() && Coherent(s) && Orderly(e) && (e.Store? || e.Lookup?)
    ensures CoherentAt(Step(s, e), q)
  {
    assert CoherentAt(s, q);
  }

  lemma InvalidateKeepsCoherent(s: State, e: Event, q: nat)
    requires s.Wf() && Coherent(s) && Orderly(e) && e.Invalidate?
    ensures CoherentAt(Step(s, e), q)
  {
    var t := Step(s, e);
    assert CoherentAt(s, q);
    if e.p in s.local && q in s.local {
      var m := Message(e.p, e.scope);
      assert e.published ==> m in t.inbox[q];
      forall k | k in t.local[q] ensures FieldForKey(k) in t.shared || Pending(t.inbox[q], q, k) {
        assert k in s.local[q];
        PatternIsExact(e.scope, k);
        if Pending(s.inbox[q], q, k) {
          var covering :| covering in s.inbox[q] && covering.originator != q && covering.scope.Covers(k);
          assert covering in t.inbox[q];
        } else if e.scope.Covers(k) {
          assert q != e.p;
        }
      }
    }
  }

  lemma DeliverKeepsCoherent(s: State, e: Event, q: nat)
    requires s.Wf() && Coherent(s) && e.Deliver?
    ensures CoherentAt(Step(s, e), q)
  {
    var t := Step(s, e);
    assert CoherentAt(s, q);
    if e.p in s.local && e.i < |s.inbox[e.p]| && q == e.p {
      var m := s.inbox[q][e.i];
      assert m in s.inbox[q];
      forall k | k in t.local[q] ensures FieldForKey(k) in t.shared || Pending(t.inbox[q], q, k) {
        if FieldForKey(k) !in s.shared {
          StillPending(s.inbox[q], e.i, q, k);
        }
      }
    }
  }

  /** Delivering a message that spares the key leaves the one that will remove it. */
  lemma StillPending(msgs: seq<Message>, i: nat, p: nat, key: CacheKey)
    requires i < |msgs| && Pending(msgs, p, key) && !(msgs[i].originator != p && msgs[i].scope.Covers(key))
    ensures Pending(msgs[..i] + msgs[i + 1..], p, key)
  {
    var n :| n in msgs && n.originator != p && n.scope.Covers(key);
    var j :| 0 <= j < |msgs| && msgs[j] == n;
    var rest := msgs[..i] + msgs[i + 1..];
    assert rest[if j < i then j else j - 1] == n;
  }

  /** In every run each local key is in the shared hash or about to be invalidated by a peer. */
  lemma {:induction false} CoherenceInvariant(procs: set<nat>, es: seq<Event>)
    requires forall i :: 0 <= i < |es| ==> Orderly(es[i])
    ensures Coherent(Run(Init(procs), es))
  {
    if es != [] {
      var init, e := es[..|es| - 1], es[|es| - 1];
      CoherenceInvariant(procs, init);
      var s := Run(Init(procs), init);
      forall q ensures CoherentAt(Step(s, e), q) {
        match e
        case Store(_, _, _, _, _, _) => StoreKeepsCoherent(s, e, q);
        case Lookup(_, _, _, _, _) => StoreKeepsCoherent(s, e, q);
        case Invalidate(_, _, _, _) => InvalidateKeepsCoherent(s, e, q);
        case Deliver(_, _) => DeliverKeepsCoherent(s, e, q);
      }
    }
  }

  /** Once all broadcasts are delivered, no process holds a key the shared hash has lost. */
  lemma {:induction false} QuiescentTablesAreShared(procs: set<nat>, es: seq<Event>, p: nat, key: CacheKey)
    requires forall i :: 0 <= i < |es| ==> Orderly(es[i])
    requires var s := Run(Init(procs), es);
             p in s.local && s.inbox[p] == [] && key in s.local[p]
    ensures FieldForKey(key) in Run(Init(procs), es).shared
  {
    CoherenceInvariant(procs, es);
    assert CoherentAt(Run(Init(procs), es), p);
  }

  /** What a store that misses Redis does to the invariant. */
  lemma {:induction false} MissedStoreBreaksIff(s: State, p: nat, key: CacheKey, path: string, exitCode: int, now: real)
    requires s.Wf() && Coherent(s) && p in s.local && PipeFree(key)
    ensures Coherent(Step(s, Store(p, key, path, exitCode, now, false))) <==>
            FieldForKey(key) in s.shared || Pending(s.inbox[p], p, key)
  {
    var t := Step(s, Store(p, key, path, exitCode, now, false));
    if FieldForKey(key) in s.shared || Pending(s.inbox[p], p, key) {
      forall q ensures CoherentAt(t, q) {
        assert CoherentAt(s, q);
      }
    } else {
      assert !CoherentAt(t, p);
    }
  }

  /** What a delete that reaches Redis without being broadcast does to it. */
  lemma {:induction false} SilentDeleteBreaksIff(s: State, p: nat, scope: Scope)
    requires s.Wf() && Coherent(s) && p in s.local && PlainScope(scope)
    ensures Coherent(Step(s, Invalidate(p, scope, true, false))) <==>
            forall q, k :: q in s.local && q != p && k in s.local[q] && scope.Covers(k) ==> Pending(s.inbox[q], q, k)
  {
    var t := Step(s, Invalidate(p, scope, true, false));
    forall q, k | q in s.local && k in s.local[q] ensures FieldForKey(k) in t.shared <==> FieldForKey(k) in s.shared && !scope.Covers(k) {
      assert CoherentAt(s, q);
      PatternIsExact(scope, k);
    }
    if Coherent(t) {
      forall q, k | q in s.local && q != p && k in s.local[q] && scope.Covers(k) ensures Pending(s.inbox[q], q, k) {
        assert CoherentAt(t, q);
      }
    } else {
      var q :| !CoherentAt(t, q);
      assert CoherentAt(s, q);
      var k :| k in t.local[q] && !(FieldForKey(k) in t.shared || Pending(t.inbox[q], q, k));
      assert k in s.local[q] && scope.Covers(k) && q != p;
    }
  }

  /** A delivered broadcast removes what it names exactly when it leaves no name empty; receivers drop it otherwise. */
  lemma {:induction false} BroadcastWorksIffNamed(s: State, p: nat, q: nat, scope: Scope, key: CacheKey)
    requires s.Wf() && p in s.local && q in s.local && p != q && !scope.OneKey?
    requires scope.Covers(key) && key in s.local[q]
    ensures var t := Step(Step(s, Invalidate(p, scope, true, true)), Deliver(q, |s.inbox[q]|));
            && t.inbox[q] == s.inbox[q]
            && (key !in t.local[q] <==> scope.step != "" && (scope.OneSample? ==> scope.sampleId != ""))
  {
    var u := Step(s, Invalidate(p, scope, true, true));
    assert u.inbox[q] == s.inbox[q] + [Message(p, scope)] && u.local[q] == s.local[q];
    assert u.inbox[q][|s.inbox[q]|] == Message(p, scope);
  }

  /** So `invalidate_step("")` takes the shared entry and leaves a peer's copy. */
  lemma {:induction false} EmptyStepIsNeverDropped(s: State, p: nat, q: nat, key: CacheKey)
    requires s.Wf() && p in s.local && q in s.local && p != q
    requires key.step == "" && key in s.local[q]
    ensures var t := Step(Step(s, Invalidate(p, WholeStep(""), true, true)), Deliver(q, |s.inbox[q]|));
            t.inbox[q] == s.inbox[q] && key in t.local[q] && FieldForKey(key) !in t.shared
  {
    BroadcastWorksIffNamed(s, p, q, WholeStep(""), key);
    LiteralThenStar("|", FieldForKey(key));
    assert "|" + "*" == Pattern(WholeStep(""));
    FieldSplits(key);
  }

  /** A process's own broadcast, delivered late, spares what it has rebuilt since; a peer's copy made since is taken. */
  lemma {:induction false} OwnBroadcastSparesRebuild(s: State, p: nat, q: nat, step: string, key: CacheKey, path: string, now: real, onDisk: set<string>)
    requires s.Wf() && p in s.local && q in s.local && p != q
    requires step != "" && key.step == step && key !in s.local[q] && path in onDisk
    ensures var s1 := Step(s, Invalidate(p, WholeStep(step), true, true));
            var s2 := Step(s1, Store(p, key, path, 0, now, true));
            var s3 := Step(s2, Lookup(q, key, onDisk, now, true));
            var s4 := Step(s3, Deliver(p, |s.inbox[p]|));
            var s5 := Step(s4, Deliver(q, |s.inbox[q]|));
            && key in s3.local[q] && s3.local[q][key].path == path
            && key in s5.local[p] && s5.local[p][key] == Row(key, path, now, now, 0)
            && key !in s5.local[q]
            && FieldForKey(key) in s5.shared && s5.shared[FieldForKey(key)] == SharedEntry(path, 0)
  {
    var m := Message(p, WholeStep(step));
    var s1 := Step(s, Invalidate(p, WholeStep(step), true, true));
    assert s1.inbox[p] == s.inbox[p] + [m] && s1.inbox[q] == s.inbox[q] + [m];
    assert s1.inbox[p][|s.inbox[p]|] == m && s1.inbox[q][|s.inbox[q]|] == m;
  }

  /** No delivery takes a key that its message does not name. */
  lemma {:induction false} DeliverySparesOthers(s: State, p: nat, i: nat, q: nat, key: CacheKey)
    requires s.Wf() && p in s.local && q in s.local && i < |s.inbox[p]| && key in s.local[q]
    ensures var t, m := Step(s, Deliver(p, i)), s.inbox[p][i];
            q != p || m.originator == p || (m.scope.WholeStep? && key.step != m.scope.step) || (m.scope.OneSample? && (key.step != m.scope.step || key.sampleId != m.scope.sampleId)) ==>
              key in t.local[q] && t.local[q][key] == s.local[q][key] && t.shared == s.shared
  {
  }

  // ---------------------------------------------------------------------
  // What a hit means
  // ---------------------------------------------------------------------

  /** Some process stored `path` successfully under a key with this field. */
  ghost predicate Stored(es: seq<Event>, field: string, path: string) {
    exists i :: 0 <= i < |es| && es[i].Store? && es[i].exitCode == 0 && es[i].path == path && FieldForKey(es[i].key) == field
  }

  ghost predicate Sourced(s: State, es: seq<Event>) {
    && (forall p, k :: p in s.local && k in s.local[p] && s.local[p][k].exitCode == 0 ==> Stored(es, FieldForKey(k), s.local[p][k].path))
    && (forall f :: f in s.shared && s.shared[f].exitCode == 0 ==> Stored(es, f, s.shared[f].path))
  }

  lemma StoredGrows(es: seq<Event>, e: Event, field: string, path: string)
    requires Stored(es, field, path)
    ensures Stored(es + [e], field, path)
  {
    var i :| 0 <= i < |es| && es[i].Store? && es[i].exitCode == 0 && es[i].path == path && FieldForKey(es[i].key) == field;
    assert (es + [e])[i] == es[i];
  }

  lemma LocalStaysSourced(s: State, es: seq<Event>, e: Event, p: nat, k: CacheKey)
    requires s.Wf() && Sourced(s, es)
    requires var t := Step(s, e); p in t.local && k in t.local[p] && t.local[p][k].exitCode == 0
    ensures Stored(es + [e], FieldForKey(k), Step(s, e).local[p][k].path)
  {
    var path := Step(s, e).local[p][k].path;
    if k in s.local[p] && s.local[p][k] == Step(s, e).local[p][k] {
      StoredGrows(es, e, FieldForKey(k), path);
    } else {
      match e
      case Store(_, _, _, _, _, _) => assert (es + [e])[|es|] == e;
      case Lookup(_, _, _, _, _) => StoredGrows(es, e, FieldForKey(k), path);
      case _ => assert false;
    }
  }

  lemma SharedStaysSourced(s: State, es: seq<Event>, e: Event, f: string)
    requires s.Wf() && Sourced(s, es)
    requires var t := Step(s, e); f in t.shared && t.shared[f].exitCode == 0
    ensures Stored(es + [e], f, Step(s, e).shared[f].path)
  {
    if f in s.shared && s.shared[f] == Step(s, e).shared[f] {
      StoredGrows(es, e, f, s.shared[f].path);
    } else {
      assert e.Store?;
      assert (es + [e])[|es|] == e;
    }
  }

  lemma {:induction false} EveryEntryIsSourced(procs: set<nat>, es: seq<Event>)
    ensures Sourced(Run(Init(procs), es), es)
  {
    if es != [] {
      var init, e := es[..|es| - 1], es[|es| - 1];
      assert es == init + [e];
      EveryEntryIsSourced(procs, init);
      var s := Run(Init(procs), init);
      var t := Step(s, e);
      forall p, k | p in t.local && k in t.local[p] && t.local[p][k].exitCode == 0
        ensures Stored(es, FieldForKey(k), t.local[p][k].path) {
        LocalStaysSourced(s, init, e, p, k);
      }
      forall f | f in t.shared && t.shared[f].exitCode == 0 ensures Stored(es, f, t.shared[f].path) {
        SharedStaysSourced(s, init, e, f);
      }
    }
  }

  /** Outages and late messages included, a hit is always the output of a successful run of the same field. */
  lemma {:induction false} HitsAreSound(procs: set<nat>, es: seq<Event>, p: nat, key: CacheKey, onDisk: set<string>, up: bool)
    requires p in procs
    requires var s := Run(Init(procs), es); Answer(s.local[p], s.shared, key, onDisk, up).Some?
    ensures var s := Run(Init(procs), es);
            var path := Answer(s.local[p], s.shared, key, onDisk, up).value;
            path in onDisk && Stored(es, FieldForKey(key), path)
  {
    EveryEntryIsSourced(procs, es);
  }

  /** The event may change what the shared hash says about the field. */
  predicate Touches(e: Event, field: string) {
    match e
    case Store(_, key, _, _, _, _) => FieldForKey(key) == field
    case Invalidate(_, scope, _, _) => !scope.OneKey? && GlobMatch(Pattern(scope), field)
    case _ => false
  }

  lemma {:induction false} SharedEntrySurvives(s: State, es: seq<Event>, field: string)
    requires s.Wf() && field in s.shared
    requires forall i :: 0 <= i < |es| ==> !Touches(es[i], field)
    ensures field in Run(s, es).shared && Run(s, es).shared[field] == s.shared[field]
  {
    if es != [] {
      SharedEntrySurvives(s, es[..|es| - 1], field);
      assert !Touches(es[|es| - 1], field);
    }
  }

  /**
   After a successful shared store every process hits, whatever else happens and
   however late old broadcasts arrive, until something covers the field again.
   */
  lemma {:induction false} StoreIsVisibleToAll(s: State, p: nat, key: CacheKey, path: string, now: real, later: seq<Event>, q: nat, reader: CacheKey, onDisk: set<string>)
    requires s.Wf() && p in s.local && q in s.local
    requires FieldForKey(reader) == FieldForKey(key) && path in onDisk
    requires forall i :: 0 <= i < |later| ==> !Touches(later[i], FieldForKey(key))
    ensures var t := Run(Step(s, Store(p, key, path, 0, now, true)), later);
            Answer(t.local[q], t.shared, reader, onDisk, true).Some?
  {
    StoreIsShared(s, p, key, path, now);
    var u := Step(s, Store(p, key, path, 0, now, true));
    SharedEntrySurvives(u, later, FieldForKey(key));
    var t := Run(u, later);
    SharedAnswers(t.local[q], t.shared, reader, path, onDisk);
  }

  lemma StoreIsShared(s: State, p: nat, key: CacheKey, path: string, now: real)
    requires s.Wf() && p in s.local
    ensures var u := Step(s, Store(p, key, path, 0, now, true));
            u.Wf() && FieldForKey(key) in u.shared && u.shared[FieldForKey(key)] == SharedEntry(path, 0)
  {
  }

  lemma SharedAnswers(local: Table, shared: Shared, key: CacheKey, path: string, onDisk: set<string>)
    requires FieldForKey(key) in shared && shared[FieldForKey(key)] == SharedEntry(path, 0) && path in onDisk
    ensures Answer(local, shared, key, onDisk, true).Some?
  {
  }

  /** The row of a key is the old one or a copy of the stored output. */
  ghost predicate OldOrNew(u: State, t: State, q: nat, reader: CacheKey, path: string)
    requires u.Wf() && t.Wf()
  {
    q in u.local && q in t.local &&
    (reader in t.local[q] ==>
       || (reader in u.local[q] && t.local[q][reader] == u.local[q][reader])
       || (t.local[q][reader].path == path && t.local[q][reader].exitCode == 0))
  }

  lemma {:induction false} RowsAreOldOrNew(u: State, es: seq<Event>, q: nat, reader: CacheKey, path: string)
    requires u.Wf() && q in u.local
    requires FieldForKey(reader) in u.shared && u.shared[FieldForKey(reader)] == SharedEntry(path, 0)
    requires forall i :: 0 <= i < |es| ==> !Touches(es[i], FieldForKey(reader))
    ensures OldOrNew(u, Run(u, es), q, reader, path)
  {
    if es != [] {
      var init, e := es[..|es| - 1], es[|es| - 1];
      RowsAreOldOrNew(u, init, q, reader, path);
      SharedEntrySurvives(u, init, FieldForKey(reader));
      OneStepOldOrNew(u, Run(u, init), e, q, reader, path);
    }
  }

  lemma OneStepOldOrNew(u: State, s: State, e: Event, q: nat, reader: CacheKey, path: string)
    requires u.Wf() && s.Wf() && OldOrNew(u, s, q, reader, path) && !Touches(e, FieldForKey(reader))
    requires FieldForKey(reader) in s.shared && s.shared[FieldForKey(reader)] == SharedEntry(path, 0)
    ensures OldOrNew(u, Step(s, e), q, reader, path)
  {
  }

  /**
   After a successful store a process answers with the newest output exactly when it holds no
   older usable copy; until something touches the field, what it holds is what it held or the newest.
   */
  lemma {:induction false} NewestIsAnsweredIff(s: State, p: nat, key: CacheKey, path: string, now: real, later: seq<Event>, q: nat, reader: CacheKey, onDisk: set<string>)
    requires s.Wf() && p in s.local && q in s.local
    requires FieldForKey(reader) == FieldForKey(key) && path in onDisk
    requires forall i :: 0 <= i < |later| ==> !Touches(later[i], FieldForKey(key))
    ensures var u := Step(s, Store(p, key, path, 0, now, true));
            var t := Run(u, later);
            && (Answer(t.local[q], t.shared, reader, onDisk, true) == Some(path) <==>
                LocalAnswer(t.local[q], reader, onDisk) in {None, Some(path)})
            && LocalAnswer(t.local[q], reader, onDisk) in {None, LocalAnswer(u.local[q], reader, onDisk), Some(path)}
  {
    StoreIsShared(s, p, key, path, now);
    var u := Step(s, Store(p, key, path, 0, now, true));
    SharedEntrySurvives(u, later, FieldForKey(key));
    RowsAreOldOrNew(u, later, q, reader, path);
  }

  /** The condition before the store: a peer answers with the newest output if and only if it held no older usable copy, and then it keeps doing so. */
  lemma {:induction false} FreshPeerSeesNewest(s: State, p: nat, key: CacheKey, path: string, now: real, later: seq<Event>, q: nat, reader: CacheKey, onDisk: set<string>)
    requires s.Wf() && p in s.local && q in s.local
    requires FieldForKey(reader) == FieldForKey(key) && path in onDisk
    requires forall i :: 0 <= i < |later| ==> !Touches(later[i], FieldForKey(key))
    ensures var u := Step(s, Store(p, key, path, 0, now, true));
            var t := Run(u, later);
            var noOlderCopy := (q == p && reader == key) || LocalAnswer(s.local[q], reader, onDisk) in {None, Some(path)};
            && (Answer(u.local[q], u.shared, reader, onDisk, true) == Some(path) <==> noOlderCopy)
            && (noOlderCopy ==> Answer(t.local[q], t.shared, reader, onDisk, true) == Some(path))
  {
    NewestIsAnsweredIff(s, p, key, path, now, [], q, reader, onDisk);
    NewestIsAnsweredIff(s, p, key, path, now, later, q, reader, onDisk);
  }

  /** The hit need not be the newest output: a re-store is not broadcast, so copies made before it stay. */
  lemma {:induction false} OldCopySurvivesReStore(s: State, p: nat, q: nat, key: CacheKey, a: string, b: string, onDisk: set<string>, now: real)
    requires s.Wf() && p in s.local && q in s.local && p != q && key !in s.local[q] && a in onDisk
    ensures var s1 := Step(s, Store(p, key, a, 0, now, true));
            var s2 := Step(s1, Lookup(q, key, onDisk, now, true));
            var s3 := Step(s2, Store(p, key, b, 0, now, true));
            && Answer(s3.local[q], s3.shared, key, onDisk, true) == Some(a)
            && s3.shared[FieldForKey(key)] == SharedEntry(b, 0) && s3.inbox == s.inbox
  {
  }
}
