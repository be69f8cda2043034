/**
 The cache shared by the processes of one campaign (osimflow/distributed_cache.py):
 a local table per process, one Redis hash, and invalidation broadcasts.
 */
module DistributedCache {
  import opened Wrappers
  import opened SqliteCache
  import opened CircuitBreaking
  import Text

  // ---------------------------------------------------------------------
  // Redis fields and patterns
  // ---------------------------------------------------------------------

  function Components(key: CacheKey): (parts: seq<string>)
    ensures |parts| == 7
  {
    [key.step, key.sampleId, key.openstudioVersion, key.inputsSha256, key.codeSha256, key.containerDigest,
     Text.Signed(key.generation)]
  }

  /** `_field_for_key`; `n_samples` is not part of it. */
  function FieldForKey(key: CacheKey): string {
    Text.Join('|', Components(key))
  }

  /** The seven parts of the field, in this order. */
  lemma {:induction false} FieldIs(key: CacheKey)
    ensures FieldForKey(key) ==
            key.step + "|" + (key.sampleId + "|" + (key.openstudioVersion + "|" + (key.inputsSha256 + "|" + (key.codeSha256 + "|" +
            (key.containerDigest + "|" + Text.Signed(key.generation))))))
  {
    var p := Components(key);
    assert p[1..] == p[1..7] && p[1..][1..] == p[2..] && p[2..][1..] == p[3..] && p[3..][1..] == p[4..];
    assert p[4..][1..] == p[5..] && p[5..][1..] == p[6..] && |p[6..]| == 1;
    assert Text.Join('|', p[6..]) == p[6];
    assert Text.Join('|', p[5..]) == p[5] + "|" + p[6];
    assert Text.Join('|', p[4..]) == p[4] + "|" + (p[5] + "|" + p[6]);
    assert Text.Join('|', p[3..]) == p[3] + "|" + (p[4] + "|" + (p[5] + "|" + p[6]));
    assert Text.Join('|', p[2..]) == p[2] + "|" + (p[3] + "|" + (p[4] + "|" + (p[5] + "|" + p[6])));
    assert Text.Join('|', p[1..]) == p[1] + "|" + (p[2] + "|" + (p[3] + "|" + (p[4] + "|" + (p[5] + "|" + p[6]))));
    assert Text.Join('|', p) == p[0] + "|" + Text.Join('|', p[1..]);
  }

  predicate PipeFree(key: CacheKey) {
    && '|' !in key.step && '|' !in key.sampleId && '|' !in key.openstudioVersion
    && '|' !in key.inputsSha256 && '|' !in key.codeSha256 && '|' !in key.containerDigest
  }

  predicate SameModuloSamples(a: CacheKey, b: CacheKey) {
    a.(nSamples := 0) == b.(nSamples := 0)
  }

  /** Two pipe-free keys share a field exactly when they differ in `n_samples` at most. */
  lemma {:induction false} FieldIsInjective(a: CacheKey, b: CacheKey)
    requires PipeFree(a) && PipeFree(b)
    ensures FieldForKey(a) == FieldForKey(b) <==> SameModuloSamples(a, b)
  {
    var p, q := Components(a), Components(b);
    if FieldForKey(a) == FieldForKey(b) {
      Text.JoinInjective('|', p, q);
      assert p[0] == q[0] && p[1] == q[1] && p[2] == q[2] && p[3] == q[3] && p[4] == q[4] && p[5] == q[5] && p[6] == q[6];
      Text.SignedInjective(a.generation, b.generation);
    }
  }

  /** The glob of HSCAN, without character classes. */
  predicate GlobMatch(p: string, s: string)
    decreases |p| + |s|
  {
    if p == "" then s == ""
    else if p[0] == '*' then GlobMatch(p[1..], s) || (s != "" && GlobMatch(p, s[1..]))
    else if s == "" then false
    else if p[0] == '?' then GlobMatch(p[1..], s[1..])
    else if p[0] == '\\' && |p| >= 2 then p[1] == s[0] && GlobMatch(p[2..], s[1..])
    else p[0] == s[0] && GlobMatch(p[1..], s[1..])
  }

  /** Free of the separator and of glob characters. */
  predicate PlainName(s: string) {
    forall c :: c in s ==> c != '|' && c != '*' && c != '?' && c != '[' && c != ']' && c != '\\'
  }

  /** `step|*` and `step|sample|*`. */
  function Pattern(scope: Scope): string
    requires !scope.OneKey?
  {
    match scope
    case WholeStep(step) => step + "|" + "*"
    case OneSample(step, sampleId) => step + "|" + sampleId + "|" + "*"
  }

  predicate PlainScope(scope: Scope) {
    match scope
    case OneKey(_) => false
    case WholeStep(step) => PlainName(step)
    case OneSample(step, sampleId) => PlainName(step) && PlainName(sampleId)
  }

  /** The names a receiver acts upon. */
  predicate Named(scope: Scope) {
    match scope
    case OneKey(_) => false
    case WholeStep(step) => step != ""
    case OneSample(step, sampleId) => step != "" && sampleId != ""
  }

  lemma {:induction false} StarMatchesAll(s: string)
    ensures GlobMatch("*", s)
  {
    if s != "" {
      StarMatchesAll(s[1..]);
    } else {
      assert GlobMatch("*"[1..], s);
    }
  }

  lemma {:induction false} LiteralThenStar(lit: string, s: string)
    requires forall c :: c in lit ==> c != '*' && c != '?' && c != '\\'
    ensures GlobMatch(lit + "*", s) <==> lit <= s
  {
    assert lit != "" ==> (lit + "*")[0] == lit[0] && lit[0] in lit;
    if lit == "" {
      assert lit + "*" == "*";
      StarMatchesAll(s);
    } else if s != "" {
      assert forall c :: c in lit[1..] ==> c in lit;
      assert (lit + "*")[1..] == lit[1..] + "*";
      LiteralThenStar(lit[1..], s[1..]);
      assert lit <= s <==> lit[0] == s[0] && lit[1..] <= s[1..] by {
        if lit[0] == s[0] && lit[1..] <= s[1..] {
          assert lit == [lit[0]] + lit[1..];
        }
      }
    }
  }

  lemma FieldSplits(key: CacheKey)
    ensures FieldForKey(key) == key.step + "|" + (key.sampleId + "|" + Text.Join('|', Components(key)[2..]))
  {
    var p := Components(key);
    assert p[1..][1..] == p[2..];
    assert Text.Join('|', p[1..]) == p[1] + "|" + Text.Join('|', p[2..]);
    assert Text.Join('|', p) == p[0] + "|" + Text.Join('|', p[1..]);
    assert p[0] + "|" + (p[1] + "|" + Text.Join('|', p[2..])) == p[0] + "|" + Text.Join('|', p[1..]);
  }

  lemma PrefixOfSplit(name: string, head: string, rest: string)
    requires '|' !in name && '|' !in head
    ensures name + "|" <= head + "|" + rest <==> name == head
  {
    var s := head + "|" + rest;
    if name + "|" <= s {
      var tail := s[|name| + 1..];
      assert s == name + "|" + tail;
      assert s == name + ['|'] + tail == head + ['|'] + rest;
      Text.SplitUnique('|', name, tail, head, rest);
    }
  }

  /** The two patterns select exactly the fields of the keys the invalidation names. */
  lemma {:induction false} PatternIsExact(scope: Scope, key: CacheKey)
    requires PlainScope(scope) && PipeFree(key)
    ensures GlobMatch(Pattern(scope), FieldForKey(key)) <==> scope.Covers(key)
  {
    FieldSplits(key);
    var rest := Text.Join('|', Components(key)[2..]);
    match scope
    case WholeStep(step) =>
      LiteralThenStar(step + "|", FieldForKey(key));
      PrefixOfSplit(step, key.step, key.sampleId + "|" + rest);
    case OneSample(step, sampleId) =>
      var lit := step + "|" + sampleId + "|";
      LiteralThenStar(lit, FieldForKey(key));
      var f := FieldForKey(key);
      if key.step == step {
        assert f == (step + "|") + (key.sampleId + "|" + rest);
        assert lit == (step + "|") + (sampleId + "|");
        assert lit <= f <==> sampleId + "|" <= key.sampleId + "|" + rest by {
          assert f[|step| + 1..] == key.sampleId + "|" + rest;
          assert lit[|step| + 1..] == sampleId + "|";
        }
        PrefixOfSplit(sampleId, key.sampleId, rest);
      } else {
        PrefixOfSplit(step, key.step, key.sampleId + "|" + rest);
        assert step + "|" <= lit;
      }
  }

  // ---------------------------------------------------------------------
  // Effect of each operation on local table and shared hash
  // ---------------------------------------------------------------------

  datatype SharedEntry = SharedEntry(path: string, exitCode: int)

  type Table = map<CacheKey, Row>
  type Shared = map<string, SharedEntry>

  datatype Message = Message(originator: nat, scope: Scope)

  function LocalAnswer(local: Table, key: CacheKey, onDisk: set<string>): Option<string> {
    if key in local && local[key].exitCode == 0 && local[key].path in onDisk then Some(local[key].path) else None
  }

  function SharedAnswer(shared: Shared, key: CacheKey, onDisk: set<string>): Option<string> {
    var f := FieldForKey(key);
    if f in shared && shared[f].exitCode == 0 && shared[f].path in onDisk then Some(shared[f].path) else None
  }

  /** Local table first, then Redis if it can be reached. */
  function Answer(local: Table, shared: Shared, key: CacheKey, onDisk: set<string>, up: bool): Option<string> {
    if LocalAnswer(local, key, onDisk).Some? then LocalAnswer(local, key, onDisk)
    else if up then SharedAnswer(shared, key, onDisk)
    else None
  }

  /** A shared hit is copied into the local table. */
  function Backfilled(local: Table, shared: Shared, key: CacheKey, onDisk: set<string>, up: bool, now: real): Table {
    if LocalAnswer(local, key, onDisk).None? && up && SharedAnswer(shared, key, onDisk).Some?
    then local[key := Row(key, SharedAnswer(shared, key, onDisk).value, now, now, 0)]
    else local
  }

  function SharedAfterInvalidate(shared: Shared, scope: Scope): Shared
    requires !scope.OneKey?
  {
    map f | f in shared && !GlobMatch(Pattern(scope), f) :: shared[f]
  }

  /** `_handle_invalidation`: own messages and empty names are dropped. */
  function AfterMessage(local: Table, self: nat, m: Message): Table {
    if m.originator == self then local
    else
      match m.scope
      case OneKey(_) => local
      case WholeStep(step) => if step == "" then local else Kept(local, m.scope)
      case OneSample(step, sampleId) => if step == "" || sampleId == "" then local else Kept(local, m.scope)
  }

  /** A usable local copy answers; else, if Redis can be reached, a usable shared entry; an outage hides the shared hash only. */
  lemma {:induction false} AnswerIs(local: Table, shared: Shared, key: CacheKey, onDisk: set<string>, path: string)
    ensures var mine := key in local && local[key].exitCode == 0 && local[key].path in onDisk;
            var theirs := FieldForKey(key) in shared && shared[FieldForKey(key)].exitCode == 0 && shared[FieldForKey(key)].path in onDisk;
            && (Answer(local, shared, key, onDisk, false) == Some(path) <==> mine && local[key].path == path)
            && (Answer(local, shared, key, onDisk, true) == Some(path) <==>
                (mine && local[key].path == path) || (!mine && theirs && shared[FieldForKey(key)].path == path))
  {
  }

  /** A copy made on a shared hit answers the same by itself, through any outage; no other key is touched. */
  lemma {:induction false} CopyAnswersAlone(local: Table, shared: Shared, key: CacheKey, onDisk: set<string>, now: real, other: CacheKey)
    ensures var after := Backfilled(local, shared, key, onDisk, true, now);
            && Answer(after, map[], key, onDisk, false) == Answer(local, shared, key, onDisk, true)
            && (other != key ==> (other in after <==> other in local) && (other in after && other in local ==> after[other] == local[other]))
    ensures Backfilled(local, shared, key, onDisk, false, now) == local
  {
  }

  /** An invalidation takes from the shared hash exactly the fields of the keys it names, and leaves the others as they are. */
  lemma {:induction false} InvalidationIsExact(shared: Shared, step: string, sampleId: string, key: CacheKey)
    requires PlainName(step) && PlainName(sampleId) && PipeFree(key)
    ensures var f := FieldForKey(key);
            && (f in SharedAfterInvalidate(shared, WholeStep(step)) <==> f in shared && key.step != step)
            && (f in SharedAfterInvalidate(shared, OneSample(step, sampleId)) <==> f in shared && (key.step != step || key.sampleId != sampleId))
            && (f in SharedAfterInvalidate(shared, WholeStep(step)) ==> SharedAfterInvalidate(shared, WholeStep(step))[f] == shared[f])
            && (f in SharedAfterInvalidate(shared, OneSample(step, sampleId)) ==>
                  SharedAfterInvalidate(shared, OneSample(step, sampleId))[f] == shared[f])
  {
    PatternIsExact(WholeStep(step), key);
    PatternIsExact(OneSample(step, sampleId), key);
  }

  /** A peer's message removes the keys it names and no other; a process's own message removes nothing. */
  lemma {:induction false} MessageRemoves(local: Table, self: nat, sender: nat, step: string, sampleId: string, key: CacheKey)
    requires step != "" && sampleId != ""
    ensures var whole := AfterMessage(local, self, Message(sender, WholeStep(step)));
            var one := AfterMessage(local, self, Message(sender, OneSample(step, sampleId)));
            && (key in whole <==> key in local && (sender == self || key.step != step))
            && (key in one <==> key in local && (sender == self || key.step != step || key.sampleId != sampleId))
            && (key in whole ==> whole[key] == local[key]) && (key in one ==> one[key] == local[key])
  {
  }

  /** One gated Redis operation as the breaker sees it. */
  function AfterGatedOp(c: Config, b: Breaker, now: real, redisOk: bool): Breaker {
    var a := AfterAllow(c, b, now);
    if !Admits(c, b, now) then a else if redisOk then AfterSuccess(a) else AfterFailure(c, a, now)
  }

  // ---------------------------------------------------------------------
  // One process
  // ---------------------------------------------------------------------

  /** The Redis hash of the campaign. */
  class SharedStore {
    var entries: Shared

    constructor ()
      ensures entries == map[]
    {
      entries := map[];
    }
  }

  class Cache {
    const local: SQLiteCache
    const redis: SharedStore
    const breaker: CircuitBreaker
    const instanceId: nat

    ghost predicate Valid()
      reads local
    {
      local.Valid() && breaker.Valid()
    }

    constructor (redis: SharedStore, instanceId: nat)
      ensures Valid() && Entries(local.rows) == map[] && breaker.View() == FRESH && breaker.config == Config(5, 30.0)
      ensures this.redis == redis && this.instanceId == instanceId && fresh(local) && fresh(breaker)
    {
      this.local := new SQLiteCache();
      this.redis := redis;
      this.breaker := new CircuitBreaker(5, 30.0);
      this.instanceId := instanceId;
    }

    method Store(key: CacheKey, path: string, exitCode: int, now: real, redisOk: bool)
      requires Valid()
      modifies local, redis, breaker
      ensures Valid()
      ensures Entries(local.rows) == Entries(old(local.rows))[key := Row(key, path, now, now, exitCode)]
      ensures redis.entries ==
              if Admits(breaker.config, old(breaker.View()), now) && redisOk
              then old(redis.entries)[FieldForKey(key) := SharedEntry(path, exitCode)] else old(redis.entries)
      ensures breaker.View() == AfterGatedOp(breaker.config, old(breaker.View()), now, redisOk)
    {
      local.Store(key, path, exitCode, now);
      var admitted := breaker.Allow(now);
      if !admitted {
        return;
      }
      if redisOk {
        redis.entries := redis.entries[FieldForKey(key) := SharedEntry(path, exitCode)];
        breaker.RecordSuccess();
      } else {
        breaker.RecordFailure(now);
      }
    }

    method SharedLookup(key: CacheKey, onDisk: set<string>, now: real, redisOk: bool) returns (r: Option<string>)
      modifies breaker
      ensures r == if Admits(breaker.config, old(breaker.View()), now) && redisOk then SharedAnswer(redis.entries, key, onDisk) else None
      ensures breaker.View() == AfterGatedOp(breaker.config, old(breaker.View()), now, redisOk)
    {
      var admitted := breaker.Allow(now);
      if !admitted {
        return None;
      }
      if !redisOk {
        breaker.RecordFailure(now);
        return None;
      }
      breaker.RecordSuccess();
      r := SharedAnswer(redis.entries, key, onDisk);
    }

    /** `lookup`: the breaker is consulted only when the local table misses. */
    method Lookup(key: CacheKey, onDisk: set<string>, now: real, redisOk: bool) returns (r: Option<string>)
      requires Valid()
      modifies local, breaker
      ensures Valid()
      ensures var up := Admits(breaker.config, old(breaker.View()), now) && redisOk;
              && r == Answer(Entries(old(local.rows)), redis.entries, key, onDisk, up)
              && Entries(local.rows) == Backfilled(Entries(old(local.rows)), redis.entries, key, onDisk, up, now)
      ensures LocalAnswer(Entries(old(local.rows)), key, onDisk).Some? ==> breaker.View() == old(breaker.View())
      ensures LocalAnswer(Entries(old(local.rows)), key, onDisk).None? ==>
                breaker.View() == AfterGatedOp(breaker.config, old(breaker.View()), now, redisOk)
      ensures local.hits == old(local.hits) + (if r.Some? then 1 else 0)
      ensures local.misses == old(local.misses) + (if r.Some? then 0 else 1)
    {
      r := local.Lookup(key, onDisk);
      if r.Some? {
        return;
      }
      var shared := SharedLookup(key, onDisk, now, redisOk);
      if shared.None? {
        return None;
      }
      local.Store(key, shared.value, 0, now);
      local.NoteExternalHit();
      r := shared;
    }

    method SharedInvalidate(scope: Scope, now: real, redisOk: bool)
      requires !scope.OneKey?
      modifies redis, breaker
      ensures redis.entries ==
              if Admits(breaker.config, old(breaker.View()), now) && redisOk
              then SharedAfterInvalidate(old(redis.entries), scope) else old(redis.entries)
      ensures breaker.View() == AfterGatedOp(breaker.config, old(breaker.View()), now, redisOk)
    {
      var admitted := breaker.Allow(now);
      if admitted {
        if redisOk {
          redis.entries := SharedAfterInvalidate(redis.entries, scope);
          breaker.RecordSuccess();
        } else {
          breaker.RecordFailure(now);
        }
      }
    }

    /** `_publish`: the broadcast asks the breaker again and reports its own outcome. */
    method Publish(scope: Scope, now: real, redisOk: bool) returns (message: Option<Message>)
      modifies breaker
      ensures message == if Admits(breaker.config, old(breaker.View()), now) && redisOk then Some(Message(instanceId, scope)) else None
      ensures breaker.View() == AfterGatedOp(breaker.config, old(breaker.View()), now, redisOk)
    {
      var admitted := breaker.Allow(now);
      if !admitted {
        return None;
      }
      if !redisOk {
        breaker.RecordFailure(now);
        return None;
      }
      breaker.RecordSuccess();
      message := Some(Message(instanceId, scope));
    }

    /** Delete at `now`, broadcast at `later`; each is gated on its own. */
    method InvalidateStep(step: string, now: real, redisOk: bool, later: real, publishOk: bool)
      returns (n: nat, message: Option<Message>)
      requires Valid()
      modifies local, redis, breaker
      ensures Valid()
      ensures Entries(local.rows) == Kept(Entries(old(local.rows)), WholeStep(step))
      ensures redis.entries ==
              if Admits(breaker.config, old(breaker.View()), now) && redisOk
              then SharedAfterInvalidate(old(redis.entries), WholeStep(step)) else old(redis.entries)
      ensures var between := AfterGatedOp(breaker.config, old(breaker.View()), now, redisOk);
              && message == (if Admits(breaker.config, between, later) && publishOk then Some(Message(instanceId, WholeStep(step))) else None)
              && breaker.View() == AfterGatedOp(breaker.config, between, later, publishOk)
      ensures n == |old(local.rows)| - |local.rows|
    {
      n := local.InvalidateStep(step);
      SharedInvalidate(WholeStep(step), now, redisOk);
      message := Publish(WholeStep(step), later, publishOk);
    }

    method InvalidateSample(step: string, sampleId: string, now: real, redisOk: bool, later: real, publishOk: bool)
      returns (n: nat, message: Option<Message>)
      requires Valid()
      modifies local, redis, breaker
      ensures Valid()
      ensures Entries(local.rows) == Kept(Entries(old(local.rows)), OneSample(step, sampleId))
      ensures redis.entries ==
              if Admits(breaker.config, old(breaker.View()), now) && redisOk
              then SharedAfterInvalidate(old(redis.entries), OneSample(step, sampleId)) else old(redis.entries)
      ensures var between := AfterGatedOp(breaker.config, old(breaker.View()), now, redisOk);
              && message == (if Admits(breaker.config, between, later) && publishOk then Some(Message(instanceId, OneSample(step, sampleId))) else None)
              && breaker.View() == AfterGatedOp(breaker.config, between, later, publishOk)
      ensures n == |old(local.rows)| - |local.rows|
    {
      n := local.InvalidateSample(step, sampleId);
      SharedInvalidate(OneSample(step, sampleId), now, redisOk);
      message := Publish(OneSample(step, sampleId), later, publishOk);
    }

    method HandleInvalidation(m: Message)
      requires Valid()
      modifies local
      ensures Valid()
      ensures Entries(local.rows) == AfterMessage(Entries(old(local.rows)), instanceId, m)
    {
      if m.originator == instanceId {
        return;
      }
      match m.scope {
        case WholeStep(step) =>
          if step != "" {
            var _ := local.InvalidateStep(step);
          }
        case OneSample(step, sampleId) =>
          if step != "" && sampleId != "" {
            var _ := local.InvalidateSample(step, sampleId);
          }
        case OneKey(_) =>
      }
    }
  }

  /** One gate per operation: after an outage the next shared operation past the cooldown reaches Redis again. */
  lemma {:induction false} CacheRecovers(c: Config, b: Breaker, now: real)
    requires c.Valid() && b.phase.Open? && !b.inFlight && now >= b.openedAt + c.cooldown
    ensures Admits(c, b, now) && AfterGatedOp(c, b, now, true).phase.Closed?
    ensures forall later :: Admits(c, AfterGatedOp(c, b, now, true), later)
  {
  }
}
