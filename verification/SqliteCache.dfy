/**
 The per-process resume cache (osimflow/cache.py): a table with a primary key,
 single and batched lookups, and hit/miss counters. `onDisk` is the set of paths
 whose output still exists.
 */
module SqliteCache {
  import opened Wrappers

  datatype CacheKey = CacheKey(
    step: string, sampleId: string, openstudioVersion: string, inputsSha256: string,
    codeSha256: string, containerDigest: string, generation: int, nSamples: int)

  datatype Row = Row(key: CacheKey, path: string, startedAt: real, finishedAt: real, exitCode: int)

  type Rows = seq<Row>

  /** What a DELETE ranges over. */
  datatype Scope = OneKey(key: CacheKey) | WholeStep(step: string) | OneSample(step: string, sampleId: string) {
    predicate Covers(k: CacheKey) {
      match this
      case OneKey(key) => k == key
      case WholeStep(step) => k.step == step
      case OneSample(step, sampleId) => k.step == step && k.sampleId == sampleId
    }
  }

  const LOOKUP_MANY_IN_THRESHOLD := 100

  // ---------------------------------------------------------------------
  // The SQL engine's part
  // ---------------------------------------------------------------------

  /** PRIMARY KEY over all eight columns. */
  predicate PrimaryKey(rows: Rows) {
    forall i, j :: 0 <= i < j < |rows| ==> rows[i].key != rows[j].key
  }

  /** `SELECT ... WHERE step=? AND ...` */
  function SelectOne(rows: Rows, key: CacheKey): (r: Option<Row>)
    ensures r.Some? ==> r.value in rows && r.value.key == key
    ensures r.None? ==> forall row :: row in rows ==> row.key != key
  {
    if rows == [] then None else if rows[0].key == key then Some(rows[0]) else SelectOne(rows[1..], key)
  }

  /** `SELECT ... WHERE (step, ..., n_samples) IN ((?,...), ...)` */
  function SelectIn(rows: Rows, keys: seq<CacheKey>): (r: Rows)
    ensures forall row :: row in r <==> row in rows && row.key in keys
  {
    if rows == [] then [] else (if rows[0].key in keys then [rows[0]] else []) + SelectIn(rows[1..], keys)
  }

  /** `INSERT OR IGNORE` of every key into the temporary table. */
  function TempKeys(keys: seq<CacheKey>): (r: seq<CacheKey>)
    ensures forall k :: k in r <==> k in keys
    ensures forall i, j :: 0 <= i < j < |r| ==> r[i] != r[j]
  {
    if keys == [] then []
    else
      var init := TempKeys(keys[..|keys| - 1]);
      var last := keys[|keys| - 1];
      assert forall k :: k in keys <==> k in keys[..|keys| - 1] || k == last;
      if last in init then init else init + [last]
  }

  /** `keys LEFT JOIN cache_entries USING (...) WHERE output_path IS NOT NULL` */
  function SelectJoin(rows: Rows, keys: seq<CacheKey>): Rows {
    if keys == [] then []
    else (if SelectOne(rows, keys[0]).Some? then [SelectOne(rows, keys[0]).value] else []) + SelectJoin(rows, keys[1..])
  }

  /** `_row_to_cache_dict`; a later row replaces an earlier one. */
  function RowDict(rows: Rows): map<CacheKey, Row> {
    if rows == [] then map[] else RowDict(rows[..|rows| - 1])[rows[|rows| - 1].key := rows[|rows| - 1]]
  }

  /** The table as a dictionary. */
  function Entries(rows: Rows): (m: map<CacheKey, Row>)
    ensures forall k :: k in m <==> SelectOne(rows, k).Some?
    ensures forall k :: k in m ==> m[k] == SelectOne(rows, k).value
  {
    map row | row in rows :: row.key := SelectOne(rows, row.key).value
  }

  function Kept(m: map<CacheKey, Row>, gone: Scope): map<CacheKey, Row> {
    map k | k in m && !gone.Covers(k) :: m[k]
  }

  lemma {:induction false} SelectOneIsTheRow(rows: Rows, row: Row)
    requires PrimaryKey(rows) && row in rows
    ensures SelectOne(rows, row.key) == Some(row)
  {
    var i :| 0 <= i < |rows| && rows[i] == row;
    if i > 0 {
      assert rows[1..][i - 1] == row;
      SelectOneIsTheRow(rows[1..], row);
    }
  }

  lemma {:induction false} RowDictHasEveryRow(rows: Rows)
    ensures forall k :: k in RowDict(rows) <==> exists row :: row in rows && row.key == k
    ensures forall k :: k in RowDict(rows) ==> RowDict(rows)[k] in rows && RowDict(rows)[k].key == k
  {
    if rows != [] {
      var init, last := rows[..|rows| - 1], rows[|rows| - 1];
      RowDictHasEveryRow(init);
      assert forall row :: row in rows <==> row in init || row == last;
    }
  }

  /** What `lookup` answers: a row, successful, with its output on disk. */
  function Hit(rows: Rows, key: CacheKey, onDisk: set<string>): Option<Row> {
    var row := SelectOne(rows, key);
    if row.Some? && row.value.exitCode == 0 && row.value.path in onDisk then row else None
  }

  /** A hit is the row of the key if it records exit code 0 and its output is still there; anything else is a miss. */
  lemma {:induction false} HitIff(rows: Rows, key: CacheKey, onDisk: set<string>, row: Row)
    requires PrimaryKey(rows)
    ensures Hit(rows, key, onDisk) == Some(row) <==> row in rows && row.key == key && row.exitCode == 0 && row.path in onDisk
    ensures Hit(rows, key, onDisk) == None <==>
            forall r :: r in rows && r.key == key ==> r.exitCode != 0 || r.path !in onDisk
  {
    if row in rows && row.key == key {
      SelectOneIsTheRow(rows, row);
    }
    if r :| r in rows && r.key == key {
      SelectOneIsTheRow(rows, r);
    }
  }

  /** The distinct keys of a list that hit, and those that miss. */
  function HitKeys(rows: Rows, keys: seq<CacheKey>, onDisk: set<string>): set<CacheKey> {
    set k | k in keys && Hit(rows, k, onDisk).Some?
  }

  function MissKeys(rows: Rows, keys: seq<CacheKey>, onDisk: set<string>): set<CacheKey> {
    set k | k in keys && Hit(rows, k, onDisk).None?
  }

  // ---------------------------------------------------------------------
  // The two batch strategies
  // ---------------------------------------------------------------------

  lemma {:induction false} JoinMembers(rows: Rows, keys: seq<CacheKey>)
    requires PrimaryKey(rows)
    ensures forall row :: row in SelectJoin(rows, keys) <==> row in rows && row.key in keys
  {
    if keys != [] {
      JoinMembers(rows, keys[1..]);
      assert forall k :: k in keys <==> k == keys[0] || k in keys[1..];
      forall row | row in rows && row.key == keys[0] ensures row in SelectJoin(rows, keys) {
        SelectOneIsTheRow(rows, row);
      }
    }
  }

  lemma {:induction false} InIsDuplicateFree(rows: Rows, keys: seq<CacheKey>)
    requires PrimaryKey(rows)
    ensures forall row :: multiset(SelectIn(rows, keys))[row] <= 1
  {
    if rows != [] {
      InIsDuplicateFree(rows[1..], keys);
      assert rows[0] !in rows[1..] by {
        assert forall j :: 0 < j < |rows| ==> rows[1..][j - 1] == rows[j];
      }
      assert rows[0] !in SelectIn(rows[1..], keys);
    }
  }

  lemma {:induction false} JoinIsDuplicateFree(rows: Rows, keys: seq<CacheKey>)
    requires PrimaryKey(rows)
    requires forall i, j :: 0 <= i < j < |keys| ==> keys[i] != keys[j]
    ensures forall row :: multiset(SelectJoin(rows, keys))[row] <= 1
  {
    if keys != [] {
      assert keys[0] !in keys[1..] by {
        assert forall j :: 0 < j < |keys| ==> keys[1..][j - 1] == keys[j];
      }
      JoinIsDuplicateFree(rows, keys[1..]);
      JoinMembers(rows, keys[1..]);
      assert SelectOne(rows, keys[0]).Some? ==> SelectOne(rows, keys[0]).value !in SelectJoin(rows, keys[1..]);
    }
  }

  /** Tuple-IN and the temporary-table join return the same rows, each once. */
  lemma {:induction false} StrategiesReturnSameRows(rows: Rows, keys: seq<CacheKey>)
    requires PrimaryKey(rows)
    ensures multiset(SelectIn(rows, keys)) == multiset(SelectJoin(rows, TempKeys(keys)))
  {
    var a, b := SelectIn(rows, keys), SelectJoin(rows, TempKeys(keys));
    InIsDuplicateFree(rows, keys);
    JoinIsDuplicateFree(rows, TempKeys(keys));
    JoinMembers(rows, TempKeys(keys));
    forall row ensures multiset(a)[row] == multiset(b)[row] {
      assert row in a <==> row in b;
      assert row in multiset(a) <==> row in a;
      assert row in multiset(b) <==> row in b;
    }
  }

  lemma {:induction false} DictOfSelection(rows: Rows, selected: Rows, keys: seq<CacheKey>)
    requires PrimaryKey(rows)
    requires forall row :: row in selected <==> row in rows && row.key in keys
    ensures forall k :: k in keys ==> (k in RowDict(selected) <==> SelectOne(rows, k).Some?)
    ensures forall k :: k in keys && k in RowDict(selected) ==> SelectOne(rows, k) == Some(RowDict(selected)[k])
  {
    RowDictHasEveryRow(selected);
    forall k | k in keys && k in RowDict(selected) ensures SelectOne(rows, k) == Some(RowDict(selected)[k]) {
      SelectOneIsTheRow(rows, RowDict(selected)[k]);
    }
    forall k | k in keys && SelectOne(rows, k).Some? ensures k in RowDict(selected) {
      assert SelectOne(rows, k).value in selected;
    }
  }

  // ---------------------------------------------------------------------
  // The cache
  // ---------------------------------------------------------------------

  class SQLiteCache {
    var rows: Rows
    var hits: nat
    var misses: nat
    var invalidations: nat

    ghost predicate Valid()
      reads this
    {
      PrimaryKey(rows)
    }

    constructor ()
      ensures Valid() && rows == [] && hits == 0 && misses == 0 && invalidations == 0
    {
      rows := [];
      hits, misses, invalidations := 0, 0, 0;
    }

    method Lookup(key: CacheKey, onDisk: set<string>) returns (r: Option<string>)
      requires Valid()
      modifies this`hits, this`misses
      ensures r == if Hit(rows, key, onDisk).Some? then Some(Hit(rows, key, onDisk).value.path) else None
      ensures hits == old(hits) + (if r.Some? then 1 else 0)
      ensures misses == old(misses) + (if r.Some? then 0 else 1)
    {
      var row := SelectOne(rows, key);
      if row.None? {
        misses := misses + 1;
        return None;
      }
      if row.value.exitCode != 0 {
        misses := misses + 1;
        return None;
      }
      if row.value.path !in onDisk {
        misses := misses + 1;
        return None;
      }
      hits := hits + 1;
      r := Some(row.value.path);
    }

    /** The one read of the batch, by either strategy. */
    method RawHits(keys: seq<CacheKey>) returns (m: map<CacheKey, Row>)
      requires Valid()
      ensures AgreesWithSelects(rows, keys, m)
    {
      var selected: Rows;
      if |keys| <= LOOKUP_MANY_IN_THRESHOLD {
        selected := SelectIn(rows, keys);
      } else {
        selected := SelectJoin(rows, TempKeys(keys));
        JoinMembers(rows, TempKeys(keys));
      }
      m := RowDict(selected);
      DictOfSelection(rows, selected, keys);
    }

    /** One answer per distinct key, duplicates and any number of keys allowed. */
    method LookupMany(keys: seq<CacheKey>, onDisk: set<string>) returns (r: map<CacheKey, Option<Row>>)
      requires Valid()
      modifies this`hits, this`misses
      ensures r.Keys == set k | k in keys
      ensures forall k :: k in keys ==> r[k] == Hit(rows, k, onDisk)
      ensures hits == old(hits) + |HitKeys(rows, keys, onDisk)|
      ensures misses == old(misses) + |MissKeys(rows, keys, onDisk)|
    {
      if keys == [] {
        assert HitKeys(rows, keys, onDisk) == {} && MissKeys(rows, keys, onDisk) == {};
        return map[];
      }
      var uniqueKeys := Distinct(keys);
      var result := Tally(uniqueKeys, onDisk);
      assert HitKeys(rows, uniqueKeys, onDisk) == HitKeys(rows, keys, onDisk);
      assert MissKeys(rows, uniqueKeys, onDisk) == MissKeys(rows, keys, onDisk);
      r := map k | k in keys :: result[k];
    }

    /** The counting loop of the batch, over keys without repetition. */
    method Tally(uniqueKeys: seq<CacheKey>, onDisk: set<string>) returns (result: map<CacheKey, Option<Row>>)
      requires Valid() && NoRepeats(uniqueKeys)
      modifies this`hits, this`misses
      ensures forall k :: k in result <==> k in uniqueKeys
      ensures forall k :: k in uniqueKeys ==> result[k] == Hit(rows, k, onDisk)
      ensures hits == old(hits) + |HitKeys(rows, uniqueKeys, onDisk)|
      ensures misses == old(misses) + |MissKeys(rows, uniqueKeys, onDisk)|
    {
      result := TallyAll(uniqueKeys, onDisk);
      BatchCountsLikeLookups(rows, uniqueKeys, onDisk, (old(hits), old(misses)));
    }

    method TallyAll(uniqueKeys: seq<CacheKey>, onDisk: set<string>) returns (result: map<CacheKey, Option<Row>>)
      requires Valid()
      modifies this`hits, this`misses
      ensures Tallied(rows, uniqueKeys, onDisk, result, (old(hits), old(misses)), (hits, misses))
    {
      var rawHits := RawHits(uniqueKeys);
      result := map[];
      for i := 0 to |uniqueKeys|
        modifies this`hits, this`misses
        invariant Tallied(rows, uniqueKeys[..i], onDisk, result, (old(hits), old(misses)), (hits, misses))
      {
        TallyStep(rows, uniqueKeys, i, onDisk, result, (old(hits), old(misses)), (hits, misses));
        var row := TallyOne(uniqueKeys, i, rawHits, onDisk);
        result := result[uniqueKeys[i] := row];
      }
      assert uniqueKeys[..|uniqueKeys|] == uniqueKeys;
    }

    method TallyOne(uniqueKeys: seq<CacheKey>, i: nat, rawHits: map<CacheKey, Row>, onDisk: set<string>) returns (row: Option<Row>)
      requires i < |uniqueKeys| && AgreesWithSelects(rows, uniqueKeys, rawHits)
      modifies this`hits, this`misses
      ensures row == Hit(rows, uniqueKeys[i], onDisk)
      ensures hits == old(hits) + (if row.Some? then 1 else 0)
      ensures misses == old(misses) + (if row.Some? then 0 else 1)
    {
      var key := uniqueKeys[i];
      assert key in uniqueKeys;
      if key !in rawHits || rawHits[key].exitCode != 0 || rawHits[key].path !in onDisk {
        misses := misses + 1;
        row := None;
      } else {
        hits := hits + 1;
        row := Some(rawHits[key]);
      }
    }

    /** `INSERT OR REPLACE`. */
    method Store(key: CacheKey, path: string, exitCode: int, now: real)
      requires Valid()
      modifies this`rows
      ensures Valid()
      ensures Entries(rows) == Entries(old(rows))[key := Row(key, path, now, now, exitCode)]
    {
      var row := Row(key, path, now, now, exitCode);
      ReplaceRow(rows, row);
      rows := DeleteWhere(rows, OneKey(key)) + [row];
    }

    method InvalidateStep(step: string) returns (n: nat)
      requires Valid()
      modifies this`rows, this`invalidations
      ensures Valid()
      ensures Entries(rows) == Kept(Entries(old(rows)), WholeStep(step))
      ensures n == |old(rows)| - |rows| && invalidations == old(invalidations) + n
    {
      var gone := WholeStep(step);
      DeleteKeeps(rows, gone);
      var kept := DeleteWhere(rows, gone);
      n := |rows| - |kept|;
      rows := kept;
      invalidations := invalidations + n;
    }

    method InvalidateSample(step: string, sampleId: string) returns (n: nat)
      requires Valid()
      modifies this`rows, this`invalidations
      ensures Valid()
      ensures Entries(rows) == Kept(Entries(old(rows)), OneSample(step, sampleId))
      ensures n == |old(rows)| - |rows| && invalidations == old(invalidations) + n
    {
      var gone := OneSample(step, sampleId);
      DeleteKeeps(rows, gone);
      var kept := DeleteWhere(rows, gone);
      n := |rows| - |kept|;
      rows := kept;
      invalidations := invalidations + n;
    }

    /** Turns the miss just counted into a hit served elsewhere. */
    method NoteExternalHit()
      modifies this`hits, this`misses
      ensures hits == old(hits) + 1
      ensures misses == if old(misses) == 0 then 0 else old(misses) - 1
    {
      misses := if misses == 0 then 0 else misses - 1;
      hits := hits + 1;
    }
  }

  /** The first occurrence of each key, in order. */
  function Firsts(keys: seq<CacheKey>): seq<CacheKey> {
    if keys == [] then []
    else
      var init, last := keys[..|keys| - 1], keys[|keys| - 1];
      if last in init then Firsts(init) else Firsts(init) + [last]
  }

  /** Position `i` holds a key that has not occurred before it. */
  predicate IsFirstAt(keys: seq<CacheKey>, i: nat) {
    i < |keys| && keys[i] !in keys[..i]
  }

  lemma FirstInPrefix(keys: seq<CacheKey>, n: nat, i: nat)
    requires n <= |keys| && IsFirstAt(keys[..n], i)
    ensures IsFirstAt(keys, i) && keys[i] == keys[..n][i]
  {
    assert keys[..n][..i] == keys[..i];
  }

  lemma {:induction false} FirstsAreInOrder(keys: seq<CacheKey>) returns (at: seq<nat>)
    ensures |at| == |Firsts(keys)| && forall i, j :: 0 <= i < j < |at| ==> at[i] < at[j]
    ensures forall i :: 0 <= i < |at| ==> IsFirstAt(keys, at[i]) && Firsts(keys)[i] == keys[at[i]]
  {
    at := [];
    if keys != [] {
      var n := |keys| - 1;
      var init := FirstsAreInOrder(keys[..n]);
      forall i | 0 <= i < |init| ensures IsFirstAt(keys, init[i]) && keys[init[i]] == Firsts(keys[..n])[i] {
        FirstInPrefix(keys, n, init[i]);
      }
      at := if keys[n] in keys[..n] then init else init + [n];
    }
  }

  /** Order-preserving removal of repeated keys, as `lookup_many` does with `seen`. */
  method Distinct(keys: seq<CacheKey>) returns (r: seq<CacheKey>)
    ensures r == Firsts(keys)
    ensures forall k :: k in r <==> k in keys
    ensures NoRepeats(r)
  {
    r := [];
    var seen: set<CacheKey> := {};
    for i := 0 to |keys|
      invariant seen == set k | k in keys[..i]
      invariant r == Firsts(keys[..i])
      invariant forall k :: k in r <==> k in seen
      invariant NoRepeats(r)
    {
      assert keys[..i + 1] == keys[..i] + [keys[i]];
      assert keys[..i + 1][..i] == keys[..i];
      if keys[i] !in seen {
        seen := seen + {keys[i]};
        assert (r + [keys[i]])[..|r|] == r;
        r := r + [keys[i]];
      }
    }
    assert keys[..|keys|] == keys;
  }

  /** Each key has its answer, and no other key has one. */
  ghost predicate Answered(rows: Rows, keys: seq<CacheKey>, onDisk: set<string>, result: map<CacheKey, Option<Row>>) {
    && (forall k :: k in result <==> k in keys)
    && (forall k :: k in result ==> result[k] == Hit(rows, k, onDisk))
  }

  /** The batch holds the row of a requested key exactly when a single select finds it. */
  ghost predicate AgreesWithSelects(rows: Rows, keys: seq<CacheKey>, raw: map<CacheKey, Row>) {
    && (forall k :: k in keys ==> (k in raw <==> SelectOne(rows, k).Some?))
    && (forall k :: k in keys && k in raw ==> SelectOne(rows, k) == Some(raw[k]))
  }

  lemma AnswerOneMore(rows: Rows, keys: seq<CacheKey>, i: nat, onDisk: set<string>, result: map<CacheKey, Option<Row>>)
    requires i < |keys| && Answered(rows, keys[..i], onDisk, result)
    ensures Answered(rows, keys[..i + 1], onDisk, result[keys[i] := Hit(rows, keys[i], onDisk)])
    ensures keys[..i + 1][..i] == keys[..i]
  {
    assert keys[..i + 1] == keys[..i] + [keys[i]];
  }

  lemma HitStep(rows: Rows, onDisk: set<string>, init: seq<CacheKey>, key: CacheKey)
    requires key !in init
    ensures |HitKeys(rows, init + [key], onDisk)| ==
            |HitKeys(rows, init, onDisk)| + (if Hit(rows, key, onDisk).Some? then 1 else 0)
  {
    var h0 := HitKeys(rows, init, onDisk);
    assert HitKeys(rows, init + [key], onDisk) == if Hit(rows, key, onDisk).Some? then h0 + {key} else h0;
  }

  lemma MissStep(rows: Rows, onDisk: set<string>, init: seq<CacheKey>, key: CacheKey)
    requires key !in init
    ensures |MissKeys(rows, init + [key], onDisk)| ==
            |MissKeys(rows, init, onDisk)| + (if Hit(rows, key, onDisk).Some? then 0 else 1)
  {
    var m0 := MissKeys(rows, init, onDisk);
    assert MissKeys(rows, init + [key], onDisk) == if Hit(rows, key, onDisk).Some? then m0 else m0 + {key};
  }

  ghost predicate NoRepeats(keys: seq<CacheKey>) {
    keys == [] || (NoRepeats(keys[..|keys| - 1]) && keys[|keys| - 1] !in keys[..|keys| - 1])
  }

  /** Hit and miss counters after one `lookup` per key of a list. */
  function Counted(start: (nat, nat), rows: Rows, keys: seq<CacheKey>, onDisk: set<string>): (nat, nat) {
    if keys == [] then start
    else
      var (h, m) := Counted(start, rows, keys[..|keys| - 1], onDisk);
      if Hit(rows, keys[|keys| - 1], onDisk).Some? then (h + 1, m) else (h, m + 1)
  }

  /** The answers and the counters after some of the keys. */
  ghost predicate Tallied(rows: Rows, keys: seq<CacheKey>, onDisk: set<string>, result: map<CacheKey, Option<Row>>, start: (nat, nat), now: (nat, nat)) {
    Answered(rows, keys, onDisk, result) && now == Counted(start, rows, keys, onDisk)
  }

  lemma TallyStep(rows: Rows, keys: seq<CacheKey>, i: nat, onDisk: set<string>, result: map<CacheKey, Option<Row>>, start: (nat, nat), now: (nat, nat))
    requires i < |keys| && Tallied(rows, keys[..i], onDisk, result, start, now)
    ensures var hit := Hit(rows, keys[i], onDisk);
            Tallied(rows, keys[..i + 1], onDisk, result[keys[i] := hit], start,
                    (now.0 + (if hit.Some? then 1 else 0), now.1 + (if hit.Some? then 0 else 1)))
  {
    AnswerOneMore(rows, keys, i, onDisk, result);
  }

  ghost predicate CountsDistinct(rows: Rows, keys: seq<CacheKey>, onDisk: set<string>, start: (nat, nat)) {
    Counted(start, rows, keys, onDisk) ==
    (start.0 + |HitKeys(rows, keys, onDisk)|, start.1 + |MissKeys(rows, keys, onDisk)|)
  }

  lemma CountsOneMore(rows: Rows, init: seq<CacheKey>, last: CacheKey, onDisk: set<string>, start: (nat, nat))
    requires last !in init && CountsDistinct(rows, init, onDisk, start)
    ensures CountsDistinct(rows, init + [last], onDisk, start)
  {
    var keys := init + [last];
    assert keys[..|keys| - 1] == init;
    HitStep(rows, onDisk, init, last);
    MissStep(rows, onDisk, init, last);
  }

  /** The batch counts what one `lookup` per distinct key would have counted. */
  lemma {:induction false} BatchCountsLikeLookups(rows: Rows, keys: seq<CacheKey>, onDisk: set<string>, start: (nat, nat))
    requires NoRepeats(keys)
    ensures CountsDistinct(rows, keys, onDisk, start)
  {
    if keys == [] {
      assert HitKeys(rows, keys, onDisk) == {} && MissKeys(rows, keys, onDisk) == {};
    } else {
      var init, last := keys[..|keys| - 1], keys[|keys| - 1];
      BatchCountsLikeLookups(rows, init, onDisk, start);
      CountsOneMore(rows, init, last, onDisk, start);
      assert keys == init + [last];
    }
  }

  // ---------------------------------------------------------------------
  // DELETE
  // ---------------------------------------------------------------------

  function DeleteWhere(rows: Rows, gone: Scope): (r: Rows)
    ensures |r| <= |rows|
    ensures forall row :: row in r <==> row in rows && !gone.Covers(row.key)
  {
    if rows == [] then [] else (if gone.Covers(rows[0].key) then [] else [rows[0]]) + DeleteWhere(rows[1..], gone)
  }

  /** Which keys each kind of invalidation leaves, with the row they had. */
  lemma {:induction false} InvalidationLeaves(m: map<CacheKey, Row>, step: string, sampleId: string, key: CacheKey)
    ensures key in Kept(m, WholeStep(step)) <==> key in m && key.step != step
    ensures key in Kept(m, OneSample(step, sampleId)) <==> key in m && (key.step != step || key.sampleId != sampleId)
    ensures forall gone :: key in Kept(m, gone) ==> Kept(m, gone)[key] == m[key]
  {
  }

  lemma {:induction false} DeleteKeepsPrimaryKey(rows: Rows, gone: Scope)
    requires PrimaryKey(rows)
    ensures PrimaryKey(DeleteWhere(rows, gone))
  {
    if rows != [] {
      DeleteKeepsPrimaryKey(rows[1..], gone);
      forall row | row in DeleteWhere(rows[1..], gone) ensures row.key != rows[0].key {
        var j :| 0 <= j < |rows[1..]| && rows[1..][j] == row;
        assert rows[j + 1] == row;
      }
    }
  }

  lemma {:induction false} SelectAfterDelete(rows: Rows, gone: Scope, key: CacheKey)
    ensures SelectOne(DeleteWhere(rows, gone), key) == if gone.Covers(key) then None else SelectOne(rows, key)
  {
    if rows != [] {
      SelectAfterDelete(rows[1..], gone, key);
      if gone.Covers(rows[0].key) {
        assert DeleteWhere(rows, gone) == DeleteWhere(rows[1..], gone);
        if key == rows[0].key {
          assert gone.Covers(key);
        }
      } else {
        assert DeleteWhere(rows, gone)[1..] == DeleteWhere(rows[1..], gone);
      }
    }
  }

  lemma DeleteKeeps(rows: Rows, gone: Scope)
    requires PrimaryKey(rows)
    ensures PrimaryKey(DeleteWhere(rows, gone))
    ensures Entries(DeleteWhere(rows, gone)) == Kept(Entries(rows), gone)
  {
    DeleteKeepsPrimaryKey(rows, gone);
    forall k ensures SelectOne(DeleteWhere(rows, gone), k) == if gone.Covers(k) then None else SelectOne(rows, k) {
      SelectAfterDelete(rows, gone, k);
    }
  }

  lemma {:induction false} SelectAfterAppend(rows: Rows, row: Row, key: CacheKey)
    ensures SelectOne(rows + [row], key) ==
            if SelectOne(rows, key).Some? then SelectOne(rows, key) else if row.key == key then Some(row) else None
  {
    if rows == [] {
      assert rows + [row] == [row];
    } else {
      assert (rows + [row])[1..] == rows[1..] + [row];
      SelectAfterAppend(rows[1..], row, key);
    }
  }

  lemma AppendKeepsPrimaryKey(rows: Rows, row: Row)
    requires PrimaryKey(rows) && forall r :: r in rows ==> r.key != row.key
    ensures PrimaryKey(rows + [row])
  {
    var all := rows + [row];
    forall i, j | 0 <= i < j < |all| ensures all[i].key != all[j].key {
      assert i < |rows| && rows[i] in rows;
    }
  }

  lemma AppendRow(rows: Rows, row: Row)
    requires PrimaryKey(rows) && forall r :: r in rows ==> r.key != row.key
    ensures PrimaryKey(rows + [row]) && Entries(rows + [row]) == Entries(rows)[row.key := row]
  {
    var all := rows + [row];
    AppendKeepsPrimaryKey(rows, row);
    forall k ensures SelectOne(all, k) == if k == row.key then Some(row) else SelectOne(rows, k) {
      SelectAfterAppend(rows, row, k);
    }
  }

  lemma ReplaceRow(rows: Rows, row: Row)
    requires PrimaryKey(rows)
    ensures PrimaryKey(DeleteWhere(rows, OneKey(row.key)) + [row])
    ensures Entries(DeleteWhere(rows, OneKey(row.key)) + [row]) == Entries(rows)[row.key := row]
  {
    var kept := DeleteWhere(rows, OneKey(row.key));
    DeleteKeeps(rows, OneKey(row.key));
    forall r | r in kept ensures r.key != row.key {
      assert !OneKey(row.key).Covers(r.key);
    }
    AppendRow(kept, row);
    KeptThenPut(Entries(rows), row);
  }

  lemma KeptThenPut(m: map<CacheKey, Row>, row: Row)
    ensures Kept(m, OneKey(row.key))[row.key := row] == m[row.key := row]
  {
  }
}
