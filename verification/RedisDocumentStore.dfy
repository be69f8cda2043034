/**
 The Redis-backed document store of one process, each public operation taken as
 atomic (osimflow/document_store.py): unique-index slots with rollback, and the
 in-process LRU. `hsetOk`/`hdelOk` say whether Redis accepts the write of the document.
 */
module RedisDocumentStore {
  import opened Wrappers
  import opened Documents
  import Txt = Text

  /** A document in the hash of its collection. */
  datatype Key = Key(coll: string, id: string)

  /** An entry of the unique-index hash of one field. */
  datatype Slot = Slot(coll: string, field: string, value: Json)

  datatype Index = Index(coll: string, field: string, unique: bool)

  datatype Error = DuplicateDocument(field: string) | StoreError | TypeError

  type Docs = map<Key, Doc>
  type Slots = map<Slot, string>

  // ---------------------------------------------------------------------
  // What the index must say
  // ---------------------------------------------------------------------

  /** The slots a document of `coll` must own. */
  function Needed(indexes: set<Index>, coll: string, doc: Doc): set<Slot> {
    set ix | ix in indexes && ix.coll == coll && ix.unique && !Get(doc, ix.field).Null?
      :: Slot(coll, ix.field, Get(doc, ix.field))
  }

  ghost predicate Owns(slots: Slots, id: string, s: Slot) {
    s in slots && slots[s] == id
  }

  /** Every document owns the slot of each of its non-null unique values. */
  ghost predicate Owned(docs: Docs, slots: Slots, indexes: set<Index>) {
    forall k, s :: k in docs && s in Needed(indexes, k.coll, docs[k]) ==> Owns(slots, k.id, s)
  }

  lemma {:induction false} OwnedIsUnique(docs: Docs, slots: Slots, indexes: set<Index>, a: Key, b: Key, field: string)
    requires Owned(docs, slots, indexes) && Index(a.coll, field, true) in indexes
    requires a in docs && b in docs && a.coll == b.coll
    requires Get(docs[a], field) == Get(docs[b], field) != Null
    ensures a == b
  {
    var s := Slot(a.coll, field, Get(docs[a], field));
    var ix := Index(a.coll, field, true);
    assert s in Needed(indexes, a.coll, docs[a]) && s in Needed(indexes, b.coll, docs[b]);
    assert Owns(slots, a.id, s) && Owns(slots, b.id, s);
  }

  predicate Changes(ix: Index, coll: string, before: Doc, after: Doc) {
    ix.coll == coll && ix.unique && Get(after, ix.field) != Get(before, ix.field)
  }

  /** Somebody holds one of the slots. */
  ghost predicate Taken(wanted: set<Slot>, slots: Slots) {
    exists s :: s in wanted && s in slots
  }

  /** Slots an update gives up. */
  function Releases(indexes: set<Index>, coll: string, before: Doc, after: Doc): set<Slot> {
    set ix | ix in indexes && Changes(ix, coll, before, after) && !Get(before, ix.field).Null?
      :: Slot(coll, ix.field, Get(before, ix.field))
  }

  /** Slots an update takes. */
  function Claims(indexes: set<Index>, coll: string, before: Doc, after: Doc): set<Slot> {
    set ix | ix in indexes && Changes(ix, coll, before, after) && !Get(after, ix.field).Null?
      :: Slot(coll, ix.field, Get(after, ix.field))
  }

  function Granted(slots: Slots, taken: set<Slot>, id: string): Slots {
    slots + map s | s in taken :: id
  }

  function SlotsAfter(slots: Slots, indexes: set<Index>, coll: string, before: Doc, after: Doc, id: string): Slots {
    Granted(slots - Releases(indexes, coll, before, after), Claims(indexes, coll, before, after), id)
  }

  // ---------------------------------------------------------------------
  // LRU
  // ---------------------------------------------------------------------

  type Lru = seq<(Key, Doc)>

  function LruGet(lru: Lru, key: Key): Option<Doc> {
    if lru == [] then None else if lru[0].0 == key then Some(lru[0].1) else LruGet(lru[1..], key)
  }

  function LruRemove(lru: Lru, key: Key): (r: Lru)
    ensures |r| <= |lru| && (LruGet(lru, key) != None ==> |r| < |lru|)
    ensures forall e :: e in r ==> e in lru
  {
    if lru == [] then []
    else if lru[0].0 == key then LruRemove(lru[1..], key)
    else [lru[0]] + LruRemove(lru[1..], key)
  }

  /** Move to the end if present, else append and evict the oldest entry of an overfull list. */
  function LruPut(lru: Lru, limit: nat, key: Key, doc: Doc): (r: Lru)
    ensures |lru| <= limit ==> |r| <= limit
    ensures forall e :: e in r ==> e in lru || e == (key, doc)
  {
    var appended := LruRemove(lru, key) + [(key, doc)];
    if LruGet(lru, key) == None && |appended| > limit then appended[1..] else appended
  }

  function LruDrop(lru: Lru, coll: string): (r: Lru)
    ensures |r| <= |lru|
    ensures forall e :: e in r ==> e in lru && e.0.coll != coll
  {
    if lru == [] then []
    else if lru[0].0.coll == coll then LruDrop(lru[1..], coll)
    else [lru[0]] + LruDrop(lru[1..], coll)
  }

  /** Every cached document is the stored one. */
  ghost predicate Coherent(lru: Lru, docs: Docs) {
    forall e :: e in lru ==> e.0 in docs && docs[e.0] == e.1
  }

  lemma {:induction false} LruGetIsMember(lru: Lru, key: Key)
    ensures LruGet(lru, key) != None ==> (key, LruGet(lru, key).value) in lru
  {
    if lru != [] && lru[0].0 != key {
      LruGetIsMember(lru[1..], key);
    }
  }

  // ---------------------------------------------------------------------
  // The store
  // ---------------------------------------------------------------------

  /** `{"_id": "<id>"}` takes the fast path. */
  predicate IsIdFilter(f: Filter) {
    |f| == 1 && f[0].key == "_id" && f[0].cond.Value? && f[0].cond.v.Text?
  }

  /** Python's `str` on JSON values; a text is itself. */
  type Str = Json -> string

  ghost predicate StrOk(str: Str) {
    forall s :: str(Json.Text(s)) == s
  }

  /** INCR on the collection's counter. */
  function NextId(counters: map<string, nat>, coll: string): nat {
    (if coll in counters then counters[coll] else 0) + 1
  }

  function AutoId(n: nat): Json {
    Json.Text("doc_" + Txt.Decimal(n))
  }

  /** What the collection's counter stands at. */
  function CountOf(counters: map<string, nat>, coll: string): nat {
    if coll in counters then counters[coll] else 0
  }

  /** The key of the `n`-th automatic id of the collection. */
  function AutoKey(coll: string, n: nat): Key {
    Key(coll, "doc_" + Txt.Decimal(n))
  }

  /** No stored id looks like an automatic one still to come. */
  ghost predicate AutoCovered(docs: Docs, counters: map<string, nat>, coll: string) {
    forall n: nat :: AutoKey(coll, n) in docs ==> n <= CountOf(counters, coll)
  }

  /** The document under `key` is new. */
  ghost predicate Adds(before: Docs, after: Docs, key: Key) {
    key !in before && key in after && |after| == |before| + 1
  }

  /** The id is the next automatic one; while the counter covers the stored ids it is new, and the counter still covers them. */
  ghost predicate AddsNext(coll: string, id: string, before: Docs, after: Docs, counters: map<string, nat>, advanced: map<string, nat>) {
    && Key(coll, id) == AutoKey(coll, CountOf(counters, coll) + 1)
    && (AutoCovered(before, counters, coll) ==> Adds(before, after, Key(coll, id)) && AutoCovered(after, advanced, coll))
  }

  class Store {
    var docs: Docs
    var slots: Slots
    var counters: map<string, nat>
    var indexes: set<Index>
    var lru: Lru
    const limit: nat
    const str: Str

    ghost predicate Valid()
      reads this
    {
      StrOk(str) && Owned(docs, slots, indexes) && Coherent(lru, docs) && |lru| <= limit
    }

    /** Every document lies in the hash under its own `_id`. */
    ghost predicate Ided()
      reads this
    {
      IdedDocs(docs, str)
    }

    constructor (limit: nat, str: Str)
      requires StrOk(str)
      ensures Valid() && Ided() && docs == map[] && slots == map[] && counters == map[] && indexes == {} && lru == [] && this.limit == limit && this.str == str
    {
      this.str := str;
      docs := map[];
      slots := map[];
      counters := map[];
      indexes := {};
      lru := [];
      this.limit := limit;
    }

    method ClaimSlot(s: Slot, id: string) returns (claimed: bool)
      modifies this`slots
      ensures claimed <==> s !in old(slots)
      ensures slots == if claimed then old(slots)[s := id] else old(slots)
    {
      claimed := s !in slots;
      if claimed {
        slots := slots[s := id];
      }
    }

    method ReleaseSlot(s: Slot, id: string)
      modifies this`slots
      ensures slots == if s in old(slots) && old(slots)[s] == id then old(slots) - {s} else old(slots)
    {
      if s in slots && slots[s] == id {
        slots := slots - {s};
      }
    }

    method WithId(coll: string, document: Doc) returns (doc: Doc, id: string)
      requires StrOk(str)
      modifies this`counters
      ensures "_id" in document ==> doc == document && counters == old(counters)
      ensures "_id" !in document ==>
                && doc == document["_id" := AutoId(NextId(old(counters), coll))]
                && counters == old(counters)[coll := NextId(old(counters), coll)]
      ensures "_id" in doc && id == str(doc["_id"])
      ensures "_id" !in document ==> AddsNext(coll, id, docs, docs[Key(coll, id) := doc], old(counters), counters)
    {
      doc := document;
      if "_id" !in doc {
        counters := counters[coll := NextId(counters, coll)];
        doc := doc["_id" := AutoId(counters[coll])];
      }
      id := str(doc["_id"]);
      if "_id" !in document && AutoCovered(docs, old(counters), coll) {
        AutoIdIsFresh(docs, old(counters), coll, doc);
      }
    }

    /**
     `insert_one`: it succeeds exactly when every slot it needs was free and the write went
     through. A refused claim leaves the earlier ones behind; a failed write takes all back.
     */
    method InsertOne(coll: string, document: Doc, hsetOk: bool) returns (r: Result<string, Error>, doc: Doc)
      requires Valid()
      modifies this
      ensures Valid() && indexes == old(indexes)
      ensures "_id" in document ==> doc == document && counters == old(counters)
      ensures "_id" !in document ==>
                && doc == document["_id" := AutoId(NextId(old(counters), coll))]
                && counters == old(counters)[coll := NextId(old(counters), coll)]
      ensures "_id" in doc
      ensures r.Ok? && "_id" !in document ==> AddsNext(coll, r.value, old(docs), docs, old(counters), counters)
      ensures r.Ok? ==>
                && r.value == str(doc["_id"])
                && docs == old(docs)[Key(coll, r.value) := doc]
                && slots == Granted(old(slots), Needed(indexes, coll, doc), r.value)
      ensures r.Err? ==> docs == old(docs) && lru == old(lru)
      ensures r.Ok? ==> lru == LruDrop(old(lru), coll)
      ensures r.Ok? <==> hsetOk && !Taken(Needed(indexes, coll, doc), old(slots))
      ensures r.Err? && r.error.DuplicateDocument? <==> Taken(Needed(indexes, coll, doc), old(slots))
      ensures r == Err(StoreError) <==> !hsetOk && !Taken(Needed(indexes, coll, doc), old(slots))
      ensures r == Err(StoreError) ==> slots == old(slots)
      ensures r.Err? && r.error.DuplicateDocument? ==>
                exists left: set<Slot> :: left <= Needed(indexes, coll, doc) && slots == Granted(old(slots), left, str(doc["_id"]))
      ensures old(Ided()) ==> Ided()
    {
      var id;
      doc, id := WithId(coll, document);
      r := InsertUnder(coll, id, doc, hsetOk);
    }

    /** The part of `insert_one` after the id is known: claim the slots, write the document, or undo. */
    method InsertUnder(coll: string, id: string, doc: Doc, hsetOk: bool) returns (r: Result<string, Error>)
      requires Valid() && "_id" in doc && id == str(doc["_id"])
      modifies this`docs, this`slots, this`lru
      ensures Valid()
      ensures r.Ok? ==>
                && r.value == id
                && docs == old(docs)[Key(coll, id) := doc]
                && slots == Granted(old(slots), Needed(indexes, coll, doc), id)
      ensures r.Err? ==> docs == old(docs) && lru == old(lru)
      ensures r.Ok? ==> lru == LruDrop(old(lru), coll)
      ensures r.Ok? <==> hsetOk && !Taken(Needed(indexes, coll, doc), old(slots))
      ensures r.Err? && r.error.DuplicateDocument? <==> Taken(Needed(indexes, coll, doc), old(slots))
      ensures r == Err(StoreError) <==> !hsetOk && !Taken(Needed(indexes, coll, doc), old(slots))
      ensures r == Err(StoreError) ==> slots == old(slots)
      ensures r.Err? && r.error.DuplicateDocument? ==>
                exists left: set<Slot> :: left <= Needed(indexes, coll, doc) && slots == Granted(old(slots), left, id)
      ensures old(Ided()) ==> Ided()
    {
      var refused := ClaimAll(coll, doc, id);
      if refused.Some? {
        GrantKeepsOwned(docs, old(slots), slots, indexes);
        return Err(DuplicateDocument(refused.value));
      }
      if !hsetOk {
        ReleaseAll(coll, doc, id, old(slots));
        return Err(StoreError);
      }
      InsertKeepsOwned(docs, old(slots), slots, indexes, coll, id, doc);
      docs := docs[Key(coll, id) := doc];
      lru := LruDrop(lru, coll);
      r := Ok(id);
    }

    /** The claim loop of `insert_one`; a refusal keeps what was claimed before it. */
    method ClaimAll(coll: string, doc: Doc, id: string) returns (refused: Option<string>)
      modifies this`slots
      ensures refused.None? ==> slots == Granted(old(slots), Needed(indexes, coll, doc), id)
      ensures refused.Some? ==> exists left: set<Slot> :: left <= Needed(indexes, coll, doc) && slots == Granted(old(slots), left, id)
      ensures refused.Some? ==> forall s :: s in old(slots) ==> s in slots && slots[s] == old(slots)[s]
      ensures refused.Some? <==> Taken(Needed(indexes, coll, doc), old(slots))
    {
      var todo := indexes;
      while todo != {}
        invariant todo <= indexes
        invariant slots == Granted(old(slots), Needed(indexes - todo, coll, doc), id)
        invariant forall s :: s in Needed(indexes - todo, coll, doc) ==> s !in old(slots)
        decreases todo
      {
        var ix :| ix in todo;
        ghost var done := indexes - todo;
        todo := todo - {ix};
        assert indexes - todo == done + {ix};
        var claimed := ClaimIndex(ix, coll, doc, id, old(slots), done);
        if !claimed {
          return Some(ix.field);
        }
      }
      assert indexes - todo == indexes;
      refused := None;
    }

    /** One turn of the claim loop. */
    method ClaimIndex(ix: Index, coll: string, doc: Doc, id: string, ghost base: Slots, ghost done: set<Index>) returns (claimed: bool)
      requires ix in indexes && ix !in done && done <= indexes
      requires slots == Granted(base, Needed(done, coll, doc), id)
      modifies this`slots
      ensures claimed ==> slots == Granted(base, Needed(done + {ix}, coll, doc), id)
      ensures claimed ==> forall s :: s in Needed(done + {ix}, coll, doc) && s !in Needed(done, coll, doc) ==> s !in base
      ensures !claimed ==> slots == old(slots) && Needed(done, coll, doc) <= Needed(indexes, coll, doc)
      ensures !claimed ==> exists s :: s in Needed(indexes, coll, doc) && s in base
    {
      var value := Get(doc, ix.field);
      OneMoreIndex(indexes, done, ix, coll, doc, base, id);
      claimed := true;
      if ix.coll == coll && ix.unique && !value.Null? {
        claimed := ClaimSlot(Slot(coll, ix.field, value), id);
      }
    }

    /** Rollback of `insert_one`: releases every slot of the document that is its own. */
    method ReleaseAll(coll: string, doc: Doc, id: string, ghost base: Slots)
      requires slots == Granted(base, Needed(indexes, coll, doc), id)
      requires forall s :: s in Needed(indexes, coll, doc) ==> s !in base
      modifies this`slots
      ensures slots == base
    {
      var todo := indexes;
      while todo != {}
        invariant todo <= indexes
        invariant forall s :: s in slots ==> (s in base && slots[s] == base[s]) || (s in Needed(todo, coll, doc) && slots[s] == id)
        invariant forall s :: s in base ==> s in slots && slots[s] == base[s]
        decreases todo
      {
        var ix :| ix in todo;
        var value := Get(doc, ix.field);
        ghost var rest := Needed(todo, coll, doc);
        todo := todo - {ix};
        if ix.coll == coll && ix.unique && !value.Null? {
          var s := Slot(coll, ix.field, value);
          assert s in Needed(indexes, coll, doc);
          assert rest - {s} <= Needed(todo, coll, doc);
          ReleaseSlot(s, id);
        } else {
          assert rest == Needed(todo, coll, doc);
        }
      }
      assert slots.Keys == base.Keys;
    }

    /** The collection scan; any order of the hash, stopping at the first match. */
    method Scan(coll: string, f: Filter) returns (r: Result<Option<string>, Error>)
      ensures r.Ok? && r.value.Some? ==> Key(coll, r.value.value) in docs && Matches(docs[Key(coll, r.value.value)], f) == Some(true)
      ensures r.Ok? && r.value.None? ==> forall k :: k in docs && k.coll == coll ==> Matches(docs[k], f) == Some(false)
      ensures r.Err? ==> r.error == TypeError && exists k :: k in docs && k.coll == coll && Matches(docs[k], f) == None
    {
      var todo := docs.Keys;
      while todo != {}
        invariant todo <= docs.Keys
        invariant forall k :: k in docs && k !in todo && k.coll == coll ==> Matches(docs[k], f) == Some(false)
        decreases todo
      {
        var k :| k in todo;
        todo := todo - {k};
        if k.coll == coll {
          match Matches(docs[k], f)
          case None => return Err(TypeError);
          case Some(b) => if b { return Ok(Some(k.id)); }
        }
      }
      r := Ok(None);
    }

    /** The document a filter designates: by `_id` without a check, else the first match of a scan. */
    method Locate(coll: string, f: Filter) returns (r: Result<Option<string>, Error>)
      ensures IsIdFilter(f) ==> r == Ok(Some(f[0].cond.v.s))
      ensures !IsIdFilter(f) && r.Ok? && r.value.Some? ==>
                Key(coll, r.value.value) in docs && Matches(docs[Key(coll, r.value.value)], f) == Some(true)
      ensures r.Ok? && r.value.None? ==> !IsIdFilter(f) && forall k :: k in docs && k.coll == coll ==> Matches(docs[k], f) == Some(false)
      ensures r.Err? ==> r.error == TypeError && !IsIdFilter(f) && exists k :: k in docs && k.coll == coll && Matches(docs[k], f) == None
    {
      if IsIdFilter(f) {
        r := Ok(Some(f[0].cond.v.s));
      } else {
        r := Scan(coll, f);
      }
    }

    /** `update_one`: all or nothing, for any number of unique fields. */
    method UpdateOne(coll: string, f: Filter, ops: seq<UpdateOp>, hsetOk: bool) returns (r: Result<bool, Error>, ghost target: string)
      requires Valid()
      modifies this
      ensures Valid() && indexes == old(indexes) && counters == old(counters)
      ensures r != Ok(true) ==> docs == old(docs) && slots == old(slots) && lru == old(lru)
      ensures r == Ok(true) ==> lru == LruDrop(old(lru), coll)
      ensures r == Ok(false) ==>
                if IsIdFilter(f) then Key(coll, f[0].cond.v.s) !in docs
                else forall k :: k in docs && k.coll == coll ==> Matches(docs[k], f) == Some(false)
      ensures r == Err(TypeError) ==> !IsIdFilter(f) && exists k :: k in docs && k.coll == coll && Matches(docs[k], f) == None
      ensures r == Ok(true) || (r.Err? && r.error != TypeError) ==>
                var key := Key(coll, target);
                && key in old(docs)
                && (if IsIdFilter(f) then target == f[0].cond.v.s else Matches(old(docs)[key], f) == Some(true))
                && var after := Updated(old(docs)[key], ops);
                   && (r == Ok(true) ==> docs == old(docs)[key := after])
                   && (r == Ok(true) ==> slots == SlotsAfter(old(slots), indexes, coll, old(docs)[key], after, target))
                   && var taken := Taken(Claims(indexes, coll, old(docs)[key], after), old(slots));
                      && (r == Ok(true) <==> hsetOk && !taken)
                      && (r.Err? && r.error.DuplicateDocument? <==> taken)
                      && (r == Err(StoreError) <==> !hsetOk && !taken)
      ensures old(Ided()) && (forall i :: 0 <= i < |ops| ==> "_id" !in ops[i].Names()) ==> Ided()
    {
      target := "";
      var found := Locate(coll, f);
      if found.Err? {
        return Err(found.error), target;
      }
      if found.value.None? || Key(coll, found.value.value) !in docs {
        return Ok(false), target;
      }
      target := found.value.value;
      r := UpdateFound(coll, found.value.value, ops, hsetOk);
    }

    /** The part of `update_one` after the document was found. */
    method UpdateFound(coll: string, id: string, ops: seq<UpdateOp>, hsetOk: bool) returns (r: Result<bool, Error>)
      requires Valid() && Key(coll, id) in docs
      modifies this`docs, this`slots, this`lru
      ensures Valid()
      ensures r == Ok(true) || (r.Err? && r.error != TypeError)
      ensures r.Err? ==> docs == old(docs) && slots == old(slots) && lru == old(lru)
      ensures r == Ok(true) ==> lru == LruDrop(old(lru), coll)
      ensures var key, after := Key(coll, id), Updated(old(docs)[Key(coll, id)], ops);
              && (r == Ok(true) ==> docs == old(docs)[key := after])
              && (r == Ok(true) ==> slots == SlotsAfter(old(slots), indexes, coll, old(docs)[key], after, id))
              && var taken := Taken(Claims(indexes, coll, old(docs)[key], after), old(slots));
                 && (r == Ok(true) <==> hsetOk && !taken)
                 && (r.Err? && r.error.DuplicateDocument? <==> taken)
                 && (r == Err(StoreError) <==> !hsetOk && !taken)
      ensures old(Ided()) && (forall i :: 0 <= i < |ops| ==> "_id" !in ops[i].Names()) ==> Ided()
    {
      var key := Key(coll, id);
      var before := docs[key];
      var m := new MutableDoc(before);
      m.ApplyUpdateOperators(ops);
      r := Replace(coll, id, m.fields, hsetOk);
      if r == Ok(true) && old(Ided()) && forall i :: 0 <= i < |ops| ==> "_id" !in ops[i].Names() {
        UpdateFrame(before, ops, "_id");
        assert Field(docs[key], "_id") == Field(before, "_id");
      }
    }

    /** The part of `update_one` after the operators: move the slots, write the document, or undo. */
    method Replace(coll: string, id: string, after: Doc, hsetOk: bool) returns (r: Result<bool, Error>)
      requires Valid() && Key(coll, id) in docs
      modifies this`docs, this`slots, this`lru
      ensures Valid()
      ensures r == Ok(true) || (r.Err? && r.error != TypeError)
      ensures r.Err? ==> docs == old(docs) && slots == old(slots) && lru == old(lru)
      ensures r == Ok(true) ==> lru == LruDrop(old(lru), coll)
      ensures var key := Key(coll, id);
              && (r == Ok(true) ==> docs == old(docs)[key := after])
              && (r == Ok(true) ==> slots == SlotsAfter(old(slots), indexes, coll, old(docs)[key], after, id))
              && var taken := Taken(Claims(indexes, coll, old(docs)[key], after), old(slots));
                 && (r == Ok(true) <==> hsetOk && !taken)
                 && (r.Err? && r.error.DuplicateDocument? <==> taken)
                 && (r == Err(StoreError) <==> !hsetOk && !taken)
    {
      var key := Key(coll, id);
      var before := docs[key];
      assert forall s :: s in Needed(indexes, coll, before) ==> Owns(slots, key.id, s);
      var refused, newClaims, oldReleased := MoveSlots(coll, before, after, id);
      if refused.Some? || !hsetOk {
        RollBack(newClaims, oldReleased, id, old(slots));
        return Err(if refused.Some? then DuplicateDocument(refused.value) else StoreError);
      }
      SlotsMoved(old(slots), slots, newClaims, oldReleased, indexes, coll, before, after, id);
      MovedKeepsOwned(docs, old(slots), slots, indexes, coll, id, after);
      docs := docs[key := after];
      lru := LruDrop(lru, coll);
      r := Ok(true);
    }

    /** The claim loop of `update_one`, remembering what a rollback must undo. */
    method MoveSlots(coll: string, before: Doc, after: Doc, id: string)
      returns (refused: Option<string>, newClaims: seq<Slot>, oldReleased: seq<Slot>)
      requires forall s :: s in Needed(indexes, coll, before) ==> Owns(slots, id, s)
      modifies this`slots
      ensures Moving(old(slots), slots, newClaims, oldReleased, id)
      ensures refused.None? ==> forall s :: s in newClaims <==> s in Claims(indexes, coll, before, after)
      ensures refused.None? ==> forall s :: s in oldReleased <==> s in Releases(indexes, coll, before, after)
      ensures refused.Some? <==> Taken(Claims(indexes, coll, before, after), old(slots))
    {
      newClaims, oldReleased := [], [];
      var todo := indexes;
      while todo != {}
        invariant todo <= indexes
        invariant Moving(old(slots), slots, newClaims, oldReleased, id)
        invariant forall s :: s in newClaims <==> s in Claims(indexes - todo, coll, before, after)
        invariant forall s :: s in oldReleased <==> s in Releases(indexes - todo, coll, before, after)
        decreases todo
      {
        var ix :| ix in todo;
        ghost var done := indexes - todo;
        todo := todo - {ix};
        assert indexes - todo == done + {ix};
        ClaimsStep(done, ix, coll, before, after);
        if Changes(ix, coll, before, after) {
          var newValue, oldValue := Get(after, ix.field), Get(before, ix.field);
          if !oldValue.Null? {
            var s := Slot(coll, ix.field, oldValue);
            assert s in Needed(indexes, coll, before);
            ReleaseKeepsMoving(old(slots), slots, newClaims, oldReleased, id, s);
            ReleaseSlot(s, id);
            oldReleased := oldReleased + [s];
          }
          if !newValue.Null? {
            var s := Slot(coll, ix.field, newValue);
            assert s !in newClaims && s !in oldReleased;
            ClaimKeepsMoving(old(slots), slots, newClaims, oldReleased, id, s);
            var claimed := ClaimSlot(s, id);
            if !claimed {
              assert s in Claims(indexes, coll, before, after);
              return Some(ix.field), newClaims, oldReleased;
            }
            newClaims := newClaims + [s];
          }
        }
      }
      assert indexes - todo == indexes;
      refused := None;
    }

    method RollBack(newClaims: seq<Slot>, oldReleased: seq<Slot>, id: string, ghost base: Slots)
      requires Moving(base, slots, newClaims, oldReleased, id)
      modifies this`slots
      ensures slots == base
    {
      for i := 0 to |newClaims|
        invariant forall s :: s in newClaims[..i] || s in oldReleased ==> s !in slots
        invariant forall s :: s in newClaims[i..] && s in slots ==> slots[s] == id
        invariant forall s :: s !in newClaims && s !in oldReleased ==> SameAt(base, slots, s)
      {
        assert newClaims[i..] == [newClaims[i]] + newClaims[i + 1..];
        assert newClaims[..i + 1] == newClaims[..i] + [newClaims[i]];
        ReleaseSlot(newClaims[i], id);
      }
      assert newClaims[..|newClaims|] == newClaims;
      for i := 0 to |oldReleased|
        invariant forall s :: s in oldReleased[..i] ==> Owns(slots, id, s)
        invariant forall s :: s in oldReleased && s in slots ==> slots[s] == id
        invariant forall s :: s !in oldReleased ==> SameAt(base, slots, s)
      {
        assert oldReleased[..i + 1] == oldReleased[..i] + [oldReleased[i]];
        var _ := ClaimSlot(oldReleased[i], id);
      }
      assert oldReleased[..|oldReleased|] == oldReleased;
      forall s ensures SameAt(base, slots, s) {
      }
      SameEverywhere(base, slots);
    }

    /** `delete_one`: drops the document and every indexed slot that points at it. */
    method DeleteOne(coll: string, f: Filter, hdelOk: bool) returns (r: Result<bool, Error>, ghost target: string)
      requires Valid()
      modifies this
      ensures Valid() && indexes == old(indexes) && counters == old(counters)
      ensures r != Ok(true) ==> docs == old(docs) && slots == old(slots) && lru == old(lru)
      ensures r == Ok(true) ==> lru == LruDrop(old(lru), coll)
      ensures r == Ok(true) ==>
                && (if IsIdFilter(f) then target == f[0].cond.v.s
                    else Key(coll, target) in old(docs) && Matches(old(docs)[Key(coll, target)], f) == Some(true))
                && docs == old(docs) - {Key(coll, target)}
                && slots == map s | s in old(slots) && !(IsIndexed(indexes, coll, s) && old(slots)[s] == target) :: old(slots)[s]
      ensures r == Ok(true) ==> forall s :: s in slots && IsIndexed(indexes, coll, s) ==> slots[s] != target
      ensures r == Ok(false) ==> !IsIdFilter(f) && forall k :: k in docs && k.coll == coll ==> Matches(docs[k], f) == Some(false)
      ensures r == Err(TypeError) ==> !IsIdFilter(f) && exists k :: k in docs && k.coll == coll && Matches(docs[k], f) == None
      ensures r == Err(StoreError) ==> !hdelOk
      ensures r == Ok(true) ==> hdelOk
      ensures r.Err? ==> !r.error.DuplicateDocument?
      ensures IsIdFilter(f) ==> r == if hdelOk then Ok(true) else Err(StoreError)
      ensures old(Ided()) ==> Ided()
    {
      target := "";
      var found := Locate(coll, f);
      if found.Err? {
        return Err(found.error), target;
      }
      if found.value.None? {
        return Ok(false), target;
      }
      var id := found.value.value;
      target := id;
      if !hdelOk {
        return Err(StoreError), target;
      }
      docs := docs - {Key(coll, id)};
      DropSlots(coll, id);
      lru := LruDrop(lru, coll);
      DeleteKeepsOwned(old(docs), old(slots), slots, indexes, coll, id);
      r := Ok(true);
    }

    /** Drops the indexed slots of the collection that point at the document. */
    method DropSlots(coll: string, id: string)
      modifies this`slots
      ensures slots == map s | s in old(slots) && !(IsIndexed(indexes, coll, s) && old(slots)[s] == id) :: old(slots)[s]
    {
      var todo := indexes;
      while todo != {}
        invariant todo <= indexes
        invariant slots == map s | s in old(slots) && !(IsIndexed(indexes - todo, coll, s) && old(slots)[s] == id) :: old(slots)[s]
        decreases todo
        modifies this`slots
      {
        var ix :| ix in todo;
        ghost var done := indexes - todo;
        todo := todo - {ix};
        assert indexes - todo == done + {ix};
        if ix.coll == coll {
          slots := map s | s in slots && !(s.coll == coll && s.field == ix.field && slots[s] == id) :: slots[s];
        }
        assert forall s :: IsIndexed(done + {ix}, coll, s) <==> IsIndexed(done, coll, s) || (ix.coll == coll && s.coll == coll && s.field == ix.field);
      }
      assert indexes - todo == indexes;
    }

    /** One turn of the adoption loop. */
    method AdoptDoc(coll: string, field: string, unique: bool, k: Key, ghost base: Slots, ghost done: set<Key>) returns (ok: bool)
      requires k in docs && Owned(docs, slots, indexes) && OthersSame(base, slots, coll, field)
      requires unique ==> Adopted(docs, done, base, slots, coll, field)
      modifies this`slots
      ensures Owned(docs, slots, indexes) && OthersSame(base, slots, coll, field)
      ensures ok && unique ==> Adopted(docs, done + {k}, base, slots, coll, field)
      ensures !ok ==> unique && slots == old(slots) && !Adoptable(docs, base, coll, field)
    {
      var value := Get(docs[k], field);
      if k.coll == coll && !value.Null? {
        var s := Slot(coll, field, value);
        if unique && s in slots && slots[s] != k.id {
          NotAdoptable(docs, done, base, slots, coll, field, k);
          return false;
        }
        AdoptKeepsOwned(docs, slots, indexes, k, s, unique);
        slots := slots[s := k.id];
      }
      ok := true;
    }

    /** `create_index`: adopts the existing documents, in any order. */
    method CreateIndex(coll: string, field: string, unique: bool) returns (r: Result<(), Error>)
      requires Valid()
      modifies this`slots, this`indexes
      ensures Valid()
      ensures r.Ok? ==> indexes == old(indexes) + {Index(coll, field, unique)}
      ensures r.Err? ==> unique && r.error == DuplicateDocument(field) && indexes == old(indexes)
      ensures unique ==> (r.Ok? <==> Adoptable(docs, old(slots), coll, field))
      ensures OthersSame(old(slots), slots, coll, field)
      ensures r.Ok? && unique ==> forall s: Slot :: s.coll == coll && s.field == field ==>
                                              (s in slots <==> s in old(slots) || exists k :: k in docs && k.coll == coll && Get(docs[k], field) == s.value && !s.value.Null?)
    {
      var todo := docs.Keys;
      while todo != {}
        invariant todo <= docs.Keys
        invariant Owned(docs, slots, indexes) && OthersSame(old(slots), slots, coll, field)
        invariant unique ==> Adopted(docs, docs.Keys - todo, old(slots), slots, coll, field)
        decreases todo
        modifies this`slots
      {
        var k :| k in todo;
        ghost var done := docs.Keys - todo;
        todo := todo - {k};
        assert docs.Keys - todo == done + {k};
        var ok := AdoptDoc(coll, field, unique, k, old(slots), done);
        if !ok {
          return Err(DuplicateDocument(field));
        }
      }
      assert docs.Keys - todo == docs.Keys;
      if unique {
        AdoptedIsOwned(docs, old(slots), slots, indexes, coll, field);
      } else {
        assert forall c, d :: Needed(indexes + {Index(coll, field, unique)}, c, d) == Needed(indexes, c, d);
      }
      indexes := indexes + {Index(coll, field, unique)};
      r := Ok(());
    }

    /** `find_one`, through the LRU when the filter is a bare `_id`. */
    method FindOne(coll: string, f: Filter) returns (r: Result<Option<Doc>, Error>)
      requires Valid()
      modifies this`lru
      ensures Valid()
      ensures IsIdFilter(f) ==>
                r == Ok(if Key(coll, f[0].cond.v.s) in docs then Some(docs[Key(coll, f[0].cond.v.s)]) else None)
      ensures !IsIdFilter(f) && r.Ok? && r.value.Some? ==>
                exists k :: k in docs && k.coll == coll && docs[k] == r.value.value && Matches(docs[k], f) == Some(true)
                            && lru == LruPut(old(lru), limit, k, docs[k])
      ensures IsIdFilter(f) ==>
                var key := Key(coll, f[0].cond.v.s);
                lru == if LruGet(old(lru), key) == None && key in docs then LruPut(old(lru), limit, key, docs[key]) else old(lru)
      ensures r.Err? ==>
                && r.error == TypeError && !IsIdFilter(f) && lru == old(lru)
                && exists k :: k in docs && k.coll == coll && Matches(docs[k], f) == None
      ensures r.Ok? && r.value.None? ==> lru == old(lru)
      ensures !IsIdFilter(f) && r.Ok? && r.value.None? ==> forall k :: k in docs && k.coll == coll ==> Matches(docs[k], f) == Some(false)
    {
      if IsIdFilter(f) {
        var key := Key(coll, f[0].cond.v.s);
        var cached := LruGet(lru, key);
        LruGetIsMember(lru, key);
        if cached.Some? {
          return Ok(cached);
        }
        if key !in docs {
          return Ok(None);
        }
        lru := LruPut(lru, limit, key, docs[key]);
        return Ok(Some(docs[key]));
      }
      var found := Scan(coll, f);
      if found.Err? {
        return Err(found.error);
      }
      if found.value.None? {
        return Ok(None);
      }
      var key := Key(coll, found.value.value);
      lru := LruPut(lru, limit, key, docs[key]);
      r := Ok(Some(docs[key]));
    }

    /** The LRU warming at the end of `find_many`, keyed by the `_id` inside each document. */
    method WarmLru(coll: string, matched: seq<Doc>)
      requires Valid()
      modifies this`lru
      ensures lru == Warmed(old(lru), limit, str, coll, matched)
      ensures AllUnderOwnId(docs, str, coll, matched) ==> Valid()
    {
      for i := 0 to |matched|
        invariant lru == Warmed(old(lru), limit, str, coll, matched[..i])
        invariant |lru| <= limit
        invariant AllUnderOwnId(docs, str, coll, matched[..i]) ==> Coherent(lru, docs)
      {
        var d := matched[i];
        assert matched[..i + 1][..i] == matched[..i];
        UnderOwnIdSnoc(docs, str, coll, matched, i);
        var id := IdOf(str, d);
        if id != "" {
          lru := LruPut(lru, limit, Key(coll, id), d);
        }
      }
      assert matched[..|matched|] == matched;
    }
  }

  // ---------------------------------------------------------------------
  // Automatic ids
  // ---------------------------------------------------------------------

  lemma AutoKeyInjective(coll: string, m: nat, n: nat)
    requires AutoKey(coll, m) == AutoKey(coll, n)
    ensures m == n
  {
    var a, b := "doc_" + Txt.Decimal(m), "doc_" + Txt.Decimal(n);
    assert a[4..] == Txt.Decimal(m) && b[4..] == Txt.Decimal(n);
    Txt.DecimalInjective(m, n);
  }

  /** While the counter covers the stored ids, the next automatic id is new: the insert adds a document and replaces none. */
  lemma {:induction false} AutoIdIsFresh(docs: Docs, counters: map<string, nat>, coll: string, doc: Doc)
    requires AutoCovered(docs, counters, coll)
    ensures var n := CountOf(counters, coll) + 1;
            && Adds(docs, docs[AutoKey(coll, n) := doc], AutoKey(coll, n))
            && AutoCovered(docs[AutoKey(coll, n) := doc], counters[coll := n], coll)
  {
    var n := CountOf(counters, coll) + 1;
    var key := AutoKey(coll, n);
    assert docs[key := doc].Keys == docs.Keys + {key};
    forall m: nat | AutoKey(coll, m) in docs[key := doc] ensures m <= n {
      if AutoKey(coll, m) == key {
        AutoKeyInjective(coll, m, n);
      }
    }
  }

  ghost predicate IdedDocs(docs: Docs, str: Str) {
    forall k :: k in docs ==> "_id" in docs[k] && str(docs[k]["_id"]) == k.id
  }

  /** `str(d.get("_id", ""))` */
  function IdOf(str: Str, d: Doc): string {
    if "_id" in d then str(d["_id"]) else ""
  }

  function Warmed(lru: Lru, limit: nat, str: Str, coll: string, matched: seq<Doc>): Lru {
    if matched == [] then lru
    else
      var before, d := Warmed(lru, limit, str, coll, matched[..|matched| - 1]), matched[|matched| - 1];
      if IdOf(str, d) != "" then LruPut(before, limit, Key(coll, IdOf(str, d)), d) else before
  }

  /** The hash field the document names holds that document. */
  predicate UnderOwnId(docs: Docs, str: Str, coll: string, d: Doc) {
    IdOf(str, d) != "" ==> Key(coll, IdOf(str, d)) in docs && docs[Key(coll, IdOf(str, d))] == d
  }

  ghost predicate AllUnderOwnId(docs: Docs, str: Str, coll: string, ds: seq<Doc>) {
    forall d :: d in ds ==> UnderOwnId(docs, str, coll, d)
  }

  lemma UnderOwnIdSnoc(docs: Docs, str: Str, coll: string, ds: seq<Doc>, i: nat)
    requires i < |ds|
    ensures AllUnderOwnId(docs, str, coll, ds[..i + 1]) <==> AllUnderOwnId(docs, str, coll, ds[..i]) && UnderOwnId(docs, str, coll, ds[i])
  {
    assert ds[..i + 1] == ds[..i] + [ds[i]];
  }

  /** A put finds its entry again, and drops another only to make room, the oldest first. */
  lemma {:induction false} LruPutIs(lru: Lru, limit: nat, key: Key, doc: Doc, other: Key)
    requires |lru| <= limit && other != key
    ensures limit == 0 ==> LruPut(lru, limit, key, doc) == []
    ensures limit > 0 ==> LruGet(LruPut(lru, limit, key, doc), key) == Some(doc)
    ensures LruGet(LruPut(lru, limit, key, doc), other) ==
            if lru != [] && LruGet(lru, key) == None && |lru| == limit && lru[0].0 == other then LruGet(lru[1..], other)
            else LruGet(lru, other)
  {
    var removed := LruRemove(lru, key);
    LruRemoveIs(lru, key, other);
    LruGetAppend(removed, key, doc, other);
    if lru != [] && LruGet(lru, key) == None {
      assert removed == lru;
      if |lru| == limit {
        assert (removed + [(key, doc)])[1..] == lru[1..] + [(key, doc)];
        LruGetAppend(lru[1..], key, doc, other);
      }
    }
  }

  /** A write to a collection drops its cached documents and keeps those of the others. */
  lemma {:induction false} LruDropIs(lru: Lru, coll: string, key: Key)
    ensures LruGet(LruDrop(lru, coll), key) == if key.coll == coll then None else LruGet(lru, key)
  {
    if lru != [] {
      LruDropIs(lru[1..], coll, key);
      if lru[0].0.coll != coll {
        assert LruDrop(lru, coll)[1..] == LruDrop(lru[1..], coll);
      }
    }
  }

  lemma {:induction false} LruRemoveIs(lru: Lru, key: Key, other: Key)
    requires other != key
    ensures LruGet(LruRemove(lru, key), key) == None && LruGet(LruRemove(lru, key), other) == LruGet(lru, other)
    ensures LruGet(lru, key) == None ==> LruRemove(lru, key) == lru
  {
    if lru != [] {
      LruRemoveIs(lru[1..], key, other);
      assert lru == [lru[0]] + lru[1..];
    }
  }

  lemma {:induction false} LruGetAppend(lru: Lru, key: Key, doc: Doc, other: Key)
    requires other != key
    ensures LruGet(lru + [(key, doc)], other) == LruGet(lru, other)
    ensures LruGet(lru, key) == None ==> LruGet(lru + [(key, doc)], key) == Some(doc)
  {
    var longer := lru + [(key, doc)];
    if lru != [] {
      LruGetAppend(lru[1..], key, doc, other);
      assert longer[1..] == lru[1..] + [(key, doc)];
    }
  }

  /** Warming with a document keeps the cache right exactly when the hash holds it under its own id. */
  lemma {:induction false} WarmingIsRightIff(lru: Lru, docs: Docs, limit: nat, str: Str, coll: string, d: Doc)
    requires Coherent(lru, docs) && |lru| <= limit && 0 < limit
    ensures Coherent(Warmed(lru, limit, str, coll, [d]), docs) <==> UnderOwnId(docs, str, coll, d)
  {
    assert Warmed(lru, limit, str, coll, [d][..0]) == lru;
    var key := Key(coll, IdOf(str, d));
    if IdOf(str, d) != "" {
      var after := LruPut(lru, limit, key, d);
      assert after[|after| - 1] == (key, d);
      assert (key, d) in after;
    }
  }

  ghost predicate IsStored(docs: Docs, coll: string, d: Doc) {
    exists k :: k in docs && k.coll == coll && docs[k] == d
  }

  /** In a store whose documents lie under their own ids, any result of `find_many` warms the LRU rightly. */
  lemma {:induction false} IdedStoreWarms(lru: Lru, docs: Docs, limit: nat, str: Str, coll: string, matched: seq<Doc>)
    requires Coherent(lru, docs) && |lru| <= limit && IdedDocs(docs, str)
    requires forall d :: d in matched ==> IsStored(docs, coll, d)
    ensures Coherent(Warmed(lru, limit, str, coll, matched), docs) && |Warmed(lru, limit, str, coll, matched)| <= limit
  {
    if matched != [] {
      var init, d := matched[..|matched| - 1], matched[|matched| - 1];
      assert d in matched && forall e :: e in init ==> e in matched;
      IdedStoreWarms(lru, docs, limit, str, coll, init);
      assert IsStored(docs, coll, d);
      var k :| k in docs && k.coll == coll && docs[k] == d;
      assert k == Key(coll, IdOf(str, d));
    }
  }

  // ---------------------------------------------------------------------
  // Lemmas the methods rest on
  // ---------------------------------------------------------------------

  ghost predicate SameAt(a: Slots, b: Slots, s: Slot) {
    (s in a <==> s in b) && (s in a && s in b ==> a[s] == b[s])
  }

  lemma SameEverywhere(a: Slots, b: Slots)
    requires forall s :: SameAt(a, b, s)
    ensures a == b
  {
    forall s ensures s in a <==> s in b {
      assert SameAt(a, b, s);
    }
    forall s | s in a ensures a[s] == b[s] {
      assert SameAt(a, b, s);
    }
  }

  /** Half way through an update: what was claimed was free, what was released was ours. */
  ghost predicate Moving(base: Slots, now: Slots, newClaims: seq<Slot>, oldReleased: seq<Slot>, id: string) {
    && (forall s :: s in newClaims ==> s !in base && Owns(now, id, s))
    && (forall s :: s in oldReleased ==> Owns(base, id, s) && s !in now)
    && (forall s :: s !in newClaims && s !in oldReleased ==> SameAt(base, now, s))
  }

  lemma ReleaseKeepsMoving(base: Slots, now: Slots, newClaims: seq<Slot>, oldReleased: seq<Slot>, id: string, s: Slot)
    requires Moving(base, now, newClaims, oldReleased, id)
    requires Owns(base, id, s) && s !in oldReleased
    ensures Owns(now, id, s) && Moving(base, now - {s}, newClaims, oldReleased + [s], id)
  {
    assert SameAt(base, now, s);
    forall t | t !in newClaims && t !in oldReleased + [s] ensures SameAt(base, now - {s}, t) {
      assert SameAt(base, now, t);
    }
  }

  lemma ClaimKeepsMoving(base: Slots, now: Slots, newClaims: seq<Slot>, oldReleased: seq<Slot>, id: string, s: Slot)
    requires Moving(base, now, newClaims, oldReleased, id)
    requires s !in newClaims && s !in oldReleased
    ensures s in now <==> s in base
    ensures s !in now ==> Moving(base, now[s := id], newClaims + [s], oldReleased, id)
  {
    assert SameAt(base, now, s);
    forall t | t !in newClaims + [s] && t !in oldReleased ensures SameAt(base, now[s := id], t) {
      assert SameAt(base, now, t);
    }
  }

  /** One more index adds its own two slots, which no other index of the collection mentions. */
  lemma ClaimsStep(done: set<Index>, ix: Index, coll: string, before: Doc, after: Doc)
    requires ix !in done
    ensures var was, now := Get(before, ix.field), Get(after, ix.field);
            var moves := Changes(ix, coll, before, after);
            && Claims(done + {ix}, coll, before, after) ==
               Claims(done, coll, before, after) + (if moves && !now.Null? then {Slot(coll, ix.field, now)} else {})
            && Releases(done + {ix}, coll, before, after) ==
               Releases(done, coll, before, after) + (if moves && !was.Null? then {Slot(coll, ix.field, was)} else {})
            && (moves ==> forall v :: Slot(coll, ix.field, v) !in Claims(done, coll, before, after) + Releases(done, coll, before, after))
  {
    assert forall o :: o in done && o.coll == ix.coll && o.unique == ix.unique ==> o.field != ix.field;
  }

  lemma {:induction false} SlotsMoved(base: Slots, now: Slots, newClaims: seq<Slot>, oldReleased: seq<Slot>,
                   indexes: set<Index>, coll: string, before: Doc, after: Doc, id: string)
    requires Moving(base, now, newClaims, oldReleased, id)
    requires forall s :: s in newClaims <==> s in Claims(indexes, coll, before, after)
    requires forall s :: s in oldReleased <==> s in Releases(indexes, coll, before, after)
    ensures now == SlotsAfter(base, indexes, coll, before, after, id)
  {
    var want := SlotsAfter(base, indexes, coll, before, after, id);
    forall s ensures SameAt(now, want, s) {
      if s !in newClaims && s !in oldReleased {
        assert SameAt(base, now, s);
      }
    }
    SameEverywhere(now, want);
  }

  lemma NeededStep(done: set<Index>, ix: Index, coll: string, doc: Doc)
    requires ix !in done
    ensures var needs := ix.coll == coll && ix.unique && !Get(doc, ix.field).Null?;
            && Needed(done + {ix}, coll, doc) ==
               Needed(done, coll, doc) + (if needs then {Slot(coll, ix.field, Get(doc, ix.field))} else {})
            && (needs ==> Slot(coll, ix.field, Get(doc, ix.field)) !in Needed(done, coll, doc))
  {
    assert forall o :: o in done && o.coll == ix.coll && o.unique == ix.unique ==> o.field != ix.field;
  }

  lemma NeededMonotonic(some: set<Index>, all: set<Index>, coll: string, doc: Doc)
    requires some <= all
    ensures Needed(some, coll, doc) <= Needed(all, coll, doc)
  {
  }

  /** What the next index of the claim loop adds to the slots needed. */
  lemma OneMoreIndex(indexes: set<Index>, done: set<Index>, ix: Index, coll: string, doc: Doc, base: Slots, id: string)
    requires ix in indexes && ix !in done && done <= indexes
    ensures var s, before, after := Slot(coll, ix.field, Get(doc, ix.field)), Needed(done, coll, doc), Needed(done + {ix}, coll, doc);
            if ix.coll == coll && ix.unique && !Get(doc, ix.field).Null? then
              && after == before + {s} && s !in before && s in Needed(indexes, coll, doc)
              && (s in Granted(base, before, id) <==> s in base)
              && Granted(base, after, id) == Granted(base, before, id)[s := id]
            else after == before
    ensures Needed(done, coll, doc) <= Needed(indexes, coll, doc)
  {
    NeededStep(done, ix, coll, doc);
    NeededMonotonic(done, indexes, coll, doc);
    if ix.coll == coll && ix.unique && !Get(doc, ix.field).Null? {
      GrantOneMore(base, Needed(done, coll, doc), Slot(coll, ix.field, Get(doc, ix.field)), id);
    }
  }

  lemma GrantOneMore(base: Slots, taken: set<Slot>, s: Slot, id: string)
    requires s !in taken
    ensures s in Granted(base, taken, id) <==> s in base
    ensures Granted(base, taken + {s}, id) == Granted(base, taken, id)[s := id]
  {
  }

  lemma GrantKeepsOwned(docs: Docs, base: Slots, now: Slots, indexes: set<Index>)
    requires Owned(docs, base, indexes)
    requires forall s :: s in base ==> s in now && now[s] == base[s]
    ensures Owned(docs, now, indexes)
  {
    forall k, s | k in docs && s in Needed(indexes, k.coll, docs[k]) ensures Owns(now, k.id, s) {
      assert Owns(base, k.id, s);
    }
  }

  lemma {:induction false} InsertKeepsOwned(docs: Docs, base: Slots, now: Slots, indexes: set<Index>, coll: string, id: string, doc: Doc)
    requires Owned(docs, base, indexes)
    requires now == Granted(base, Needed(indexes, coll, doc), id)
    requires forall s :: s in Needed(indexes, coll, doc) ==> s !in base
    ensures Owned(docs[Key(coll, id) := doc], now, indexes)
  {
    var key := Key(coll, id);
    forall k, s | k in docs[key := doc] && s in Needed(indexes, k.coll, docs[key := doc][k]) ensures Owns(now, k.id, s) {
      if k != key {
        assert Owns(base, k.id, s);
      }
    }
  }

  /** The finished update leaves every document, the updated one included, with its slots. */
  lemma {:induction false} MovedKeepsOwned(docs: Docs, base: Slots, now: Slots, indexes: set<Index>, coll: string, id: string, after: Doc)
    requires Owned(docs, base, indexes) && Key(coll, id) in docs
    requires var before := docs[Key(coll, id)];
             && now == SlotsAfter(base, indexes, coll, before, after, id)
             && forall s :: s in Claims(indexes, coll, before, after) ==> s !in base
    ensures Owned(docs[Key(coll, id) := after], now, indexes)
  {
    var key := Key(coll, id);
    var before := docs[key];
    forall k, s | k in docs && s in Needed(indexes, k.coll, docs[key := after][k]) ensures Owns(now, k.id, s) {
      if k == key {
        var ix :| ix in indexes && ix.coll == coll && ix.unique && !Get(after, ix.field).Null? && s == Slot(coll, ix.field, Get(after, ix.field));
        if Changes(ix, coll, before, after) {
          assert s in Claims(indexes, coll, before, after);
        } else {
          assert s in Needed(indexes, coll, before);
          assert s !in Releases(indexes, coll, before, after);
        }
      } else {
        assert Owns(base, k.id, s);
        assert Releases(indexes, coll, before, after) <= Needed(indexes, coll, before);
        assert forall t :: t in Releases(indexes, coll, before, after) ==> Owns(base, key.id, t) && t.coll == coll;
        assert k.coll == s.coll;
      }
    }
  }

  lemma {:induction false} DeleteKeepsOwned(docs: Docs, base: Slots, now: Slots, indexes: set<Index>, coll: string, id: string)
    requires Owned(docs, base, indexes)
    requires now == map s | s in base && !(IsIndexed(indexes, coll, s) && base[s] == id) :: base[s]
    ensures Owned(docs - {Key(coll, id)}, now, indexes)
  {
    var left := docs - {Key(coll, id)};
    forall k, s | k in left && s in Needed(indexes, k.coll, left[k]) ensures Owns(now, k.id, s) {
      assert s in Needed(indexes, k.coll, docs[k]) && Owns(base, k.id, s);
      assert s.coll == k.coll;
    }
  }

  predicate IsIndexed(indexes: set<Index>, coll: string, s: Slot) {
    s.coll == coll && exists ix :: ix in indexes && ix.coll == coll && ix.field == s.field
  }

  /** No two documents share a value and no value is held by an outsider. */
  ghost predicate Adoptable(docs: Docs, slots: Slots, coll: string, field: string) {
    && (forall k :: k in docs && k.coll == coll && !Get(docs[k], field).Null? ==>
                      var s := Slot(coll, field, Get(docs[k], field));
                      s in slots ==> slots[s] == k.id)
    && (forall k, l :: k in docs && l in docs && k.coll == l.coll == coll && Get(docs[k], field) == Get(docs[l], field) != Null ==> k == l)
  }

  /** The documents of `done` have been entered and nothing else has changed. */
  ghost predicate OthersSame(a: Slots, b: Slots, coll: string, field: string) {
    forall s: Slot :: s.coll != coll || s.field != field ==> SameAt(a, b, s)
  }

  ghost predicate Adopted(docs: Docs, done: set<Key>, base: Slots, now: Slots, coll: string, field: string) {
    && (forall k :: k in done && k in docs && k.coll == coll && !Get(docs[k], field).Null? ==>
                      var s := Slot(coll, field, Get(docs[k], field));
                      Owns(now, k.id, s) && (s in base ==> base[s] == k.id))
    && (forall s :: s in base ==> s in now && now[s] == base[s])
    && (forall s :: s in now && s !in base ==>
                      s.coll == coll && s.field == field &&
                      exists k :: k in done && k in docs && k.coll == coll && Get(docs[k], field) == s.value && !s.value.Null? && now[s] == k.id)
  }

  lemma {:induction false} NotAdoptable(docs: Docs, done: set<Key>, base: Slots, now: Slots, coll: string, field: string, k: Key)
    requires Adopted(docs, done, base, now, coll, field)
    requires k in docs && k.coll == coll && !Get(docs[k], field).Null?
    requires var s := Slot(coll, field, Get(docs[k], field)); s in now && now[s] != k.id
    ensures !Adoptable(docs, base, coll, field)
  {
    var s := Slot(coll, field, Get(docs[k], field));
    if s !in base {
      var l :| l in done && l in docs && l.coll == coll && Get(docs[l], field) == s.value && now[s] == l.id;
      assert l != k;
    }
  }

  lemma AdoptKeepsOwned(docs: Docs, slots: Slots, indexes: set<Index>, k: Key, s: Slot, unique: bool)
    requires Owned(docs, slots, indexes) && k in docs && s == Slot(k.coll, s.field, Get(docs[k], s.field)) && !s.value.Null?
    requires unique ==> s in slots ==> slots[s] == k.id
    ensures Owned(docs, slots[s := k.id], indexes)
  {
    forall l, t | l in docs && t in Needed(indexes, l.coll, docs[l]) ensures Owns(slots[s := k.id], l.id, t) {
      assert Owns(slots, l.id, t);
      if t == s {
        assert s in Needed(indexes, k.coll, docs[k]);
        assert Owns(slots, k.id, s);
      }
    }
  }

  lemma {:induction false} AdoptedIsOwned(docs: Docs, base: Slots, now: Slots, indexes: set<Index>, coll: string, field: string)
    requires Owned(docs, now, indexes) && Adopted(docs, docs.Keys, base, now, coll, field)
    ensures Owned(docs, now, indexes + {Index(coll, field, true)})
    ensures Adoptable(docs, base, coll, field)
  {
    forall k, s | k in docs && s in Needed(indexes + {Index(coll, field, true)}, k.coll, docs[k]) ensures Owns(now, k.id, s) {
      if s !in Needed(indexes, k.coll, docs[k]) {
        assert s == Slot(coll, field, Get(docs[k], field));
      }
    }
    forall k, l | k in docs && l in docs && k.coll == l.coll == coll && Get(docs[k], field) == Get(docs[l], field) != Null ensures k == l {
      var s := Slot(coll, field, Get(docs[k], field));
      assert Owns(now, k.id, s) && Owns(now, l.id, s);
    }
  }
}
