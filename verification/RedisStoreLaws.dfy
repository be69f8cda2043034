/**
 What the operations of the Redis store come to over runs (osimflow/document_store.py): automatic
 ids replace nothing, and an exact unique index refuses genuine duplicates and nothing else.
 */
module RedisStoreLaws {
  import opened Wrappers
  import opened Documents
  import opened RedisDocumentStore
  import Txt = Text

  /** An insert under an id of the client's own keeps the counter covering exactly if the id is not an automatic one to come. */
  lemma {:induction false} OwnIdKeepsCoveredIff(docs: Docs, counters: map<string, nat>, coll: string, id: string, doc: Doc)
    requires AutoCovered(docs, counters, coll)
    ensures AutoCovered(docs[Key(coll, id) := doc], counters, coll) <==>
            forall n: nat :: Key(coll, id) == AutoKey(coll, n) ==> n <= CountOf(counters, coll)
  {
    var after := docs[Key(coll, id) := doc];
    assert forall n: nat :: AutoKey(coll, n) in after <==> AutoKey(coll, n) in docs || Key(coll, id) == AutoKey(coll, n);
  }

  /** Inserts without an `_id` one after the other, from counter `n`. */
  function AutoInserted(docs: Docs, n: nat, coll: string, batch: seq<Doc>): Docs {
    if batch == [] then docs
    else
      var m, last := n + |batch|, batch[|batch| - 1];
      AutoInserted(docs, n, coll, batch[..|batch| - 1])[AutoKey(coll, m) := last["_id" := AutoId(m)]]
  }

  /** An automatic key handed out between counter `lo` and counter `hi`. */
  ghost predicate HandedOut(coll: string, key: Key, lo: nat, hi: nat) {
    exists m: nat :: lo < m <= hi && AutoKey(coll, m) == key
  }

  lemma MoreDocs(docs: Docs, key: Key, doc: Doc)
    ensures |docs[key := doc]| == |docs| + if key in docs then 0 else 1
  {
    assert docs[key := doc].Keys == docs.Keys + {key};
    if key in docs {
      assert docs.Keys + {key} == docs.Keys;
    }
  }

  lemma {:induction false} AutoInsertedAre(docs: Docs, n: nat, coll: string, batch: seq<Doc>, key: Key)
    ensures key in AutoInserted(docs, n, coll, batch) <==> key in docs || HandedOut(coll, key, n, n + |batch|)
  {
    if batch != [] {
      var init, m := batch[..|batch| - 1], n + |batch|;
      AutoInsertedAre(docs, n, coll, init, key);
      assert HandedOut(coll, key, n, m) <==> HandedOut(coll, key, n, m - 1) || key == AutoKey(coll, m);
    }
  }

  lemma {:induction false} AtMostOneEach(docs: Docs, n: nat, coll: string, batch: seq<Doc>)
    ensures |AutoInserted(docs, n, coll, batch)| <= |docs| + |batch|
  {
    if batch != [] {
      var init, last, m := batch[..|batch| - 1], batch[|batch| - 1], n + |batch|;
      AtMostOneEach(docs, n, coll, init);
      MoreDocs(AutoInserted(docs, n, coll, init), AutoKey(coll, m), last["_id" := AutoId(m)]);
    }
  }

  lemma NotYetHandedOut(coll: string, n: nat, m: nat)
    requires n < m
    ensures !HandedOut(coll, AutoKey(coll, m), n, m - 1)
  {
    forall i: nat | n < i <= m - 1 ensures AutoKey(coll, i) != AutoKey(coll, m) {
      if AutoKey(coll, i) == AutoKey(coll, m) {
        AutoKeyInjective(coll, i, m);
      }
    }
  }

  lemma {:induction false} CoveredBatchAdds(docs: Docs, n: nat, coll: string, batch: seq<Doc>)
    requires forall m: nat :: m > n ==> AutoKey(coll, m) !in docs
    ensures |AutoInserted(docs, n, coll, batch)| == |docs| + |batch|
  {
    if batch != [] {
      var init, last, m := batch[..|batch| - 1], batch[|batch| - 1], n + |batch|;
      CoveredBatchAdds(docs, n, coll, init);
      AutoInsertedAre(docs, n, coll, init, AutoKey(coll, m));
      NotYetHandedOut(coll, n, m);
      MoreDocs(AutoInserted(docs, n, coll, init), AutoKey(coll, m), last["_id" := AutoId(m)]);
    }
  }

  lemma ReplacingBatch(docs: Docs, n: nat, coll: string, m: nat) returns (batch: seq<Doc>)
    requires m > n && AutoKey(coll, m) in docs
    ensures |AutoInserted(docs, n, coll, batch)| < |docs| + |batch|
  {
    batch := seq(m - n, i => map[]);
    var init, last := batch[..|batch| - 1], batch[|batch| - 1];
    AutoInsertedAre(docs, n, coll, init, AutoKey(coll, m));
    AtMostOneEach(docs, n, coll, init);
    MoreDocs(AutoInserted(docs, n, coll, init), AutoKey(coll, m), last["_id" := AutoId(m)]);
  }

  /** Any number of automatic inserts add as many documents, exactly if no stored id looks like an automatic one to come. */
  lemma {:induction false} BatchesAddIffCovered(docs: Docs, counters: map<string, nat>, coll: string)
    ensures (forall batch :: |AutoInserted(docs, CountOf(counters, coll), coll, batch)| == |docs| + |batch|) <==>
            forall m: nat :: m > CountOf(counters, coll) ==> AutoKey(coll, m) !in docs
  {
    var n := CountOf(counters, coll);
    if forall m: nat :: m > n ==> AutoKey(coll, m) !in docs {
      forall batch ensures |AutoInserted(docs, n, coll, batch)| == |docs| + |batch| {
        CoveredBatchAdds(docs, n, coll, batch);
      }
    } else {
      var m: nat :| m > n && AutoKey(coll, m) in docs;
      var batch := ReplacingBatch(docs, n, coll, m);
    }
  }

  /** Exactly the filters `{"_id": <text>}` designate a document by its key; anything else is matched against the documents. */
  lemma {:induction false} IdFilterIs(f: Filter)
    ensures IsIdFilter(f) <==> exists id :: f == [Clause("_id", Value(Json.Text(id)))]
  {
    if IsIdFilter(f) {
      assert f == [Clause("_id", Value(Json.Text(f[0].cond.v.s)))];
    }
  }

  // ---------------------------------------------------------------------
  // An exact index refuses genuine duplicates and nothing else
  // ---------------------------------------------------------------------

  /** Every slot of a unique index points at a stored document that has the value. */
  ghost predicate Exact(docs: Docs, slots: Slots, indexes: set<Index>, coll: string) {
    forall s :: s in slots && s.coll == coll && Index(coll, s.field, true) in indexes ==>
      !s.value.Null? && Key(coll, slots[s]) in docs && Get(docs[Key(coll, slots[s])], s.field) == s.value
  }

  /** Some stored document of the collection has the same non-null value in a uniquely indexed field. */
  ghost predicate HasDuplicate(docs: Docs, indexes: set<Index>, coll: string, doc: Doc) {
    exists k, field :: k in docs && k.coll == coll && Index(coll, field, true) in indexes
                       && Get(docs[k], field) == Get(doc, field) != Null
  }

  /** With an exact index an insert is refused exactly for a duplicate value. */
  lemma {:induction false} RefusedIffDuplicateValue(docs: Docs, slots: Slots, indexes: set<Index>, coll: string, doc: Doc)
    requires Owned(docs, slots, indexes) && Exact(docs, slots, indexes, coll)
    ensures Taken(Needed(indexes, coll, doc), slots) <==> HasDuplicate(docs, indexes, coll, doc)
  {
    if Taken(Needed(indexes, coll, doc), slots) {
      var s :| s in Needed(indexes, coll, doc) && s in slots;
      var ix :| ix in indexes && ix.coll == coll && ix.unique && !Get(doc, ix.field).Null? && s == Slot(coll, ix.field, Get(doc, ix.field));
      assert ix == Index(coll, s.field, true);
    }
    if HasDuplicate(docs, indexes, coll, doc) {
      var k, field :| k in docs && k.coll == coll && Index(coll, field, true) in indexes && Get(docs[k], field) == Get(doc, field) != Null;
      var s, ix := Slot(coll, field, Get(doc, field)), Index(coll, field, true);
      assert s in Needed(indexes, coll, doc) && s in Needed(indexes, k.coll, docs[k]);
      assert Owns(slots, k.id, s);
    }
  }

  /** A successful insert keeps the index exact, unless it replaces a document that held a unique value: that slot is left behind. */
  lemma {:induction false} InsertKeepsExactIff(docs: Docs, slots: Slots, indexes: set<Index>, coll: string, id: string, doc: Doc)
    requires Owned(docs, slots, indexes) && Exact(docs, slots, indexes, coll) && !Taken(Needed(indexes, coll, doc), slots)
    ensures Exact(docs[Key(coll, id) := doc], Granted(slots, Needed(indexes, coll, doc), id), indexes, coll) <==>
            Key(coll, id) in docs ==> Needed(indexes, coll, docs[Key(coll, id)]) == {}
  {
    var key, now, after := Key(coll, id), Granted(slots, Needed(indexes, coll, doc), id), docs[Key(coll, id) := doc];
    if key in docs && Needed(indexes, coll, docs[key]) != {} {
      var s :| s in Needed(indexes, coll, docs[key]);
      assert Owns(slots, id, s) && s !in Needed(indexes, coll, doc);
      assert now[s] == id && Get(doc, s.field) != s.value;
    } else {
      forall s | s in now && s.coll == coll && Index(coll, s.field, true) in indexes
        ensures !s.value.Null? && Key(coll, now[s]) in after && Get(after[Key(coll, now[s])], s.field) == s.value
      {
        if s in slots && slots[s] == id {
          SlotHasValue(docs, slots, indexes, coll, s);
        }
      }
    }
  }

  lemma SlotHasValue(docs: Docs, slots: Slots, indexes: set<Index>, coll: string, s: Slot)
    requires Exact(docs, slots, indexes, coll) && s in slots && s.coll == coll && Index(coll, s.field, true) in indexes
    ensures Key(coll, slots[s]) in docs && s in Needed(indexes, coll, docs[Key(coll, slots[s])])
  {
  }

  // ---------------------------------------------------------------------
  // Updates, deletions and new indexes
  // ---------------------------------------------------------------------

  /** Another document of the collection has a unique value of this one. */
  ghost predicate SharesValue(docs: Docs, indexes: set<Index>, key: Key, after: Doc) {
    exists k, field :: k in docs && k.coll == key.coll && k != key && Index(key.coll, field, true) in indexes
                       && Get(docs[k], field) == Get(after, field) != Null
  }

  /** With an exact index an update is refused exactly if another document has one of the new values. */
  lemma {:induction false} UpdateRefusedIffShared(docs: Docs, slots: Slots, indexes: set<Index>, key: Key, after: Doc)
    requires Owned(docs, slots, indexes) && Exact(docs, slots, indexes, key.coll) && key in docs
    ensures Taken(Claims(indexes, key.coll, docs[key], after), slots) <==> SharesValue(docs, indexes, key, after)
  {
    var coll, before := key.coll, docs[key];
    if Taken(Claims(indexes, coll, before, after), slots) {
      var s :| s in Claims(indexes, coll, before, after) && s in slots;
      var ix :| ix in indexes && Changes(ix, coll, before, after) && !Get(after, ix.field).Null? && s == Slot(coll, ix.field, Get(after, ix.field));
      assert ix == Index(coll, s.field, true);
      assert Key(coll, slots[s]) in docs && Key(coll, slots[s]) != key;
    }
    if SharesValue(docs, indexes, key, after) {
      var k, field :| k in docs && k.coll == coll && k != key && Index(coll, field, true) in indexes && Get(docs[k], field) == Get(after, field) != Null;
      var s, ix := Slot(coll, field, Get(after, field)), Index(coll, field, true);
      assert s in Needed(indexes, k.coll, docs[k]);
      assert Owns(slots, k.id, s);
      if Get(before, field) == Get(after, field) {
        OwnedIsUnique(docs, slots, indexes, key, k, field);
      }
      assert Changes(ix, coll, before, after);
      assert s in Claims(indexes, coll, before, after);
    }
  }

  /** A successful update keeps the index exact. */
  lemma {:induction false} UpdateKeepsExact(docs: Docs, slots: Slots, indexes: set<Index>, key: Key, after: Doc)
    requires Owned(docs, slots, indexes) && Exact(docs, slots, indexes, key.coll) && key in docs
    ensures Exact(docs[key := after], SlotsAfter(slots, indexes, key.coll, docs[key], after, key.id), indexes, key.coll)
  {
    var coll, before := key.coll, docs[key];
    var now := SlotsAfter(slots, indexes, coll, before, after, key.id);
    forall s | s in now && s.coll == coll && Index(coll, s.field, true) in indexes
      ensures !s.value.Null? && Key(coll, now[s]) in docs && Get(docs[key := after][Key(coll, now[s])], s.field) == s.value
    {
      var ix := Index(coll, s.field, true);
      var was := Slot(coll, s.field, Get(before, s.field));
      assert Changes(ix, coll, before, after) && !was.value.Null? ==> was in Releases(indexes, coll, before, after);
      if s !in Claims(indexes, coll, before, after) && now[s] == key.id {
        assert Key(coll, now[s]) == key && was == s;
      }
    }
  }

  /** A deletion keeps the index exact: no slot of the deleted document is left. */
  lemma {:induction false} DeleteKeepsExact(docs: Docs, slots: Slots, now: Slots, indexes: set<Index>, coll: string, id: string)
    requires Exact(docs, slots, indexes, coll)
    requires now == map s | s in slots && !(IsIndexed(indexes, coll, s) && slots[s] == id) :: slots[s]
    ensures Exact(docs - {Key(coll, id)}, now, indexes, coll)
  {
    forall s | s in now && s.coll == coll && Index(coll, s.field, true) in indexes ensures now[s] != id {
      assert IsIndexed(indexes, coll, s);
    }
  }

  /** Without old slots of the field, a unique index can be created exactly if no two documents share a value. */
  lemma {:induction false} AdoptableIffDistinct(docs: Docs, slots: Slots, coll: string, field: string)
    requires forall s :: s in slots ==> s.coll != coll || s.field != field
    ensures Adoptable(docs, slots, coll, field) <==>
            !exists k, l :: k in docs && l in docs && k != l && k.coll == l.coll == coll && Get(docs[k], field) == Get(docs[l], field) != Null
  {
  }

  /** The index created then is exact. */
  lemma {:induction false} CreatedIndexIsExact(docs: Docs, base: Slots, now: Slots, indexes: set<Index>, coll: string, field: string)
    requires Owned(docs, now, indexes + {Index(coll, field, true)}) && Exact(docs, base, indexes, coll)
    requires OthersSame(base, now, coll, field)
    requires forall s: Slot :: s.coll == coll && s.field == field ==>
               (s in now <==> exists k :: k in docs && k.coll == coll && Get(docs[k], field) == s.value && !s.value.Null?)
    ensures Exact(docs, now, indexes + {Index(coll, field, true)}, coll)
  {
    var wider := indexes + {Index(coll, field, true)};
    forall s | s in now && s.coll == coll && Index(coll, s.field, true) in wider
      ensures !s.value.Null? && Key(coll, now[s]) in docs && Get(docs[Key(coll, now[s])], s.field) == s.value
    {
      if s.field == field {
        var k :| k in docs && k.coll == coll && Get(docs[k], field) == s.value && !s.value.Null?;
        assert s in Needed(wider, k.coll, docs[k]);
        assert Owns(now, k.id, s);
        assert k == Key(coll, now[s]);
      } else {
        assert SameAt(base, now, s);
      }
    }
  }
}
