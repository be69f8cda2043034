/**
 Joins the two models of `insert_one` (osimflow/document_store.py): run alone, command by
 command, a call of ConcurrentInsert ends as RedisDocumentStore.Store.InsertOne promises, and
 both speak of the same slots and the same ownership.
 */
module SoloInsert {
  import opened Documents
  import opened ConcurrentInsert
  import R = RedisDocumentStore

  // ---------------------------------------------------------------------
  // The same slots
  // ---------------------------------------------------------------------

  function Lift(coll: string, slot: Slot): R.Slot {
    R.Slot(coll, slot.field, slot.value)
  }

  function LiftSlots(coll: string, slots: map<Slot, Id>): R.Slots {
    map s: R.Slot | s in (set k | k in slots :: Lift(coll, k)) :: slots[Slot(s.field, s.value)]
  }

  function LiftDocs(coll: string, docs: map<Id, Doc>): R.Docs {
    map k: R.Key | k in (set id | id in docs :: R.Key(coll, id)) :: docs[k.id]
  }

  function IndexesOf(coll: string, unique: set<string>): set<R.Index> {
    set f | f in unique :: R.Index(coll, f, true)
  }

  lemma LiftedSlot(coll: string, slots: map<Slot, Id>, slot: Slot)
    ensures Lift(coll, slot) in LiftSlots(coll, slots) <==> slot in slots
    ensures slot in slots ==> LiftSlots(coll, slots)[Lift(coll, slot)] == slots[slot]
  {
    assert forall k :: k in slots && Lift(coll, k) == Lift(coll, slot) ==> k == slot;
  }

  lemma LiftedDoc(coll: string, docs: map<Id, Doc>, id: Id)
    ensures R.Key(coll, id) in LiftDocs(coll, docs) <==> id in docs
    ensures id in docs ==> LiftDocs(coll, docs)[R.Key(coll, id)] == docs[id]
  {
  }

  lemma NeedsField(coll: string, unique: set<string>, doc: Doc, f: string)
    requires f in unique && !Get(doc, f).Null?
    ensures Lift(coll, Slot(f, Get(doc, f))) in R.Needed(IndexesOf(coll, unique), coll, doc)
  {
    assert R.Index(coll, f, true) in IndexesOf(coll, unique);
  }

  lemma NeededField(coll: string, unique: set<string>, doc: Doc, s: R.Slot)
    requires s in R.Needed(IndexesOf(coll, unique), coll, doc)
    ensures s.field in unique && !Get(doc, s.field).Null? && s == Lift(coll, Slot(s.field, Get(doc, s.field)))
  {
  }

  /** The two invariants are one. */
  lemma {:induction false} OwnershipIsTheSame(coll: string, s: State, unique: set<string>)
    ensures DocsOwnSlots(s, unique) <==> R.Owned(LiftDocs(coll, s.docs), LiftSlots(coll, s.slots), IndexesOf(coll, unique))
  {
    var docs, slots, indexes := LiftDocs(coll, s.docs), LiftSlots(coll, s.slots), IndexesOf(coll, unique);
    if DocsOwnSlots(s, unique) {
      forall k, n | k in docs && n in R.Needed(indexes, k.coll, docs[k]) ensures R.Owns(slots, k.id, n) {
        LiftedDoc(coll, s.docs, k.id);
        NeededField(coll, unique, docs[k], n);
        var slot := Slot(n.field, Get(docs[k], n.field));
        assert Owns(s, k.id, slot);
        LiftedSlot(coll, s.slots, slot);
      }
    }
    if R.Owned(docs, slots, indexes) {
      forall id, f | id in s.docs && f in unique && !Get(s.docs[id], f).Null? ensures Owns(s, id, Slot(f, Get(s.docs[id], f))) {
        var slot := Slot(f, Get(s.docs[id], f));
        LiftedDoc(coll, s.docs, id);
        NeedsField(coll, unique, s.docs[id], f);
        assert R.Owns(slots, id, Lift(coll, slot));
        LiftedSlot(coll, s.slots, slot);
      }
    }
  }

  // ---------------------------------------------------------------------
  // One call alone
  // ---------------------------------------------------------------------

  /** Only the write of the document may fail. */
  function SoloStep(s: State, id: Id, hsetOk: bool): State {
    Step(s, id, id in s.calls && s.calls[id].stage.Claiming? ==> hsetOk)
  }

  function Solo(s: State, id: Id, hsetOk: bool, n: nat): State {
    if n == 0 then s else SoloStep(Solo(s, id, hsetOk, n - 1), id, hsetOk)
  }

  ghost predicate Reaches(s: State, id: Id, hsetOk: bool, t: State) {
    exists n: nat :: Solo(s, id, hsetOk, n) == t
  }

  lemma ReachesNext(s: State, id: Id, hsetOk: bool, t: State)
    requires Reaches(s, id, hsetOk, t)
    ensures Reaches(s, id, hsetOk, SoloStep(t, id, hsetOk))
  {
    var n: nat :| Solo(s, id, hsetOk, n) == t;
    assert Solo(s, id, hsetOk, n + 1) == SoloStep(t, id, hsetOk);
  }

  /** The slots of the unique fields from the i-th up to, and without, the j-th. */
  function Wanted(c: Call, i: nat, j: nat): set<Slot>
    requires i <= j <= |c.fields|
  {
    set k | i <= k < j && !c.Skips(k) :: c.SlotAt(k)
  }

  function Grant(slots: map<Slot, Id>, taken: set<Slot>, id: Id): map<Slot, Id> {
    slots + map s | s in taken :: id
  }

  ghost predicate FreshCall(c: Call) {
    c.stage == Claiming(0) && c.lost == {} && forall j, k :: 0 <= j < k < |c.fields| ==> c.fields[j] != c.fields[k]
  }

  ghost predicate NoneTaken(s: State, slots: set<Slot>) {
    forall slot :: slot in slots ==> slot !in s.slots
  }

  function Claimed(s: State, id: Id, c: Call, i: nat): State
    requires i <= |c.fields|
  {
    WithCall(s.(slots := Grant(s.slots, Wanted(c, 0, i), id)), id, c.(stage := Claiming(i)))
  }

  function Released(s: State, id: Id, c: Call, i: nat): State
    requires i <= |c.fields|
  {
    WithCall(s.(slots := Grant(s.slots, Wanted(c, i, |c.fields|), id)), id, c.(stage := Releasing(i)))
  }

  lemma WantedNext(c: Call, i: nat)
    requires FreshCall(c) && i < |c.fields|
    ensures Wanted(c, 0, i + 1) == if c.Skips(i) then Wanted(c, 0, i) else Wanted(c, 0, i) + {c.SlotAt(i)}
    ensures Wanted(c, i, |c.fields|) == if c.Skips(i) then Wanted(c, i + 1, |c.fields|) else {c.SlotAt(i)} + Wanted(c, i + 1, |c.fields|)
    ensures c.SlotAt(i) !in Wanted(c, 0, i) && c.SlotAt(i) !in Wanted(c, i + 1, |c.fields|)
  {
  }

  lemma GrantNext(slots: map<Slot, Id>, taken: set<Slot>, slot: Slot, id: Id)
    requires slot !in slots && slot !in taken
    ensures slot !in Grant(slots, taken, id)
    ensures Grant(slots, taken + {slot}, id) == Grant(slots, taken, id)[slot := id]
  {
  }

  lemma GrantBack(slots: map<Slot, Id>, taken: set<Slot>, slot: Slot, id: Id)
    requires slot !in slots && slot !in taken
    ensures slot in Grant(slots, {slot} + taken, id) && Grant(slots, {slot} + taken, id)[slot] == id
    ensures Grant(slots, {slot} + taken, id) - {slot} == Grant(slots, taken, id)
  {
  }

  lemma WithCallTwice(s: State, id: Id, c: Call, d: Call)
    ensures WithCall(WithCall(s, id, c), id, d) == WithCall(s, id, d)
  {
    assert s.calls[id := c][id := d] == s.calls[id := d];
  }

  /** The command a call issues next. */
  lemma NextCommand(t: State, id: Id, hsetOk: bool)
    requires id in t.calls
    ensures var c := t.calls[id];
            && (c.stage.Claiming? && c.stage.next < |c.fields| ==> SoloStep(t, id, hsetOk) == ClaimStep(t, id, c, c.stage.next))
            && (c.stage.Claiming? && c.stage.next >= |c.fields| ==> SoloStep(t, id, hsetOk) == WriteStep(t, id, c, hsetOk))
            && (c.stage.Releasing? && c.stage.next < |c.fields| ==> SoloStep(t, id, hsetOk) == ReleaseGetStep(t, id, c, c.stage.next, true))
            && (c.stage.Releasing? && c.stage.next >= |c.fields| ==> SoloStep(t, id, hsetOk) == WithCall(t, id, c.(stage := Failed)))
            && (c.stage.Deleting? && c.stage.next < |c.fields| ==> SoloStep(t, id, hsetOk) == ReleaseDelStep(t, id, c, c.stage.next, true))
  {
  }

  lemma NothingClaimed(s: State, id: Id, c: Call, hsetOk: bool)
    requires id in s.calls && s.calls[id] == c && FreshCall(c)
    ensures Reaches(s, id, hsetOk, Claimed(s, id, c, 0))
  {
    assert Wanted(c, 0, 0) == {} && Grant(s.slots, {}, id) == s.slots;
    assert s.calls[id := c] == s.calls;
    assert Claimed(s, id, c, 0) == Solo(s, id, hsetOk, 0);
  }

  lemma {:induction false} ClaimsGoThrough(s: State, id: Id, c: Call, hsetOk: bool, i: nat)
    requires id in s.calls && s.calls[id] == c && FreshCall(c) && i <= |c.fields| && NoneTaken(s, Wanted(c, 0, i))
    ensures Reaches(s, id, hsetOk, Claimed(s, id, c, i))
  {
    if i == 0 {
      NothingClaimed(s, id, c, hsetOk);
    } else {
      FewerTaken(s, c, i);
      ClaimsGoThrough(s, id, c, hsetOk, i - 1);
      ReachesNext(s, id, hsetOk, Claimed(s, id, c, i - 1));
      ClaimGoesThrough(s, id, c, hsetOk, i - 1);
    }
  }

  lemma FewerTaken(s: State, c: Call, i: nat)
    requires 0 < i <= |c.fields| && NoneTaken(s, Wanted(c, 0, i))
    ensures NoneTaken(s, Wanted(c, 0, i - 1))
  {
    assert Wanted(c, 0, i - 1) <= Wanted(c, 0, i);
  }

  lemma ClaimGoesThrough(s: State, id: Id, c: Call, hsetOk: bool, i: nat)
    requires id in s.calls && s.calls[id] == c && FreshCall(c) && i < |c.fields| && NoneTaken(s, Wanted(c, 0, i + 1))
    ensures SoloStep(Claimed(s, id, c, i), id, hsetOk) == Claimed(s, id, c, i + 1)
  {
    WantedNext(c, i);
    var t := Claimed(s, id, c, i);
    NextCommand(t, id, hsetOk);
    assert t.calls[id].SlotAt(i) == c.SlotAt(i) && t.calls[id].Skips(i) == c.Skips(i);
    var u := s.(slots := Grant(s.slots, Wanted(c, 0, i), id));
    if c.Skips(i) {
      WithCallTwice(u, id, c.(stage := Claiming(i)), c.(stage := Claiming(i + 1)));
    } else {
      assert c.SlotAt(i) in Wanted(c, 0, i + 1);
      GrantNext(s.slots, Wanted(c, 0, i), c.SlotAt(i), id);
      WithCallTwice(u.(slots := Grant(s.slots, Wanted(c, 0, i + 1), id)), id, c.(stage := Claiming(i)), c.(stage := Claiming(i + 1)));
    }
  }

  /** The first refused claim. */
  lemma {:induction false} FirstTaken(s: State, c: Call, i: nat) returns (j: nat)
    requires i <= |c.fields| && !NoneTaken(s, Wanted(c, 0, i))
    ensures j < i && !c.Skips(j) && c.SlotAt(j) in s.slots && NoneTaken(s, Wanted(c, 0, j))
  {
    if NoneTaken(s, Wanted(c, 0, i - 1)) {
      j := i - 1;
    } else {
      j := FirstTaken(s, c, i - 1);
    }
  }

  lemma {:induction false} ReleasesGoThrough(s: State, id: Id, c: Call, i: nat)
    requires id in s.calls && s.calls[id] == c && FreshCall(c) && i <= |c.fields| && NoneTaken(s, Wanted(c, 0, |c.fields|))
    requires Reaches(s, id, false, Released(s, id, c, 0))
    ensures Reaches(s, id, false, Released(s, id, c, i))
  {
    if i > 0 {
      ReleasesGoThrough(s, id, c, i - 1);
      ReleaseGoesThrough(s, id, c, i - 1);
    }
  }

  lemma ReleaseGoesThrough(s: State, id: Id, c: Call, i: nat)
    requires id in s.calls && s.calls[id] == c && FreshCall(c) && i < |c.fields| && NoneTaken(s, Wanted(c, 0, |c.fields|))
    requires Reaches(s, id, false, Released(s, id, c, i))
    ensures Reaches(s, id, false, Released(s, id, c, i + 1))
  {
    var t := Released(s, id, c, i);
    ReachesNext(s, id, false, t);
    if c.Skips(i) {
      SkipIsPassed(s, id, c, i);
    } else {
      assert c.SlotAt(i) in Wanted(c, 0, |c.fields|);
      OwnSlotIsSeen(s, id, c, i);
      var u := SoloStep(t, id, false);
      ReachesNext(s, id, false, u);
      DeleteGoesThrough(s, id, c, i, u);
    }
  }

  lemma SkipIsPassed(s: State, id: Id, c: Call, i: nat)
    requires id in s.calls && s.calls[id] == c && FreshCall(c) && i < |c.fields| && c.Skips(i)
    ensures SoloStep(Released(s, id, c, i), id, false) == Released(s, id, c, i + 1)
  {
    WantedNext(c, i);
    var t := Released(s, id, c, i);
    NextCommand(t, id, false);
    assert t.calls[id].Skips(i);
    WithCallTwice(s.(slots := t.slots), id, c.(stage := Releasing(i)), c.(stage := Releasing(i + 1)));
  }

  lemma OwnSlotIsSeen(s: State, id: Id, c: Call, i: nat)
    requires id in s.calls && s.calls[id] == c && FreshCall(c) && i < |c.fields| && !c.Skips(i) && c.SlotAt(i) !in s.slots
    ensures SoloStep(Released(s, id, c, i), id, false) ==
            WithCall(s.(slots := Grant(s.slots, Wanted(c, i, |c.fields|), id)), id, c.(stage := Deleting(i)))
  {
    WantedNext(c, i);
    GrantBack(s.slots, Wanted(c, i + 1, |c.fields|), c.SlotAt(i), id);
    var t := Released(s, id, c, i);
    NextCommand(t, id, false);
    assert !t.calls[id].Skips(i) && t.calls[id].SlotAt(i) == c.SlotAt(i);
    WithCallTwice(s.(slots := t.slots), id, c.(stage := Releasing(i)), c.(stage := Deleting(i)));
  }

  lemma DeleteGoesThrough(s: State, id: Id, c: Call, i: nat, u: State)
    requires id in s.calls && s.calls[id] == c && FreshCall(c) && i < |c.fields| && !c.Skips(i) && c.SlotAt(i) !in s.slots
    requires u == WithCall(s.(slots := Grant(s.slots, Wanted(c, i, |c.fields|), id)), id, c.(stage := Deleting(i)))
    ensures SoloStep(u, id, false) == Released(s, id, c, i + 1)
  {
    WantedNext(c, i);
    GrantBack(s.slots, Wanted(c, i + 1, |c.fields|), c.SlotAt(i), id);
    NextCommand(u, id, false);
    assert u.calls[id].SlotAt(i) == c.SlotAt(i);
    var after := s.(slots := Grant(s.slots, Wanted(c, i + 1, |c.fields|), id));
    WithCallTwice(after, id, c.(stage := Deleting(i)), c.(stage := Releasing(i + 1)));
  }

  /** How a call ends that runs alone. */
  ghost predicate EndsAlone(s: State, t: State, id: Id, c: Call, hsetOk: bool)
    requires id in t.calls
  {
    var wanted := Wanted(c, 0, |c.fields|);
    var stage := t.calls[id].stage;
    && (stage.Duplicate? <==> !NoneTaken(s, wanted))
    && (stage.Stored? <==> hsetOk && NoneTaken(s, wanted))
    && (stage.Failed? <==> !hsetOk && NoneTaken(s, wanted))
    && (stage.Duplicate? ==> t.docs == s.docs && exists left: set<Slot> :: left <= wanted && t.slots == Grant(s.slots, left, id))
    && (stage.Stored? ==> t.docs == s.docs[id := c.doc] && t.slots == Grant(s.slots, wanted, id))
    && (stage.Failed? ==> t.docs == s.docs && t.slots == s.slots)
  }

  lemma {:induction false} RefusedAlone(s: State, id: Id, c: Call, hsetOk: bool) returns (t: State)
    requires id in s.calls && s.calls[id] == c && FreshCall(c) && !NoneTaken(s, Wanted(c, 0, |c.fields|))
    ensures Reaches(s, id, hsetOk, t) && id in t.calls && EndsAlone(s, t, id, c, hsetOk)
  {
    var j := FirstTaken(s, c, |c.fields|);
    ClaimsGoThrough(s, id, c, hsetOk, j);
    var u := Claimed(s, id, c, j);
    ReachesNext(s, id, hsetOk, u);
    t := SoloStep(u, id, hsetOk);
    assert u.calls[id].SlotAt(j) == c.SlotAt(j) && u.calls[id].Skips(j) == c.Skips(j);
    assert c.SlotAt(j) in u.slots;
    assert Wanted(c, 0, j) <= Wanted(c, 0, |c.fields|);
  }

  lemma {:induction false} WrittenAlone(s: State, id: Id, c: Call, hsetOk: bool) returns (t: State)
    requires id in s.calls && s.calls[id] == c && FreshCall(c) && NoneTaken(s, Wanted(c, 0, |c.fields|))
    ensures Reaches(s, id, hsetOk, t) && id in t.calls && EndsAlone(s, t, id, c, hsetOk)
  {
    var u := Claimed(s, id, c, |c.fields|);
    ClaimsGoThrough(s, id, c, hsetOk, |c.fields|);
    ReachesNext(s, id, hsetOk, u);
    NextCommand(u, id, hsetOk);
    t := SoloStep(u, id, hsetOk);
    if !hsetOk {
      WithCallTwice(s.(slots := u.slots), id, c.(stage := Claiming(|c.fields|)), c.(stage := Releasing(0)));
      assert t == Released(s, id, c, 0);
      t := UndoneAlone(s, id, c);
    }
  }

  lemma {:induction false} UndoneAlone(s: State, id: Id, c: Call) returns (t: State)
    requires id in s.calls && s.calls[id] == c && FreshCall(c) && NoneTaken(s, Wanted(c, 0, |c.fields|))
    requires Reaches(s, id, false, Released(s, id, c, 0))
    ensures Reaches(s, id, false, t) && id in t.calls && t.calls[id].stage.Failed? && t.docs == s.docs && t.slots == s.slots
  {
    var n := |c.fields|;
    var u := Released(s, id, c, n);
    ReleasesGoThrough(s, id, c, n);
    ReachesNext(s, id, false, u);
    NextCommand(u, id, false);
    t := SoloStep(u, id, false);
    assert Wanted(c, n, n) == {} && Grant(s.slots, {}, id) == s.slots;
  }

  /**
   Without interference the commands of one call add up to `Store.InsertOne`: refused exactly if a
   wanted slot is taken, stored exactly if none is and the write goes through, undone otherwise.
   */
  lemma {:induction false} SoloRunIsInsertOne(s: State, id: Id, c: Call, hsetOk: bool) returns (t: State)
    requires id in s.calls && s.calls[id] == c && FreshCall(c)
    ensures Reaches(s, id, hsetOk, t) && id in t.calls && t.calls[id].Finished() && EndsAlone(s, t, id, c, hsetOk)
  {
    if NoneTaken(s, Wanted(c, 0, |c.fields|)) {
      t := WrittenAlone(s, id, c, hsetOk);
    } else {
      t := RefusedAlone(s, id, c, hsetOk);
    }
  }

  /** The slots it wants are those `Store.InsertOne` needs, and one is taken here exactly if it is taken there. */
  lemma {:induction false} WantedIsNeeded(coll: string, s: State, c: Call)
    ensures var needed := R.Needed(IndexesOf(coll, set f | f in c.fields), coll, c.doc);
            && needed == (set slot | slot in Wanted(c, 0, |c.fields|) :: Lift(coll, slot))
            && (R.Taken(needed, LiftSlots(coll, s.slots)) <==> !NoneTaken(s, Wanted(c, 0, |c.fields|)))
  {
    var unique := set f | f in c.fields;
    var wanted := Wanted(c, 0, |c.fields|);
    var needed := R.Needed(IndexesOf(coll, unique), coll, c.doc);
    forall n | n in needed ensures Slot(n.field, n.value) in wanted && n == Lift(coll, Slot(n.field, n.value)) {
      NeededField(coll, unique, c.doc, n);
      var k :| 0 <= k < |c.fields| && c.fields[k] == n.field;
      assert !c.Skips(k) && c.SlotAt(k) == Slot(n.field, n.value);
    }
    forall slot | slot in wanted ensures Lift(coll, slot) in needed {
      NeedsField(coll, unique, c.doc, slot.field);
    }
    forall slot ensures Lift(coll, slot) in LiftSlots(coll, s.slots) <==> slot in s.slots {
      LiftedSlot(coll, s.slots, slot);
    }
  }
}
