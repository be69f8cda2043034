/**
 `RedisDocumentStore.insert_one` run by any number of processes at once, one
 Redis command at a time (osimflow/document_store.py). One call per document id;
 every process enforces the same unique fields, in an order of its own.
 A failed command has no effect; claims (HSETNX) are taken not to fail.
 */
module ConcurrentInsert {
  import opened Documents

  type Id = string

  /** A field of the per-index hash `osimflow:docs:idx:...:<field> -> { value: doc_id }`. */
  datatype Slot = Slot(field: string, value: Json)

  datatype Stage =
    | Claiming(next: nat)   // HSETNX of unique field `next`; HSET of the document after the last
    | Stored
    | Duplicate(at: nat)    // the claim of field `at` was refused
    | Releasing(next: nat)  // the HSET failed; HGET of field `next` comes next
    | Deleting(next: nat)   // that HGET returned our id; its HDEL comes next
    | Failed

  /** `lost` collects the slots whose release command itself failed. */
  datatype Call = Call(doc: Doc, fields: seq<string>, stage: Stage, lost: set<Slot>) {
    function SlotAt(j: nat): Slot
      requires j < |fields|
    {
      Slot(fields[j], Get(doc, fields[j]))
    }

    predicate Skips(j: nat)
      requires j < |fields|
    {
      Get(doc, fields[j]).Null?
    }

    predicate Finished() {
      stage.Stored? || stage.Duplicate? || stage.Failed?
    }

    /** At this stage the call owns the slot of its j-th unique field. */
    predicate Holds(j: nat)
      requires j < |fields|
    {
      && !Skips(j)
      && match stage
         case Claiming(i) => j < i
         case Stored => true
         case Duplicate(i) => j < i
         case Releasing(i) => i <= j
         case Deleting(i) => i <= j
         case Failed => false
    }

    predicate Leaks() {
      lost != {} || (stage.Duplicate? && exists j :: 0 <= j < stage.at && j < |fields| && !Skips(j))
    }
  }

  datatype State = State(docs: map<Id, Doc>, slots: map<Slot, Id>, calls: map<Id, Call>)

  // ---------------------------------------------------------------------
  // Steps
  // ---------------------------------------------------------------------

  function WithCall(s: State, id: Id, c: Call): State {
    s.(calls := s.calls[id := c])
  }

  function ClaimStep(s: State, id: Id, c: Call, i: nat): State
    requires i < |c.fields|
  {
    if c.Skips(i) then WithCall(s, id, c.(stage := Claiming(i + 1)))
    else if c.SlotAt(i) in s.slots then WithCall(s, id, c.(stage := Duplicate(i)))
    else WithCall(s.(slots := s.slots[c.SlotAt(i) := id]), id, c.(stage := Claiming(i + 1)))
  }

  function WriteStep(s: State, id: Id, c: Call, ok: bool): State {
    if ok then WithCall(s.(docs := s.docs[id := c.doc]), id, c.(stage := Stored))
    else WithCall(s, id, c.(stage := Releasing(0)))
  }

  function ReleaseGetStep(s: State, id: Id, c: Call, i: nat, ok: bool): State
    requires i < |c.fields|
  {
    if c.Skips(i) then WithCall(s, id, c.(stage := Releasing(i + 1)))
    else if !ok then WithCall(s, id, c.(stage := Releasing(i + 1), lost := c.lost + {c.SlotAt(i)}))
    else if c.SlotAt(i) in s.slots && s.slots[c.SlotAt(i)] == id then WithCall(s, id, c.(stage := Deleting(i)))
    else WithCall(s, id, c.(stage := Releasing(i + 1)))
  }

  function ReleaseDelStep(s: State, id: Id, c: Call, i: nat, ok: bool): State
    requires i < |c.fields|
  {
    if ok then WithCall(s.(slots := s.slots - {c.SlotAt(i)}), id, c.(stage := Releasing(i + 1)))
    else WithCall(s, id, c.(stage := Releasing(i + 1), lost := c.lost + {c.SlotAt(i)}))
  }

  /** The next command of call `id`; `ok` is false when Redis reports an error. */
  function Step(s: State, id: Id, ok: bool): State {
    if id !in s.calls then s
    else
      var c := s.calls[id];
      match c.stage
      case Claiming(i) => if i < |c.fields| then ClaimStep(s, id, c, i) else WriteStep(s, id, c, ok)
      case Releasing(i) =>
        if i < |c.fields| then ReleaseGetStep(s, id, c, i, ok) else WithCall(s, id, c.(stage := Failed))
      case Deleting(i) => if i < |c.fields| then ReleaseDelStep(s, id, c, i, ok) else s
      case _ => s
  }

  datatype Action = Action(id: Id, ok: bool)

  function Run(s: State, as_: seq<Action>): State {
    if as_ == [] then s else Step(Run(s, as_[..|as_| - 1]), as_[|as_| - 1].id, as_[|as_| - 1].ok)
  }

  // ---------------------------------------------------------------------
  // Invariant
  // ---------------------------------------------------------------------

  ghost predicate Owns(s: State, id: Id, slot: Slot) {
    slot in s.slots && s.slots[slot] == id
  }

  /** Every stored document owns the slot of each of its non-null unique values. */
  ghost predicate DocsOwnSlots(s: State, unique: set<string>) {
    forall id, f :: id in s.docs && f in unique && !Get(s.docs[id], f).Null? ==> Owns(s, id, Slot(f, Get(s.docs[id], f)))
  }

  ghost predicate CallShape(s: State, unique: set<string>, id: Id)
    requires id in s.calls
  {
    var c := s.calls[id];
    && (forall j, k :: 0 <= j < k < |c.fields| ==> c.fields[j] != c.fields[k])
    && (forall f :: f in c.fields <==> f in unique)
    && (c.stage.Stored? ==> id in s.docs && s.docs[id] == c.doc)
    && (c.stage.Deleting? ==> c.stage.next < |c.fields| && !c.Skips(c.stage.next))
    && (c.stage.Claiming? ==> c.stage.next <= |c.fields|)
    && (c.lost != {} ==> c.stage.Releasing? || c.stage.Deleting? || c.stage.Failed?)
  }

  ghost predicate CallHoldings(s: State, id: Id)
    requires id in s.calls
  {
    var c := s.calls[id];
    forall j :: 0 <= j < |c.fields| && c.Holds(j) ==> Owns(s, id, c.SlotAt(j))
  }

  ghost predicate CallLosses(s: State, id: Id)
    requires id in s.calls
  {
    var c := s.calls[id];
    forall l :: l in c.lost ==> Owns(s, id, l) && Earlier(c, l)
  }

  /** What a call holds is not what an older document under its id owns. */
  ghost predicate CallApart(s: State, id: Id)
    requires id in s.calls
  {
    var c := s.calls[id];
    id in s.docs && !c.stage.Stored? ==>
      forall j :: 0 <= j < |c.fields| && c.Holds(j) ==> Get(s.docs[id], c.fields[j]) != Get(c.doc, c.fields[j])
  }

  ghost predicate CallOk(s: State, unique: set<string>, id: Id) {
    id in s.calls ==> CallShape(s, unique, id) && CallHoldings(s, id) && CallLosses(s, id) && CallApart(s, id)
  }

  /** A lost slot belongs to a field the rollback has already passed. */
  ghost predicate Earlier(c: Call, l: Slot) {
    exists j :: 0 <= j < |c.fields| && c.SlotAt(j) == l && !c.Holds(j)
  }

  /** What every run keeps: owned documents and well-behaved calls. */
  ghost predicate Inv(s: State, unique: set<string>) {
    DocsOwnSlots(s, unique) && forall id :: CallOk(s, unique, id)
  }

  /** A call that has not begun. */
  ghost predicate NewCall(c: Call, unique: set<string>) {
    && c.stage == Claiming(0) && c.lost == {}
    && (forall j, k :: 0 <= j < k < |c.fields| ==> c.fields[j] != c.fields[k])
    && (forall f :: f in c.fields <==> f in unique)
  }

  /** Any store whose documents own their slots, leaked slots and stored ids included, and new calls. */
  ghost predicate Init(s: State, unique: set<string>) {
    DocsOwnSlots(s, unique) && forall id :: id in s.calls ==> NewCall(s.calls[id], unique)
  }

  lemma InitEstablishesInv(s: State, unique: set<string>)
    requires Init(s, unique)
    ensures Inv(s, unique)
  {
  }

  lemma StepKeepsDocs(s: State, unique: set<string>, id: Id, ok: bool)
    requires Inv(s, unique)
    ensures DocsOwnSlots(Step(s, id, ok), unique)
  {
    assert CallOk(s, unique, id);
    var t := Step(s, id, ok);
    forall d, f | d in t.docs && f in unique && !Get(t.docs[d], f).Null?
      ensures Owns(t, d, Slot(f, Get(t.docs[d], f)))
    {
      var slot := Slot(f, Get(t.docs[d], f));
      StepSparesSlot(s, unique, id, ok, slot);
      if d != id {
        StepSparesCall(s, id, ok, d);
        assert Owns(s, d, slot);
      } else if id in s.calls {
        OwnDocStays(s, unique, id, ok, f);
      }
    }
  }

  /** The document under the acting id, old or just written, owns its slots after the step. */
  lemma OwnDocStays(s: State, unique: set<string>, id: Id, ok: bool, f: string)
    requires Inv(s, unique) && id in s.calls && id in Step(s, id, ok).docs
    requires f in unique && !Get(Step(s, id, ok).docs[id], f).Null?
    ensures Owns(Step(s, id, ok), id, Slot(f, Get(Step(s, id, ok).docs[id], f)))
  {
    assert CallOk(s, unique, id);
    var c := s.calls[id];
    var j :| 0 <= j < |c.fields| && c.fields[j] == f;
    if c.stage.Claiming? && c.stage.next == |c.fields| && ok {
      assert Get(c.doc, f).Null? || c.Holds(j);
    } else {
      assert Owns(s, id, Slot(f, Get(s.docs[id], f)));
      if c.stage.Deleting? && c.stage.next == j {
        assert c.Holds(j);
      }
    }
  }

  /** A step touches no slot of anybody else. */
  lemma StepSparesSlot(s: State, unique: set<string>, id: Id, ok: bool, slot: Slot)
    requires CallOk(s, unique, id)
    ensures var t := Step(s, id, ok);
            && (slot in s.slots && s.slots[slot] != id ==> slot in t.slots && t.slots[slot] == s.slots[slot])
            && (slot in t.slots && t.slots[slot] != id ==> slot in s.slots && s.slots[slot] == t.slots[slot])
  {
    if id in s.calls && s.calls[id].stage.Deleting? {
      var c := s.calls[id];
      assert c.Holds(c.stage.next) && Owns(s, id, c.SlotAt(c.stage.next));
    }
  }

  /** Nor any other call or document. */
  lemma StepSparesCall(s: State, id: Id, ok: bool, other: Id)
    requires other != id
    ensures var t := Step(s, id, ok); (other in t.calls <==> other in s.calls) && (other in t.calls ==> t.calls[other] == s.calls[other])
    ensures var t := Step(s, id, ok); (other in t.docs <==> other in s.docs) && (other in t.docs ==> t.docs[other] == s.docs[other])
  {
    StepSparesOtherCall(s, id, ok, other);
    StepSparesOtherDoc(s, id, ok, other);
  }

  lemma StepSparesOtherCall(s: State, id: Id, ok: bool, other: Id)
    requires other != id
    ensures var t := Step(s, id, ok); (other in t.calls <==> other in s.calls) && (other in t.calls ==> t.calls[other] == s.calls[other])
  {
  }

  lemma StepSparesOtherDoc(s: State, id: Id, ok: bool, other: Id)
    requires other != id
    ensures var t := Step(s, id, ok); (other in t.docs <==> other in s.docs) && (other in t.docs ==> t.docs[other] == s.docs[other])
  {
  }

  lemma StepKeepsOthers(s: State, unique: set<string>, id: Id, ok: bool, other: Id)
    requires Inv(s, unique) && other != id
    ensures CallOk(Step(s, id, ok), unique, other)
  {
    assert CallOk(s, unique, id) && CallOk(s, unique, other);
    StepSparesCall(s, id, ok, other);
    var t := Step(s, id, ok);
    forall slot | Owns(s, other, slot) ensures Owns(t, other, slot) {
      StepSparesSlot(s, unique, id, ok, slot);
    }
  }

  lemma StepKeepsHoldings(s: State, unique: set<string>, id: Id, ok: bool)
    requires Inv(s, unique) && id in s.calls
    ensures CallHoldings(Step(s, id, ok), id)
  {
    assert CallOk(s, unique, id);
    var t := Step(s, id, ok);
    var c, d := s.calls[id], t.calls[id];
    forall j | 0 <= j < |d.fields| && d.Holds(j) ensures Owns(t, id, d.SlotAt(j)) {
      assert c.SlotAt(j) == d.SlotAt(j);
    }
  }

  lemma StepKeepsLosses(s: State, unique: set<string>, id: Id, ok: bool)
    requires Inv(s, unique) && id in s.calls
    ensures CallLosses(Step(s, id, ok), id)
  {
    assert CallOk(s, unique, id);
    var t := Step(s, id, ok);
    var c, d := s.calls[id], t.calls[id];
    forall l | l in d.lost ensures Owns(t, id, l) && Earlier(d, l) {
      if l in c.lost {
        assert Owns(s, id, l) && Earlier(c, l);
        var j :| 0 <= j < |c.fields| && c.SlotAt(j) == l && !c.Holds(j);
        assert d.SlotAt(j) == l && !d.Holds(j);
      } else {
        assert c.Holds(c.stage.next) && Owns(s, id, c.SlotAt(c.stage.next));
        assert d.SlotAt(c.stage.next) == l && !d.Holds(c.stage.next);
      }
    }
  }

  lemma StepKeepsApart(s: State, unique: set<string>, id: Id, ok: bool)
    requires Inv(s, unique) && id in s.calls
    ensures CallApart(Step(s, id, ok), id)
  {
    assert CallOk(s, unique, id);
    var t := Step(s, id, ok);
    var c, d := s.calls[id], t.calls[id];
    if id in t.docs && !d.stage.Stored? {
      forall j | 0 <= j < |d.fields| && d.Holds(j) ensures Get(t.docs[id], d.fields[j]) != Get(d.doc, d.fields[j]) {
        if !c.Holds(j) {
          assert c.SlotAt(j) !in s.slots;
          assert d.fields[j] in unique;
        }
      }
    }
  }

  lemma StepKeepsSelf(s: State, unique: set<string>, id: Id, ok: bool)
    requires Inv(s, unique)
    ensures CallOk(Step(s, id, ok), unique, id)
  {
    if id in s.calls {
      assert CallOk(s, unique, id);
      StepKeepsHoldings(s, unique, id, ok);
      StepKeepsLosses(s, unique, id, ok);
      StepKeepsApart(s, unique, id, ok);
    }
  }

  lemma {:induction false} StepKeepsInv(s: State, unique: set<string>, id: Id, ok: bool)
    requires Inv(s, unique)
    ensures Inv(Step(s, id, ok), unique)
  {
    StepKeepsDocs(s, unique, id, ok);
    var t := Step(s, id, ok);
    forall other ensures CallOk(t, unique, other) {
      if other == id {
        StepKeepsSelf(s, unique, id, ok);
      } else {
        StepKeepsOthers(s, unique, id, ok, other);
      }
    }
  }

  lemma {:induction false} RunKeepsInv(s: State, unique: set<string>, as_: seq<Action>)
    requires Inv(s, unique)
    ensures Inv(Run(s, as_), unique)
  {
    if as_ != [] {
      var init := as_[..|as_| - 1];
      RunKeepsInv(s, unique, init);
      StepKeepsInv(Run(s, init), unique, as_[|as_| - 1].id, as_[|as_| - 1].ok);
    }
  }

  // ---------------------------------------------------------------------
  // Results
  // ---------------------------------------------------------------------

  /** In every reachable state stored documents own their slots, so no two share a unique value. */
  lemma {:induction false} ConcurrentUniqueness(s: State, unique: set<string>, as_: seq<Action>, f: string, a: Id, b: Id)
    requires Init(s, unique) && f in unique
    ensures DocsOwnSlots(Run(s, as_), unique)
    ensures var t := Run(s, as_);
            a in t.docs && b in t.docs && Get(t.docs[a], f) == Get(t.docs[b], f) != Null ==> a == b
  {
    InitEstablishesInv(s, unique);
    RunKeepsInv(s, unique, as_);
    var t := Run(s, as_);
    assert a in t.docs && !Get(t.docs[a], f).Null? ==> Owns(t, a, Slot(f, Get(t.docs[a], f)));
    assert b in t.docs && !Get(t.docs[b], f).Null? ==> Owns(t, b, Slot(f, Get(t.docs[b], f)));
  }

  lemma {:induction false} DuplicateIsFinal(s: State, as_: seq<Action>, id: Id)
    requires id in s.calls && s.calls[id].stage.Duplicate?
    ensures id in Run(s, as_).calls && Run(s, as_).calls[id] == s.calls[id]
  {
    if as_ != [] {
      DuplicateIsFinal(s, as_[..|as_| - 1], id);
    }
  }

  /** After its refusal a call writes no document. */
  lemma {:induction false} RefusedWritesNothing(s: State, as_: seq<Action>, id: Id)
    requires id in s.calls && s.calls[id].stage.Duplicate?
    ensures id in Run(s, as_).docs <==> id in s.docs
    ensures id in s.docs ==> Run(s, as_).docs[id] == s.docs[id]
  {
    if as_ != [] {
      var init, last := as_[..|as_| - 1], as_[|as_| - 1];
      RefusedWritesNothing(s, init, id);
      DuplicateIsFinal(s, init, id);
      if last.id != id {
        StepSparesCall(Run(s, init), last.id, last.ok, id);
      }
    }
  }

  /** A slot claimed before the refusal stays taken for ever, and no document under its id ever holds the value. */
  lemma {:induction false} LeakIsPermanent(s: State, unique: set<string>, as_: seq<Action>, id: Id, j: nat)
    requires Inv(s, unique) && id in s.calls && s.calls[id].stage.Duplicate?
    requires j < s.calls[id].stage.at && j < |s.calls[id].fields| && !s.calls[id].Skips(j)
    ensures var t, slot := Run(s, as_), s.calls[id].SlotAt(j);
            && Owns(t, id, slot)
            && (id in t.docs ==> id in s.docs && t.docs[id] == s.docs[id] && Get(t.docs[id], slot.field) != slot.value)
  {
    RunKeepsInv(s, unique, as_);
    DuplicateIsFinal(s, as_, id);
    RefusedWritesNothing(s, as_, id);
    var t := Run(s, as_);
    assert CallOk(t, unique, id);
    assert t.calls[id].Holds(j);
    assert t.calls[id].SlotAt(j) == s.calls[id].SlotAt(j);
  }

  // ---------------------------------------------------------------------
  // Who refuses a claim
  // ---------------------------------------------------------------------

  /** Which of its slots an id owned before the run, and which its call took. */
  ghost predicate Traced(s0: State, s: State, id: Id, slot: Slot)
    requires id in s.calls
  {
    var c := s.calls[id];
    && (Owns(s0, id, slot) ==> Owns(s, id, slot) && slot !in c.lost && forall j :: 0 <= j < |c.fields| && c.Holds(j) ==> c.SlotAt(j) != slot)
    && (Owns(s, id, slot) ==>
          || Owns(s0, id, slot) || slot in c.lost
          || exists j :: 0 <= j < |c.fields| && c.Holds(j) && c.SlotAt(j) == slot)
  }

  /** A step gives up a held slot only by deleting it, or records it as lost. */
  lemma HeldOrLost(s: State, unique: set<string>, id: Id, ok: bool, j: nat)
    requires CallOk(s, unique, id) && id in s.calls && j < |s.calls[id].fields| && s.calls[id].Holds(j)
    requires s.calls[id].SlotAt(j) in Step(s, id, ok).slots
    ensures var c, d := s.calls[id], Step(s, id, ok).calls[id];
            d.fields == c.fields && d.doc == c.doc && (d.Holds(j) || c.SlotAt(j) in d.lost)
  {
    assert Owns(s, id, s.calls[id].SlotAt(j));
  }

  /** A slot a step takes is one the call holds from then on. */
  lemma TakenIsHeld(s: State, unique: set<string>, id: Id, ok: bool, slot: Slot)
    requires CallOk(s, unique, id) && id in s.calls && slot !in s.slots && slot in Step(s, id, ok).slots
    ensures var c, d := s.calls[id], Step(s, id, ok).calls[id];
            c.stage.Claiming? && c.stage.next < |d.fields| && d.SlotAt(c.stage.next) == slot && d.Holds(c.stage.next)
  {
  }

  lemma LostStaysLost(s: State, id: Id, ok: bool)
    requires id in s.calls
    ensures id in Step(s, id, ok).calls && s.calls[id].lost <= Step(s, id, ok).calls[id].lost
  {
  }

  lemma OwnStepKeepsTraced(s0: State, s: State, unique: set<string>, id: Id, ok: bool, slot: Slot)
    requires CallOk(s, unique, id) && id in s.calls && Traced(s0, s, id, slot)
    ensures id in Step(s, id, ok).calls && Traced(s0, Step(s, id, ok), id, slot)
  {
    var t := Step(s, id, ok);
    var c, d := s.calls[id], t.calls[id];
    LostStaysLost(s, id, ok);
    StepSparesSlot(s, unique, id, ok, slot);
    if Owns(s0, id, slot) {
      StillHeldApart(s, unique, id, ok, slot);
    }
    if Owns(t, id, slot) && !Owns(s0, id, slot) {
      if slot !in s.slots {
        TakenIsHeld(s, unique, id, ok, slot);
      } else if slot !in c.lost {
        assert Owns(s, id, slot);
        var j :| 0 <= j < |c.fields| && c.Holds(j) && c.SlotAt(j) == slot;
        HeldOrLost(s, unique, id, ok, j);
        assert d.SlotAt(j) == slot;
      }
    }
  }

  /** A slot the call owns without holding it is left alone by the call. */
  lemma StillHeldApart(s: State, unique: set<string>, id: Id, ok: bool, slot: Slot)
    requires CallOk(s, unique, id) && id in s.calls && Owns(s, id, slot) && slot !in s.calls[id].lost
    requires forall j :: 0 <= j < |s.calls[id].fields| && s.calls[id].Holds(j) ==> s.calls[id].SlotAt(j) != slot
    ensures var t := Step(s, id, ok);
            && id in t.calls && Owns(t, id, slot) && slot !in t.calls[id].lost
            && forall j :: 0 <= j < |t.calls[id].fields| && t.calls[id].Holds(j) ==> t.calls[id].SlotAt(j) != slot
  {
    var t := Step(s, id, ok);
    var c, d := s.calls[id], t.calls[id];
    if c.stage.Releasing? || c.stage.Deleting? {
      assert c.stage.next < |c.fields| && !c.Skips(c.stage.next) ==> c.Holds(c.stage.next);
    }
    forall j | 0 <= j < |d.fields| && d.Holds(j) ensures d.SlotAt(j) != slot {
      assert d.SlotAt(j) == c.SlotAt(j);
    }
  }

  lemma {:induction false} RunKeepsTraced(s0: State, unique: set<string>, as_: seq<Action>, id: Id, slot: Slot)
    requires Init(s0, unique) && id in s0.calls
    ensures id in Run(s0, as_).calls && Traced(s0, Run(s0, as_), id, slot)
  {
    if as_ != [] {
      var init, last := as_[..|as_| - 1], as_[|as_| - 1];
      RunKeepsTraced(s0, unique, init, id, slot);
      InitEstablishesInv(s0, unique);
      RunKeepsInv(s0, unique, init);
      var s := Run(s0, init);
      assert CallOk(s, unique, id) && CallOk(s, unique, last.id);
      if last.id == id {
        OwnStepKeepsTraced(s0, s, unique, id, last.ok, slot);
      } else {
        StepSparesCall(s, last.id, last.ok, id);
        StepSparesSlot(s, unique, last.id, last.ok, slot);
      }
    }
  }

  /**
   A refusal meets a slot of somebody else exactly if the call's own id did not hold the refusing
   slot before the run; HSETNX does not compare owners.
   */
  lemma {:induction false} DuplicateIsGenuineIff(s0: State, unique: set<string>, as_: seq<Action>, id: Id, ok: bool)
    requires Init(s0, unique) && id in s0.calls
    requires var s := Run(s0, as_); id in s.calls && !s.calls[id].stage.Duplicate? && Step(s, id, ok).calls[id].stage.Duplicate?
    ensures var s := Run(s0, as_);
            var c, i := s.calls[id], Step(s, id, ok).calls[id].stage.at;
            && i < |c.fields| && c.SlotAt(i) in s.slots
            && (s.slots[c.SlotAt(i)] != id <==> !Owns(s0, id, c.SlotAt(i)))
  {
    var s := Run(s0, as_);
    InitEstablishesInv(s0, unique);
    RunKeepsInv(s0, unique, as_);
    assert CallOk(s, unique, id);
    var c := s.calls[id];
    RunKeepsTraced(s0, unique, as_, id, c.SlotAt(c.stage.next));
  }

  /**
   The retry of a refused insert under the same explicit id: whatever ran in between, claiming the
   leaked value first it is refused by its own slot.
   */
  lemma {:induction false} LeakRefusesRetry(s: State, unique: set<string>, as_: seq<Action>, id: Id, j: nat, retry: Call, ok: bool)
    requires Inv(s, unique) && id in s.calls && s.calls[id].stage.Duplicate?
    requires j < s.calls[id].stage.at && j < |s.calls[id].fields| && !s.calls[id].Skips(j)
    requires NewCall(retry, unique) && retry.fields != [] && retry.SlotAt(0) == s.calls[id].SlotAt(j)
    ensures var s0 := State(Run(s, as_).docs, Run(s, as_).slots, map[id := retry]);
            && Init(s0, unique)
            && Step(s0, id, ok).calls[id].stage == Duplicate(0) && Owns(s0, id, retry.SlotAt(0))
  {
    LeakIsPermanent(s, unique, as_, id, j);
    RunKeepsInv(s, unique, as_);
    assert !s.calls[id].Skips(j) && s.calls[id].SlotAt(j).value == retry.SlotAt(0).value;
    var t := Run(s, as_);
    var s0 := State(t.docs, t.slots, map[id := retry]);
    assert forall d, slot :: Owns(t, d, slot) <==> Owns(s0, d, slot);
  }

  // ---------------------------------------------------------------------
  // When the index is exact
  // ---------------------------------------------------------------------

  /** Nothing is in the index without a reason. */
  ghost predicate Justified(s: State, unique: set<string>, slot: Slot) {
    slot in s.slots ==>
      var id := s.slots[slot];
      || (id !in s.calls && id in s.docs && slot.field in unique && !slot.value.Null? && Get(s.docs[id], slot.field) == slot.value)
      || (id in s.calls && slot in s.calls[id].lost)
      || (id in s.calls && exists j :: 0 <= j < |s.calls[id].fields| && s.calls[id].SlotAt(j) == slot && s.calls[id].Holds(j))
  }

  /** An index without leaks, and calls under new ids. */
  ghost predicate ExactInit(s: State, unique: set<string>) {
    && Init(s, unique)
    && (forall slot :: Justified(s, unique, slot))
    && (forall slot :: slot in s.slots ==> s.slots[slot] !in s.calls)
    && (forall id :: id in s.calls ==> id !in s.docs)
  }

  ghost predicate ExactInv(s: State, unique: set<string>) {
    && Inv(s, unique)
    && (forall slot :: Justified(s, unique, slot))
    && (forall id :: id in s.calls ==> (id in s.docs <==> s.calls[id].stage.Stored?))
  }

  /** The acting call's own slots, after its step. */
  lemma OwnSlotJustified(s: State, unique: set<string>, id: Id, ok: bool, slot: Slot)
    requires CallOk(s, unique, id) && Justified(s, unique, slot) && id in s.calls
    requires var t := Step(s, id, ok); slot in t.slots && t.slots[slot] == id
    requires slot in s.slots ==> s.slots[slot] == id
    ensures Justified(Step(s, id, ok), unique, slot)
  {
    var c := s.calls[id];
    LostStaysLost(s, id, ok);
    if slot !in s.slots {
      TakenIsHeld(s, unique, id, ok, slot);
    } else if slot !in c.lost {
      var j :| 0 <= j < |c.fields| && c.SlotAt(j) == slot && c.Holds(j);
      HeldOrLost(s, unique, id, ok, j);
      assert Step(s, id, ok).calls[id].SlotAt(j) == slot;
    }
  }

  lemma StepKeepsJustified(s: State, unique: set<string>, id: Id, ok: bool, slot: Slot)
    requires ExactInv(s, unique)
    ensures Justified(Step(s, id, ok), unique, slot)
  {
    assert CallOk(s, unique, id) && Justified(s, unique, slot);
    var t := Step(s, id, ok);
    if slot in t.slots && id in s.calls {
      StepSparesSlot(s, unique, id, ok, slot);
      if t.slots[slot] == id {
        OwnSlotJustified(s, unique, id, ok, slot);
      } else {
        StepSparesCall(s, id, ok, t.slots[slot]);
      }
    }
  }

  lemma {:induction false} RunKeepsExactInv(s: State, unique: set<string>, as_: seq<Action>)
    requires ExactInv(s, unique)
    ensures ExactInv(Run(s, as_), unique)
  {
    if as_ != [] {
      var init, last := as_[..|as_| - 1], as_[|as_| - 1];
      RunKeepsExactInv(s, unique, init);
      var u := Run(s, init);
      var t := Step(u, last.id, last.ok);
      StepKeepsInv(u, unique, last.id, last.ok);
      forall slot ensures Justified(t, unique, slot) {
        StepKeepsJustified(u, unique, last.id, last.ok, slot);
      }
      forall id | id in t.calls ensures id in t.docs <==> t.calls[id].stage.Stored? {
        if id != last.id {
          StepSparesCall(u, last.id, last.ok, id);
        }
      }
    }
  }

  ghost predicate Quiescent(s: State) {
    forall id :: id in s.calls ==> s.calls[id].Finished()
  }

  /** Every index entry points at a stored document holding that value. */
  ghost predicate IndexExact(s: State) {
    forall slot :: slot in s.slots ==> s.slots[slot] in s.docs && Get(s.docs[s.slots[slot]], slot.field) == slot.value
  }

  /**
   The rollback comment promises a consistent index. It is kept exactly when no
   call was refused after an earlier successful claim and no release failed.
   */
  lemma {:induction false} IndexExactIffNothingLeaked(s: State, unique: set<string>, as_: seq<Action>)
    requires ExactInit(s, unique) && Quiescent(Run(s, as_))
    ensures var t := Run(s, as_);
            IndexExact(t) <==> forall id :: id in t.calls ==> !t.calls[id].Leaks()
  {
    InitEstablishesInv(s, unique);
    RunKeepsExactInv(s, unique, as_);
    var t := Run(s, as_);
    if forall id :: id in t.calls ==> !t.calls[id].Leaks() {
      forall slot | slot in t.slots
        ensures t.slots[slot] in t.docs && Get(t.docs[t.slots[slot]], slot.field) == slot.value
      {
        assert Justified(t, unique, slot);
        assert CallOk(t, unique, t.slots[slot]);
      }
    }
    forall id | id in t.calls && t.calls[id].Leaks() ensures !IndexExact(t) {
      assert CallOk(t, unique, id);
      var c := t.calls[id];
      if c.lost != {} {
        var l :| l in c.lost;
        assert Owns(t, id, l);
      } else {
        var j :| 0 <= j < c.stage.at && j < |c.fields| && !c.Skips(j);
        assert c.Holds(j);
        assert Owns(t, id, c.SlotAt(j));
      }
    }
  }
}
