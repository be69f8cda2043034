/**
 The laws of the update operators and of the client-side filter, stated on documents
 (osimflow/_document_store_base.py).
 */
module DocumentLaws {
  import opened Wrappers
  import opened Documents

  // ---------------------------------------------------------------------
  // One operator on one field
  // ---------------------------------------------------------------------

  lemma OneOp(doc: Doc, op: UpdateOp)
    ensures Updated(doc, [op]) == OpApplied(doc, op)
  {
    assert [op][..0] == [];
  }

  /** The document with one field given or taken away, and nothing else changed. */
  lemma OnlyField(doc: Doc, op: UpdateOp, key: string, v: Option<Json>)
    requires op.Names() == {key} && FieldAfter(op, key, Field(doc, key)) == v
    ensures Updated(doc, [op]) == if v == None then doc - {key} else doc[key := v.value]
  {
    OneOp(doc, op);
    SameFields(OpApplied(doc, op), if v == None then doc - {key} else doc[key := v.value]);
  }

  /** `$set` leaves the value, `$unset` removes the field. */
  lemma {:induction false} SetAndUnset(doc: Doc, key: string, v: Json)
    ensures Updated(doc, [Set(map[key := v])]) == doc[key := v]
    ensures Updated(doc, [Unset({key})]) == doc - {key}
    ensures key !in doc ==> Updated(doc, [Set(map[key := v]), Unset({key})]) == doc
  {
    OnlyField(doc, Set(map[key := v]), key, Some(v));
    OnlyField(doc, Unset({key}), key, None);
    OnlyField(doc[key := v], Unset({key}), key, None);
    UpdateSnoc(doc, [Set(map[key := v])], Unset({key}));
    OneOp(doc[key := v], Unset({key}));
    assert [Set(map[key := v])] + [Unset({key})] == [Set(map[key := v]), Unset({key})];
    assert key !in doc ==> doc[key := v] - {key} == doc;
  }

  /** `$inc` adds to a number, starts an absent field at the increment, and leaves anything else alone. */
  lemma {:induction false} IncAdds(doc: Doc, key: string, d: real, other: Json)
    ensures Updated(doc, [Inc(map[key := Num(d)])]) ==
            if key !in doc then doc[key := Num(d)]
            else if doc[key].Num? then doc[key := Num(doc[key].n + d)]
            else doc
    ensures !other.Num? ==> Updated(doc, [Inc(map[key := other])]) == doc
  {
    var v := if key !in doc then Some(Num(d)) else if doc[key].Num? then Some(Num(doc[key].n + d)) else Some(doc[key]);
    assert 0.0 + d == d;
    OnlyField(doc, Inc(map[key := Num(d)]), key, v);
    if !other.Num? {
      OnlyField(doc, Inc(map[key := other]), key, Field(doc, key));
      assert key !in doc ==> doc - {key} == doc;
    }
  }

  /** `$push` appends to a list, starts an absent field with one item, and leaves anything else alone. */
  lemma {:induction false} PushAppends(doc: Doc, key: string, v: Json)
    ensures Updated(doc, [Push(map[key := v])]) ==
            if key !in doc then doc[key := List([v])]
            else if doc[key].List? then doc[key := List(doc[key].items + [v])]
            else doc
  {
    var after := if key !in doc then Some(List([v])) else if doc[key].List? then Some(List(doc[key].items + [v])) else Some(doc[key]);
    OnlyField(doc, Push(map[key := v]), key, after);
  }

  lemma WithoutCons<T>(x: T, xs: seq<T>, v: T)
    ensures Without([x] + xs, v) == (if x == v then [] else [x]) + Without(xs, v)
  {
    assert ([x] + xs)[1..] == xs;
  }

  lemma {:induction false} WithoutConcat<T>(xs: seq<T>, ys: seq<T>, v: T)
    ensures Without(xs + ys, v) == Without(xs, v) + Without(ys, v)
  {
    if xs == [] {
      assert xs + ys == ys;
    } else {
      var x, rest := xs[0], xs[1..];
      WithoutConcat(rest, ys, v);
      assert xs == [x] + rest && xs + ys == [x] + (rest + ys);
      WithoutCons(x, rest, v);
      WithoutCons(x, rest + ys, v);
    }
  }

  function Concat<T>(parts: seq<seq<T>>, v: T): seq<T> {
    if parts == [] then [] else if |parts| == 1 then parts[0] else Concat(parts[..|parts| - 1], v) + [v] + parts[|parts| - 1]
  }

  function Joined<T>(parts: seq<seq<T>>): seq<T> {
    if parts == [] then [] else Joined(parts[..|parts| - 1]) + parts[|parts| - 1]
  }

  lemma {:induction false} NothingToPull<T>(xs: seq<T>, v: T)
    requires v !in xs
    ensures Without(xs, v) == xs
  {
    if xs != [] {
      NothingToPull(xs[1..], v);
      assert xs == [xs[0]] + xs[1..];
    }
  }

  lemma {:induction false} WithoutParts<T>(parts: seq<seq<T>>, v: T)
    requires forall i :: 0 <= i < |parts| ==> v !in parts[i]
    ensures Without(Concat(parts, v), v) == Joined(parts)
  {
    if |parts| == 1 {
      NothingToPull(parts[0], v);
      assert Joined(parts[..0]) == [];
      assert Joined(parts) == [] + parts[0];
    } else if |parts| > 1 {
      var init, last := parts[..|parts| - 1], parts[|parts| - 1];
      WithoutParts(init, v);
      NothingToPull(last, v);
      WithoutConcat(Concat(init, v), [v], v);
      WithoutConcat(Concat(init, v) + [v], last, v);
      assert Without([v], v) == [] + Without([], v);
    }
  }

  /** `$pull` takes every occurrence of the value out of a list and keeps the stretches between them, in order. */
  lemma {:induction false} PullRemoves(doc: Doc, key: string, v: Json, parts: seq<seq<Json>>)
    requires forall i :: 0 <= i < |parts| ==> v !in parts[i]
    ensures key in doc && doc[key] == List(Concat(parts, v)) ==> Updated(doc, [Pull(map[key := v])]) == doc[key := List(Joined(parts))]
    ensures key !in doc || !doc[key].List? ==> Updated(doc, [Pull(map[key := v])]) == doc
  {
    WithoutParts(parts, v);
    var after := if key in doc && doc[key].List? then Some(List(Without(doc[key].items, v))) else Field(doc, key);
    OnlyField(doc, Pull(map[key := v]), key, after);
    assert key !in doc ==> doc - {key} == doc;
  }

  // ---------------------------------------------------------------------
  // Several operators
  // ---------------------------------------------------------------------

  lemma UpdateSnoc(doc: Doc, ops: seq<UpdateOp>, op: UpdateOp)
    ensures Updated(doc, ops + [op]) == OpApplied(Updated(doc, ops), op)
  {
    assert (ops + [op])[..|ops|] == ops;
  }

  lemma ComposeStep(doc: Doc, mid: Doc, both: seq<UpdateOp>, init: seq<UpdateOp>, last: UpdateOp)
    requires Updated(mid, init) == Updated(doc, both)
    ensures Updated(mid, init + [last]) == Updated(doc, both + [last])
  {
    UpdateSnoc(doc, both, last);
    UpdateSnoc(mid, init, last);
  }

  /** Two updates one after the other are one update with the operators of both. */
  lemma {:induction false} UpdatesCompose(doc: Doc, first: seq<UpdateOp>, second: seq<UpdateOp>)
    ensures Updated(Updated(doc, first), second) == Updated(doc, first + second)
    decreases |second|
  {
    if |second| == 0 {
      assert first + second == first;
    } else {
      var init, last := second[..|second| - 1], second[|second| - 1];
      UpdatesCompose(doc, first, init);
      ComposeStep(doc, Updated(doc, first), first + init, init, last);
      assert first + second == first + init + [last];
      assert second == init + [last];
    }
  }

  function Sum(ds: seq<real>): real {
    if |ds| == 0 then 0.0 else Sum(ds[..|ds| - 1]) + ds[|ds| - 1]
  }

  function Incs(key: string, ds: seq<real>): seq<UpdateOp> {
    if |ds| == 0 then [] else Incs(key, ds[..|ds| - 1]) + [Inc(map[key := Num(ds[|ds| - 1])])]
  }

  lemma OneMoreInc(doc: Doc, key: string, start: real, ds: seq<real>, d: real, total: real)
    requires Updated(doc[key := Num(start)], Incs(key, ds)) == doc[key := Num(total)]
    ensures Updated(doc[key := Num(start)], Incs(key, ds) + [Inc(map[key := Num(d)])]) == doc[key := Num(total + d)]
  {
    var before, op := doc[key := Num(total)], Inc(map[key := Num(d)]);
    UpdateSnoc(doc[key := Num(start)], Incs(key, ds), op);
    IncAdds(before, key, d, Null);
    OneOp(before, op);
    assert before[key := Num(total + d)] == doc[key := Num(total + d)];
  }

  /** Any number of increments, in any number of updates, add up. */
  lemma {:induction false} IncsAddUp(doc: Doc, key: string, start: real, ds: seq<real>)
    ensures Updated(doc[key := Num(start)], Incs(key, ds)) == doc[key := Num(start + Sum(ds))]
    decreases |ds|
  {
    if |ds| == 0 {
      assert Sum(ds) == 0.0 && Incs(key, ds) == [];
    } else {
      var init, last := ds[..|ds| - 1], ds[|ds| - 1];
      IncsAddUp(doc, key, start, init);
      OneMoreInc(doc, key, start, init, last, start + Sum(init));
      assert Incs(key, ds) == Incs(key, init) + [Inc(map[key := Num(last)])];
      assert Sum(ds) == Sum(init) + last;
    }
  }

  // ---------------------------------------------------------------------
  // The filter
  // ---------------------------------------------------------------------

  /** A field under one operator. */
  function Asks(key: string, op: FilterOp): Filter {
    [Clause(key, Ops([op]))]
  }

  lemma OneAsk(doc: Doc, key: string, op: FilterOp)
    requires !IsLogicalKey(key)
    ensures Matches(doc, Asks(key, op)) == OpMatches(Get(doc, key), op)
  {
    assert OpsMatch(Get(doc, key), [op]) == OpMatches(Get(doc, key), op);
    assert Asks(key, op)[1..] == [];
  }

  /** The four orderings compare the stored number, on the left, with the operand; a missing field is in no order, a text is an error. */
  lemma {:induction false} OrderingsCompare(doc: Doc, key: string, n: real, b: real, s: string)
    requires key == "" || key[0] != '$'
    ensures Matches(doc[key := Num(n)], Asks(key, Order(Gt, b))) == Some(n > b)
    ensures Matches(doc[key := Num(n)], Asks(key, Order(Gte, b))) == Some(n >= b)
    ensures Matches(doc[key := Num(n)], Asks(key, Order(Lt, b))) == Some(n < b)
    ensures Matches(doc[key := Num(n)], Asks(key, Order(Lte, b))) == Some(n <= b)
    ensures forall cmp :: Matches(doc - {key}, Asks(key, Order(cmp, b))) == Some(false)
    ensures forall cmp :: Matches(doc[key := Text(s)], Asks(key, Order(cmp, b))) == None
  {
    forall d: Doc, cmp ensures Matches(d, Asks(key, Order(cmp, b))) == OpMatches(Get(d, key), Order(cmp, b)) {
      OneAsk(d, key, Order(cmp, b));
    }
  }

  /** Equality and membership compare with what is stored, a missing field being null; `$exists` asks for a value that is not null. */
  lemma {:induction false} MembershipCompares(doc: Doc, key: string, v: Json, vs: seq<Json>)
    requires key == "" || key[0] != '$'
    ensures var now := if key in doc then doc[key] else Null;
            && Matches(doc, [Clause(key, Value(v))]) == Some(now == v)
            && Matches(doc, Asks(key, Eq(v))) == Some(now == v)
            && Matches(doc, Asks(key, Ne(v))) == Some(now != v)
            && Matches(doc, Asks(key, In(vs))) == Some(exists i :: 0 <= i < |vs| && vs[i] == now)
            && Matches(doc, Asks(key, Nin(vs))) == Some(forall i :: 0 <= i < |vs| ==> vs[i] != now)
            && Matches(doc, Asks(key, Exists(true))) == Some(key in doc && doc[key] != Null)
            && Matches(doc, Asks(key, Exists(false))) == Some(key !in doc || doc[key] == Null)
  {
    forall op ensures Matches(doc, Asks(key, op)) == OpMatches(Get(doc, key), op) {
      OneAsk(doc, key, op);
    }
    assert [Clause(key, Value(v))][1..] == [];
  }

  lemma {:induction false} OpsAllHold(current: Json, ops: seq<FilterOp>)
    ensures OpsMatch(current, ops) == Some(true) <==> forall i :: 0 <= i < |ops| ==> OpMatches(current, ops[i]) == Some(true)
  {
    if ops != [] {
      OpsAllHold(current, ops[1..]);
    }
  }

  /** A document matches exactly if every operator of every field key holds; keys with a `$` are passed over. */
  lemma {:induction false} MatchesIffAllHold(doc: Doc, f: Filter)
    ensures Matches(doc, f) == Some(true) <==>
            forall i :: 0 <= i < |f| && (f[i].key == "" || f[i].key[0] != '$') ==>
              match f[i].cond
              case Value(v) => Get(doc, f[i].key) == v
              case Ops(ops) => forall j :: 0 <= j < |ops| ==> OpMatches(Get(doc, f[i].key), ops[j]) == Some(true)
  {
    if f != [] {
      MatchesIffAllHold(doc, f[1..]);
      if f[0].cond.Ops? {
        OpsAllHold(Get(doc, f[0].key), f[0].cond.ops);
      }
      assert f == [f[0]] + f[1..];
    }
  }
}
