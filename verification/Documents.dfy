/**
 JSON documents with the update operators and the client-side filter shared by
 both document stores (osimflow/_document_store_base.py).
 */
module Documents {
  import opened Wrappers

  datatype Json = Null | Num(n: real) | Text(s: string) | List(items: seq<Json>)

  type Doc = map<string, Json>

  /** `doc.get(key)`. */
  function Get(doc: Doc, key: string): Json {
    if key in doc then doc[key] else Null
  }

  // ---------------------------------------------------------------------
  // Update operators
  // ---------------------------------------------------------------------

  datatype UpdateOp =
    | Set(entries: Doc)
    | Unset(keys: set<string>)
    | Inc(deltas: Doc)
    | Push(values: Doc)
    | Pull(values: Doc)
    | UnknownUpdate(name: string)
  {
    /** The fields the operator names. */
    function Names(): set<string> {
      match this
      case Set(m) => m.Keys
      case Unset(ks) => ks
      case Inc(m) => m.Keys
      case Push(m) => m.Keys
      case Pull(m) => m.Keys
      case UnknownUpdate(_) => {}
    }
  }

  function Without<T(==)>(xs: seq<T>, v: T): seq<T> {
    if xs == [] then [] else (if xs[0] == v then [] else [xs[0]]) + Without(xs[1..], v)
  }

  /** What an operator does to the one field it names, absent (`None`) or present. */
  function FieldAfter(op: UpdateOp, key: string, prev: Option<Json>): Option<Json>
    requires key in op.Names()
  {
    match op
    case Set(m) => Some(m[key])
    case Unset(_) => None
    case Inc(m) =>
      if (prev == None || prev.value.Num?) && m[key].Num?
      then Some(Num((if prev == None then 0.0 else prev.value.n) + m[key].n))
      else prev
    case Push(m) =>
      if prev == None then Some(List([m[key]]))
      else if prev.value.List? then Some(List(prev.value.items + [m[key]]))
      else prev
    case Pull(m) =>
      if prev != None && prev.value.List? then Some(List(Without(prev.value.items, m[key]))) else prev
  }

  function Field(doc: Doc, key: string): Option<Json> {
    if key in doc then Some(doc[key]) else None
  }

  function SetField(doc: Doc, key: string, v: Option<Json>): (d: Doc)
    ensures Field(d, key) == v
    ensures forall k :: k != key ==> Field(d, k) == Field(doc, k)
  {
    match v
    case None => doc - {key}
    case Some(j) => doc[key := j]
  }

  function FieldNow(doc: Doc, op: UpdateOp, key: string): Option<Json> {
    if key in op.Names() then FieldAfter(op, key, Field(doc, key)) else Field(doc, key)
  }

  /** All named fields moved at once; the dictionary order of the operands plays no part. */
  function OpApplied(doc: Doc, op: UpdateOp): (after: Doc)
    ensures forall k :: Field(after, k) == FieldNow(doc, op, k)
  {
    map k | k in doc.Keys + op.Names() && FieldNow(doc, op, k) != None :: FieldNow(doc, op, k).value
  }

  function Updated(doc: Doc, ops: seq<UpdateOp>): Doc {
    if ops == [] then doc else OpApplied(Updated(doc, ops[..|ops| - 1]), ops[|ops| - 1])
  }

  lemma SameFields(a: Doc, b: Doc)
    requires forall k :: Field(a, k) == Field(b, k)
    ensures a == b
  {
    forall k ensures k in a <==> k in b {
      assert Field(a, k) == Field(b, k);
    }
    forall k | k in a ensures a[k] == b[k] {
      assert Field(a, k) == Field(b, k);
    }
  }

  /** The mutable dictionary the operators work on in place. */
  class MutableDoc {
    var fields: Doc

    constructor (doc: Doc)
      ensures fields == doc
    {
      fields := doc;
    }

    method ApplyOp(op: UpdateOp)
      modifies this
      ensures fields == OpApplied(old(fields), op)
    {
      var todo := op.Names();
      while todo != {}
        invariant todo <= op.Names()
        invariant forall k :: Field(fields, k) ==
                              if k in todo then Field(old(fields), k) else FieldNow(old(fields), op, k)
        decreases todo
      {
        var key :| key in todo;
        todo := todo - {key};
        fields := SetField(fields, key, FieldAfter(op, key, Field(fields, key)));
      }
      SameFields(fields, OpApplied(old(fields), op));
    }

    method ApplyUpdateOperators(ops: seq<UpdateOp>)
      modifies this
      ensures fields == Updated(old(fields), ops)
    {
      for i := 0 to |ops|
        invariant fields == Updated(old(fields), ops[..i])
      {
        ApplyOp(ops[i]);
        assert ops[..i + 1][..i] == ops[..i];
      }
      assert ops[..|ops|] == ops;
    }
  }

  /** A field no operator names keeps its value; in particular `_id`. */
  lemma {:induction false} UpdateFrame(doc: Doc, ops: seq<UpdateOp>, key: string)
    requires forall i :: 0 <= i < |ops| ==> key !in ops[i].Names()
    ensures Field(Updated(doc, ops), key) == Field(doc, key)
  {
    if ops != [] {
      UpdateFrame(doc, ops[..|ops| - 1], key);
    }
  }

  /** Pushing a value and pulling it again restores a list that did not hold it. */
  lemma {:induction false} PushThenPull(doc: Doc, key: string, v: Json)
    requires key in doc && doc[key].List? && v !in doc[key].items
    ensures Updated(doc, [Push(map[key := v]), Pull(map[key := v])]) == doc
  {
    var ops := [Push(map[key := v]), Pull(map[key := v])];
    var xs := doc[key].items;
    var mid := OpApplied(doc, ops[0]);
    assert ops[..1] == [ops[0]] && [ops[0]][..0] == [];
    assert Updated(doc, [ops[0]]) == mid;
    assert Field(mid, key) == Some(List(xs + [v]));
    WithoutAppend(xs, v);
    SameFields(OpApplied(mid, ops[1]), doc);
  }

  lemma {:induction false} WithoutAppend<T>(xs: seq<T>, v: T)
    requires v !in xs
    ensures Without(xs + [v], v) == xs
  {
    if xs == [] {
      assert Without([v], v) == [] + Without([], v);
    } else {
      WithoutAppend(xs[1..], v);
      assert xs == [xs[0]] + xs[1..];
      assert xs + [v] == [xs[0]] + (xs[1..] + [v]);
      assert (xs + [v])[1..] == xs[1..] + [v];
    }
  }

  // ---------------------------------------------------------------------
  // Client-side filter
  // ---------------------------------------------------------------------

  datatype Cmp = Gt | Gte | Lt | Lte {
    predicate Holds(a: real, b: real) {
      match this
      case Gt => a > b
      case Gte => a >= b
      case Lt => a < b
      case Lte => a <= b
    }
  }

  datatype FilterOp =
    | Eq(v: Json)
    | Ne(v: Json)
    | Order(cmp: Cmp, bound: real)
    | In(vs: seq<Json>)
    | Nin(vs: seq<Json>)
    | Exists(wanted: bool)
    | UnknownOp(name: string)

  /** A bare value, or a dictionary of operators. */
  datatype Cond = Value(v: Json) | Ops(ops: seq<FilterOp>)

  datatype Clause = Clause(key: string, cond: Cond)

  type Filter = seq<Clause>

  /** `None` is the TypeError Python raises on ordering a non-number against a number. */
  function OpMatches(current: Json, op: FilterOp): Option<bool> {
    match op
    case Eq(v) => Some(current == v)
    case Ne(v) => Some(current != v)
    case Order(cmp, bound) =>
      if current.Null? then Some(false)
      else if current.Num? then Some(cmp.Holds(current.n, bound))
      else None
    case In(vs) => Some(current in vs)
    case Nin(vs) => Some(current !in vs)
    case Exists(wanted) => Some(wanted == !current.Null?)
    case UnknownOp(_) => Some(true)
  }

  function OpsMatch(current: Json, ops: seq<FilterOp>): Option<bool> {
    if ops == [] then Some(true)
    else if OpMatches(current, ops[0]) == Some(true) then OpsMatch(current, ops[1..])
    else OpMatches(current, ops[0])
  }

  predicate IsLogicalKey(key: string) {
    key != "" && key[0] == '$'
  }

  function ClauseMatches(doc: Doc, c: Clause): Option<bool> {
    if IsLogicalKey(c.key) then Some(true)
    else
      match c.cond
      case Value(v) => Some(Get(doc, c.key) == v)
      case Ops(ops) => OpsMatch(Get(doc, c.key), ops)
  }

  /** `_document_matches`. */
  function Matches(doc: Doc, f: Filter): Option<bool> {
    if f == [] then Some(true)
    else if ClauseMatches(doc, f[0]) == Some(true) then Matches(doc, f[1..])
    else ClauseMatches(doc, f[0])
  }
}
