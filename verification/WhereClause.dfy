/**
 The SQLite backend's compiler from filters to WHERE clauses
 (osimflow/_document_store_sqlite.py), and its agreement with the client-side
 filter under SQL's three-valued logic.
 */
module WhereClause {
  import opened Wrappers
  import opened Documents

  // ---------------------------------------------------------------------
  // The WHERE language
  // ---------------------------------------------------------------------

  datatype Tri = True | False | Unknown

  function And(a: Tri, b: Tri): Tri {
    if a.False? || b.False? then False else if a.True? && b.True? then True else Unknown
  }

  function FromBool(b: bool): Tri {
    if b then True else False
  }

  /** One conjunct over `json_extract(doc, '$.key')`; `?` placeholders are bound by position. */
  datatype SqlCond =
    | ColEq(key: string)
    | ColNe(key: string)
    | CastCmp(key: string, cmp: Cmp)
    | ColIn(key: string, width: nat)
    | ColNotIn(key: string, width: nat)
    | ColIsNotNull(key: string)
    | ColIsNull(key: string)
  {
    function Arity(): nat {
      match this
      case ColEq(_) => 1
      case ColNe(_) => 1
      case CastCmp(_, _) => 1
      case ColIn(_, n) => n
      case ColNotIn(_, n) => n
      case ColIsNotNull(_) => 0
      case ColIsNull(_) => 0
    }
  }

  datatype Where = Where(conds: seq<SqlCond>, params: seq<Json>)

  function SqlEq(a: Json, b: Json): Tri {
    if a.Null? || b.Null? then Unknown else FromBool(a == b)
  }

  function Not(a: Tri): Tri {
    match a
    case True => False
    case False => True
    case Unknown => Unknown
  }

  /** `a IN (bs)`: false on an empty list even for NULL. */
  function SqlIn(a: Json, bs: seq<Json>): Tri {
    if bs == [] then False
    else
      var first := SqlEq(a, bs[0]);
      var rest := SqlIn(a, bs[1..]);
      if first.True? || rest.True? then True
      else if first.Unknown? || rest.Unknown? then Unknown
      else False
  }

  /** `CAST(v AS REAL) cmp bound`; text that does not start with a numeral casts to zero. */
  function CastCompare(v: Json, cmp: Cmp, bound: Json): Tri {
    if v.Null? || !bound.Num? then Unknown
    else FromBool(cmp.Holds(if v.Num? then v.n else 0.0, bound.n))
  }

  function EvalCond(doc: Doc, c: SqlCond, args: seq<Json>): Tri
    requires |args| == c.Arity()
  {
    var col := Get(doc, c.key);
    match c
    case ColEq(_) => SqlEq(col, args[0])
    case ColNe(_) => Not(SqlEq(col, args[0]))
    case CastCmp(_, cmp) => CastCompare(col, cmp, args[0])
    case ColIn(_, _) => SqlIn(col, args)
    case ColNotIn(_, _) => Not(SqlIn(col, args))
    case ColIsNotNull(_) => FromBool(!col.Null?)
    case ColIsNull(_) => FromBool(col.Null?)
  }

  function Arity(conds: seq<SqlCond>): nat {
    if conds == [] then 0 else conds[0].Arity() + Arity(conds[1..])
  }

  predicate WellBound(w: Where) {
    Arity(w.conds) == |w.params|
  }

  function Tail(w: Where): (t: Where)
    requires WellBound(w) && w.conds != []
    ensures WellBound(t) && |t.conds| < |w.conds|
  {
    Where(w.conds[1..], w.params[w.conds[0].Arity()..])
  }

  function EvalHead(doc: Doc, w: Where): Tri
    requires WellBound(w) && w.conds != []
  {
    EvalCond(doc, w.conds[0], w.params[..w.conds[0].Arity()])
  }

  /** Placeholders take parameters from left to right; no conjunct reads `1=1`. */
  function EvalWhere(doc: Doc, w: Where): Tri
    requires WellBound(w)
    decreases |w.conds|
  {
    if w.conds == [] then True else And(EvalHead(doc, w), EvalWhere(doc, Tail(w)))
  }

  /** The rows a SELECT returns. */
  predicate Selects(doc: Doc, w: Where)
    requires WellBound(w)
  {
    EvalWhere(doc, w).True?
  }

  // ---------------------------------------------------------------------
  // The compiler
  // ---------------------------------------------------------------------

  predicate IsLetter(c: char) {
    'a' <= c <= 'z' || 'A' <= c <= 'Z' || c == '_'
  }

  /** `[A-Za-z_][A-Za-z0-9_.]*` */
  predicate Identifier(key: string) {
    key != "" && IsLetter(key[0]) && forall i :: 0 <= i < |key| ==> IsLetter(key[i]) || '0' <= key[i] <= '9' || key[i] == '.'
  }

  /** `$` also matches before a newline at the very end. */
  predicate ValidKey(key: string) {
    Identifier(key) || (key != "" && key[|key| - 1] == '\n' && Identifier(key[..|key| - 1]))
  }

  datatype Fault = InvalidKey(key: string)

  /** The handler of one operator; an unknown operator adds nothing. */
  function Handler(key: string, op: FilterOp): (w: Where)
    ensures WellBound(w)
  {
    match op
    case Eq(v) => Where([ColEq(key)], [v])
    case Ne(v) => Where([ColNe(key)], [v])
    case Order(cmp, bound) => Where([CastCmp(key, cmp)], [Num(bound)])
    case In(vs) => Where([ColIn(key, |vs|)], vs)
    case Nin(vs) => Where([ColNotIn(key, |vs|)], vs)
    case Exists(wanted) => Where([if wanted then ColIsNotNull(key) else ColIsNull(key)], [])
    case UnknownOp(_) => Where([], [])
  }

  function Concat(a: Where, b: Where): Where {
    Where(a.conds + b.conds, a.params + b.params)
  }

  function CompileOps(key: string, ops: seq<FilterOp>): Where {
    if ops == [] then Where([], [])
    else Concat(CompileOps(key, ops[..|ops| - 1]), Handler(key, ops[|ops| - 1]))
  }

  function CompileClause(c: Clause): Where {
    match c.cond
    case Value(v) => Where([ColEq(c.key)], [v])
    case Ops(ops) => CompileOps(c.key, ops)
  }

  function Compile(f: Filter): Where {
    if f == [] then Where([], []) else Concat(Compile(f[..|f| - 1]), CompileClause(f[|f| - 1]))
  }

  /** ASCII letters and the underscore, by their codes. */
  predicate LetterCode(c: int) {
    65 <= c <= 90 || 97 <= c <= 122 || c == 95
  }

  /** The first `n` characters: a letter, then letters, digits (48 to 57) and dots (46). */
  predicate NamePart(key: string, n: int) {
    && 0 < n <= |key| && LetterCode(key[0] as int)
    && forall i :: 0 <= i < n ==> LetterCode(key[i] as int) || 48 <= key[i] as int <= 57 || key[i] as int == 46
  }

  lemma IdentifierIs(key: string)
    ensures Identifier(key) <==> NamePart(key, |key|)
  {
    assert forall c: char :: IsLetter(c) <==> LetterCode(c as int);
  }

  /** A key is such a name, or one with a newline (10) at its end: nothing in it could leave the quoted path. */
  lemma {:induction false} ValidKeyIs(key: string)
    ensures ValidKey(key) <==>
            NamePart(key, |key|) || (|key| > 0 && key[|key| - 1] as int == 10 && NamePart(key, |key| - 1))
  {
    IdentifierIs(key);
    if |key| > 0 {
      var init := key[..|key| - 1];
      IdentifierIs(init);
      assert NamePart(init, |init|) <==> NamePart(key, |key| - 1);
      assert key[|key| - 1] == '\n' <==> key[|key| - 1] as int == 10;
    }
  }

  lemma ValidKeyIsNotLogical(key: string)
    requires ValidKey(key)
    ensures !IsLogicalKey(key)
  {
  }

  lemma CompileSnoc(f: Filter, i: nat)
    requires i < |f|
    ensures Compile(f[..i + 1]) == Concat(Compile(f[..i]), CompileClause(f[i]))
  {
    assert f[..i + 1][..i] == f[..i];
  }

  lemma ConcatOnce(before: Where, inner: Where, h: Where)
    ensures Concat(before, Concat(inner, h)) == Where(before.conds + inner.conds + h.conds, before.params + inner.params + h.params)
  {
    assert before.conds + (inner.conds + h.conds) == before.conds + inner.conds + h.conds;
    assert before.params + (inner.params + h.params) == before.params + inner.params + h.params;
  }

  /** The inner loop over one key's operators. */
  method AppendOps(conds0: seq<SqlCond>, params0: seq<Json>, key: string, ops: seq<FilterOp>) returns (conds: seq<SqlCond>, params: seq<Json>)
    ensures Where(conds, params) == Concat(Where(conds0, params0), CompileOps(key, ops))
  {
    conds, params := conds0, params0;
    for k := 0 to |ops|
      invariant Where(conds, params) == Concat(Where(conds0, params0), CompileOps(key, ops[..k]))
    {
      var h := Handler(key, ops[k]);
      ConcatOnce(Where(conds0, params0), CompileOps(key, ops[..k]), h);
      assert ops[..k + 1][..k] == ops[..k];
      conds := conds + h.conds;
      params := params + h.params;
    }
    assert ops[..|ops|] == ops;
  }

  predicate KeysValid(f: Filter) {
    forall i :: 0 <= i < |f| ==> ValidKey(f[i].key)
  }

  predicate IsFirstBad(f: Filter, i: nat) {
    i < |f| && !ValidKey(f[i].key) && KeysValid(f[..i])
  }

  /** The key the filter is refused for. */
  function FirstBadKey(f: Filter): Option<string> {
    if f == [] then None
    else
      var init, last := FirstBadKey(f[..|f| - 1]), f[|f| - 1].key;
      if init.Some? || ValidKey(last) then init else Some(last)
  }

  /** It is the first key that is not an identifier; there is none exactly when all are valid. */
  lemma {:induction false} FirstBadKeyIs(f: Filter)
    ensures FirstBadKey(f).None? <==> KeysValid(f)
    ensures FirstBadKey(f).Some? ==> exists i: nat :: IsFirstBad(f, i) && f[i].key == FirstBadKey(f).value
  {
    if f != [] {
      var init := f[..|f| - 1];
      FirstBadKeyIs(init);
      assert forall i :: 0 <= i < |init| ==> init[i] == f[i];
      if FirstBadKey(init).Some? {
        var i: nat :| IsFirstBad(init, i) && init[i].key == FirstBadKey(init).value;
        assert init[..i] == f[..i];
        assert IsFirstBad(f, i);
      } else if !ValidKey(f[|f| - 1].key) {
        assert IsFirstBad(f, |f| - 1);
      }
    }
  }

  lemma {:induction false} BadKeyStays(f: Filter, n: nat)
    requires n <= |f| && FirstBadKey(f[..n]).Some?
    ensures FirstBadKey(f) == FirstBadKey(f[..n])
    decreases |f|
  {
    if n < |f| {
      assert f[..|f| - 1][..n] == f[..n];
      BadKeyStays(f[..|f| - 1], n);
    } else {
      assert f[..n] == f;
    }
  }

  /** `_build_where_clause`: rejects the first bad key, otherwise grows both lists in step. */
  method BuildWhereClause(f: Filter) returns (r: Result<Where, Fault>)
    ensures r == match FirstBadKey(f)
                 case Some(key) => Err(InvalidKey(key))
                 case None => Result.Ok(Compile(f))
  {
    var conds: seq<SqlCond> := [];
    var params: seq<Json> := [];
    for i := 0 to |f|
      invariant FirstBadKey(f[..i]).None?
      invariant Where(conds, params) == Compile(f[..i])
    {
      var key := f[i].key;
      assert f[..i + 1][..i] == f[..i];
      if !ValidKey(key) {
        BadKeyStays(f, i + 1);
        return Err(InvalidKey(key));
      }
      CompileSnoc(f, i);
      // A valid key never starts with '$', so the skip of logical keys cannot be reached.
      match f[i].cond {
        case Ops(ops) =>
          conds, params := AppendOps(conds, params, key, ops);
        case Value(v) =>
          conds := conds + [ColEq(key)];
          params := params + [v];
      }
    }
    assert f[..|f|] == f;
    r := Ok(Where(conds, params));
  }

  // ---------------------------------------------------------------------
  // Positional binding survives concatenation
  // ---------------------------------------------------------------------

  lemma {:induction false} ArityConcat(a: seq<SqlCond>, b: seq<SqlCond>)
    ensures Arity(a + b) == Arity(a) + Arity(b)
  {
    if a == [] {
      assert a + b == b;
    } else {
      assert (a + b)[1..] == a[1..] + b;
      ArityConcat(a[1..], b);
    }
  }

  lemma AndAssociates(a: Tri, b: Tri, c: Tri)
    ensures And(And(a, b), c) == And(a, And(b, c))
  {
  }

  lemma TailOfConcat(doc: Doc, a: Where, b: Where)
    requires WellBound(a) && WellBound(b) && a.conds != []
    ensures WellBound(Concat(a, b)) && Tail(Concat(a, b)) == Concat(Tail(a), b)
    ensures EvalHead(doc, Concat(a, b)) == EvalHead(doc, a)
  {
    ArityConcat(a.conds, b.conds);
    var n := a.conds[0].Arity();
    assert (a.conds + b.conds)[1..] == a.conds[1..] + b.conds;
    assert (a.params + b.params)[n..] == a.params[n..] + b.params;
    assert (a.params + b.params)[..n] == a.params[..n];
  }

  lemma {:induction false} ConcatBinds(doc: Doc, a: Where, b: Where)
    requires WellBound(a) && WellBound(b)
    ensures WellBound(Concat(a, b))
    ensures EvalWhere(doc, Concat(a, b)) == And(EvalWhere(doc, a), EvalWhere(doc, b))
    decreases |a.conds|
  {
    if a.conds == [] {
      assert Concat(a, b).conds == b.conds && Concat(a, b).params == b.params;
    } else {
      TailOfConcat(doc, a, b);
      ConcatBinds(doc, Tail(a), b);
      AndAssociates(EvalHead(doc, a), EvalWhere(doc, Tail(a)), EvalWhere(doc, b));
    }
  }

  // ---------------------------------------------------------------------
  // Agreement with the client-side filter
  // ---------------------------------------------------------------------

  /** `json_extract` follows dots into nested objects and `doc.get` does not. */
  predicate FlatKey(key: string) {
    ValidKey(key) && '.' !in key
  }

  /** Scalars only, and nothing but numbers (or absence) is ordered against a number. */
  predicate Comparable(current: Json, op: FilterOp) {
    match op
    case Eq(v) => !v.List?
    case Ne(v) => !v.List?
    case Order(_, _) => current.Num? || current.Null?
    case In(vs) => forall v :: v in vs ==> !v.List?
    case Nin(vs) => forall v :: v in vs ==> !v.List?
    case Exists(_) => true
    case UnknownOp(_) => true
  }

  predicate ComparableClause(doc: Doc, c: Clause) {
    && FlatKey(c.key)
    && !Get(doc, c.key).List?
    && match c.cond
       case Value(v) => !v.List?
       case Ops(ops) => forall i :: 0 <= i < |ops| ==> Comparable(Get(doc, c.key), ops[i])
  }

  predicate ComparableFilter(doc: Doc, f: Filter) {
    forall i :: 0 <= i < |f| ==> ComparableClause(doc, f[i])
  }

  /** No NULL reaches a comparison that Python answers with True. */
  predicate NullSafe(current: Json, op: FilterOp) {
    match op
    case Eq(v) => !v.Null?
    case Ne(v) => !v.Null? && !current.Null?
    case In(vs) => !current.Null? || Null !in vs
    case Nin(vs) => vs == [] || (!current.Null? && Null !in vs)
    case _ => true
  }

  predicate NullSafeClause(doc: Doc, c: Clause) {
    match c.cond
    case Value(v) => !v.Null?
    case Ops(ops) => forall i :: 0 <= i < |ops| ==> NullSafe(Get(doc, c.key), ops[i])
  }

  predicate NullSafeFilter(doc: Doc, f: Filter) {
    forall i :: 0 <= i < |f| ==> NullSafeClause(doc, f[i])
  }

  lemma {:induction false} InAgrees(a: Json, bs: seq<Json>)
    ensures SqlIn(a, bs).True? <==> !a.Null? && a in bs
    ensures SqlIn(a, bs).False? <==> bs == [] || (!a.Null? && a !in bs && Null !in bs)
  {
    if bs != [] {
      InAgrees(a, bs[1..]);
    }
  }

  lemma EvalSingle(doc: Doc, c: SqlCond, args: seq<Json>)
    requires |args| == c.Arity()
    ensures WellBound(Where([c], args))
    ensures EvalWhere(doc, Where([c], args)).True? <==> EvalCond(doc, c, args).True?
  {
    assert Arity([c][1..]) == 0;
    assert args[..c.Arity()] == args;
    assert EvalWhere(doc, Tail(Where([c], args))) == True;
  }

  lemma {:induction false} HandlerAgrees(doc: Doc, key: string, op: FilterOp)
    requires Comparable(Get(doc, key), op)
    ensures Selects(doc, Handler(key, op)) <==>
            OpMatches(Get(doc, key), op) == Some(true) && NullSafe(Get(doc, key), op)
    ensures OpMatches(Get(doc, key), op) != None
  {
    var w := Handler(key, op);
    if !op.UnknownOp? {
      EvalSingle(doc, w.conds[0], w.params);
    }
    match op
    case In(vs) => InAgrees(Get(doc, key), vs);
    case Nin(vs) => InAgrees(Get(doc, key), vs);
    case _ =>
  }

  ghost predicate AllOps(current: Json, ops: seq<FilterOp>) {
    forall i :: 0 <= i < |ops| ==> OpMatches(current, ops[i]) == Some(true)
  }

  lemma {:induction false} OpsMatchIsConjunction(current: Json, ops: seq<FilterOp>)
    requires forall i :: 0 <= i < |ops| ==> OpMatches(current, ops[i]) != None
    ensures OpsMatch(current, ops) == Some(AllOps(current, ops))
  {
    if ops != [] {
      OpsMatchIsConjunction(current, ops[1..]);
      assert AllOps(current, ops) <==> OpMatches(current, ops[0]) == Some(true) && AllOps(current, ops[1..]) by {
        assert forall i :: 0 < i < |ops| ==> ops[i] == ops[1..][i - 1];
      }
    }
  }

  ghost predicate NullSafeOps(current: Json, ops: seq<FilterOp>) {
    forall i :: 0 <= i < |ops| ==> NullSafe(current, ops[i])
  }

  ghost predicate ComparableOps(current: Json, ops: seq<FilterOp>) {
    forall i :: 0 <= i < |ops| ==> Comparable(current, ops[i])
  }

  lemma OpsSplit(current: Json, init: seq<FilterOp>, last: FilterOp)
    ensures AllOps(current, init + [last]) <==> AllOps(current, init) && OpMatches(current, last) == Some(true)
    ensures NullSafeOps(current, init + [last]) <==> NullSafeOps(current, init) && NullSafe(current, last)
    ensures ComparableOps(current, init + [last]) <==> ComparableOps(current, init) && Comparable(current, last)
  {
    var ops := init + [last];
    assert ops[|init|] == last && forall i :: 0 <= i < |init| ==> ops[i] == init[i];
  }

  lemma CompileOpsSnoc(key: string, init: seq<FilterOp>, last: FilterOp)
    ensures CompileOps(key, init + [last]) == Concat(CompileOps(key, init), Handler(key, last))
  {
    assert (init + [last])[..|init|] == init;
  }

  lemma {:induction false} OpsAgree(doc: Doc, key: string, ops: seq<FilterOp>)
    requires ComparableOps(Get(doc, key), ops)
    ensures WellBound(CompileOps(key, ops))
    ensures Selects(doc, CompileOps(key, ops)) <==> AllOps(Get(doc, key), ops) && NullSafeOps(Get(doc, key), ops)
  {
    if ops != [] {
      var init, last := ops[..|ops| - 1], ops[|ops| - 1];
      assert ops == init + [last];
      OpsSplit(Get(doc, key), init, last);
      CompileOpsSnoc(key, init, last);
      OpsAgree(doc, key, init);
      HandlerAgrees(doc, key, last);
      SelectsConcat(doc, CompileOps(key, init), Handler(key, last));
    }
  }

  lemma {:induction false} ClauseAgrees(doc: Doc, c: Clause)
    requires ComparableClause(doc, c)
    ensures WellBound(CompileClause(c))
    ensures Selects(doc, CompileClause(c)) <==> ClauseMatches(doc, c) == Some(true) && NullSafeClause(doc, c)
    ensures ClauseMatches(doc, c) != None
  {
    ValidKeyIsNotLogical(c.key);
    match c.cond
    case Value(v) => EvalSingle(doc, ColEq(c.key), [v]);
    case Ops(ops) =>
      OpsAgree(doc, c.key, ops);
      forall i | 0 <= i < |ops| ensures OpMatches(Get(doc, c.key), ops[i]) != None {
        HandlerAgrees(doc, c.key, ops[i]);
      }
      OpsMatchIsConjunction(Get(doc, c.key), ops);
  }

  ghost predicate AllClauses(doc: Doc, f: Filter) {
    forall i :: 0 <= i < |f| ==> ClauseMatches(doc, f[i]) == Some(true)
  }

  lemma {:induction false} MatchesIsConjunction(doc: Doc, f: Filter)
    requires forall i :: 0 <= i < |f| ==> ClauseMatches(doc, f[i]) != None
    ensures Matches(doc, f) == Some(AllClauses(doc, f))
  {
    if f != [] {
      assert forall i :: 0 < i < |f| ==> f[i] == f[1..][i - 1];
      MatchesIsConjunction(doc, f[1..]);
      if AllClauses(doc, f[1..]) && ClauseMatches(doc, f[0]) == Some(true) {
        forall i | 0 <= i < |f| ensures ClauseMatches(doc, f[i]) == Some(true) {
          assert i > 0 ==> f[i] == f[1..][i - 1];
        }
      }
      var first := ClauseMatches(doc, f[0]);
      assert first == Some(true) || (first == Some(false) && !AllClauses(doc, f)) by {
        assert first.value || !first.value;
      }
      if AllClauses(doc, f) {
        forall i | 0 <= i < |f[1..]| ensures ClauseMatches(doc, f[1..][i]) == Some(true) {
          assert f[1..][i] == f[i + 1];
        }
      }
    }
  }

  /** What compiling preserves, clause by clause. */
  ghost predicate Agreeing(doc: Doc, f: Filter) {
    && WellBound(Compile(f))
    && (Selects(doc, Compile(f)) <==> forall i :: 0 <= i < |f| ==> ClauseMatches(doc, f[i]) == Some(true) && NullSafeClause(doc, f[i]))
  }

  lemma AgreesWithOneMore(doc: Doc, init: Filter, last: Clause)
    requires Agreeing(doc, init) && ComparableClause(doc, last)
    ensures Agreeing(doc, init + [last])
  {
    var f := init + [last];
    assert f[..|init|] == init && f[|init|] == last;
    assert forall i :: 0 <= i < |init| ==> f[i] == init[i];
    ClauseAgrees(doc, last);
    SelectsConcat(doc, Compile(init), CompileClause(last));
  }

  lemma {:induction false} CompiledAgrees(doc: Doc, f: Filter)
    requires ComparableFilter(doc, f)
    ensures Agreeing(doc, f)
  {
    if f != [] {
      var init, last := f[..|f| - 1], f[|f| - 1];
      assert forall i :: 0 <= i < |init| ==> init[i] == f[i];
      CompiledAgrees(doc, init);
      assert f == init + [last];
      assert ComparableClause(doc, last);
      AgreesWithOneMore(doc, init, last);
    }
  }

  lemma SelectsConcat(doc: Doc, a: Where, b: Where)
    requires WellBound(a) && WellBound(b)
    ensures WellBound(Concat(a, b))
    ensures Selects(doc, Concat(a, b)) <==> Selects(doc, a) && Selects(doc, b)
  {
    ConcatBinds(doc, a, b);
  }

  /**
   The exact relation of the two backends: SQL returns the document if and only
   if the client-side filter does and no NULL met a comparison on the way.
   */
  lemma {:induction false} BackendsAgreeExactly(doc: Doc, f: Filter)
    requires ComparableFilter(doc, f)
    ensures WellBound(Compile(f))
    ensures Selects(doc, Compile(f)) <==> Matches(doc, f) == Some(true) && NullSafeFilter(doc, f)
  {
    CompiledAgrees(doc, f);
    forall i | 0 <= i < |f| ensures ClauseMatches(doc, f[i]) != None {
      assert ComparableClause(doc, f[i]);
      ClauseAgrees(doc, f[i]);
    }
    MatchesIsConjunction(doc, f);
  }

  predicate NonNullOperand(op: FilterOp) {
    match op
    case Eq(v) => !v.Null?
    case Ne(v) => !v.Null?
    case In(vs) => Null !in vs
    case Nin(vs) => Null !in vs
    case _ => true
  }

  predicate NonNullOperands(f: Filter) {
    forall i :: 0 <= i < |f| ==>
                  match f[i].cond
                  case Value(v) => !v.Null?
                  case Ops(ops) => forall j :: 0 <= j < |ops| ==> NonNullOperand(ops[j])
  }

  /** Every key under `$ne`, or under `$nin` with a non-empty list, is present in the document. */
  predicate NegatedKeysPresent(doc: Doc, f: Filter) {
    forall i :: 0 <= i < |f| && f[i].cond.Ops? ==>
                  forall j :: 0 <= j < |f[i].cond.ops| ==>
                                var op := f[i].cond.ops[j];
                                op.Ne? || (op.Nin? && op.vs != []) ==> !Get(doc, f[i].key).Null?
  }

  /**
   With non-null operands the documented promise that both backends select the
   same documents fails exactly on the documents that match while lacking a
   negated key.
   */
  lemma {:induction false} AgreeIffNegatedKeysPresent(doc: Doc, f: Filter)
    requires ComparableFilter(doc, f) && NonNullOperands(f)
    ensures WellBound(Compile(f))
    ensures Selects(doc, Compile(f)) ==> Matches(doc, f) == Some(true)
    ensures (Selects(doc, Compile(f)) <==> Matches(doc, f) == Some(true)) <==>
            (Matches(doc, f) == Some(true) ==> NegatedKeysPresent(doc, f))
  {
    BackendsAgreeExactly(doc, f);
    forall i | 0 <= i < |f|
      ensures NullSafeClause(doc, f[i]) <==>
              (f[i].cond.Ops? ==>
                 forall j :: 0 <= j < |f[i].cond.ops| ==>
                               var op := f[i].cond.ops[j];
                               op.Ne? || (op.Nin? && op.vs != []) ==> !Get(doc, f[i].key).Null?)
    {
      match f[i].cond
      case Value(_) =>
      case Ops(ops) =>
        assert forall j :: 0 <= j < |ops| ==> NonNullOperand(ops[j]);
    }
  }

  /** A document without the key satisfies `{"status": {"$ne": "done"}}` in Redis and not in SQLite. */
  lemma {:induction false} NeMissingKeyDisagrees()
    ensures var f := [Clause("status", Ops([Ne(Json.Text("done"))]))];
            Matches(map[], f) == Some(true) && WellBound(Compile(f)) && !Selects(map[], Compile(f))
  {
    var ops := [Ne(Json.Text("done"))];
    var f := [Clause("status", Ops(ops))];
    assert NonNullOperand(ops[0]);
    BackendsAgreeExactly(map[], f);
    assert OpsMatch(Null, ops[1..]) == Some(true);
    assert Matches(map[], f[1..]) == Some(true);
    assert !NullSafe(Null, f[0].cond.ops[0]);
    assert !NullSafeClause(map[], f[0]);
  }
}
