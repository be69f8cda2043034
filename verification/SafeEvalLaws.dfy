/**
 What the operators of a safe expression mean, in the interpreter and in Python's reading alike,
 and the exact limits of the validator (osimflow/_eval_safe.py).
 */
module SafeEvalLaws {
  import opened Wrappers
  import opened SafeEval

  predicate Known(py: Python, x: string, v: Value) {
    x in py.env && py.env[x] == v
  }

  /** The outcome of an operator that may raise, after the events given. */
  function Outcome(events: seq<Event>, v: Option<Value>): Run {
    match v
    case None => Fail(events, Raised)
    case Some(value) => Done(events, value)
  }

  /** Both readings give this run. */
  ghost predicate Gives(py: Python, e: Expr, d: nat, tr: seq<Event>, r: Run) {
    Eval(py, e, d, tr) == r && PyEval(py, e, tr) == r
  }

  lemma NameReads(py: Python, x: string, v: Value, d: nat, tr: seq<Event>)
    requires Known(py, x, v) && d <= 10
    ensures Gives(py, Name(x), d, tr, Done(tr + [Read(x)], v))
  {
  }

  // ---------------------------------------------------------------------
  // Operators
  // ---------------------------------------------------------------------

  /** The left operand is read first and is the operator's first argument. */
  lemma {:induction false} OperandsKeepOrder(py: Python, op: Arith, x: string, y: string, v: Value, w: Value, d: nat, tr: seq<Event>)
    requires Known(py, x, v) && Known(py, y, w) && d < 10 && op != OtherArith
    ensures Gives(py, BinOp(op, Name(x), Name(y)), d, tr, Outcome(tr + [Read(x)] + [Read(y)] + [Applied(op, v, w)], py.arith(op, v, w)))
  {
  }

  /** `not` negates the truth value, two of them give it back; a sign is applied to the operand's value. */
  lemma {:induction false} UnaryMeans(py: Python, x: string, v: Value, d: nat, tr: seq<Event>)
    requires Known(py, x, v) && d < 9 && BooleansAreThemselves(py)
    ensures Gives(py, UnaryOp(Not, Name(x)), d, tr, Done(tr + [Read(x)], Bool(!py.truth(v))))
    ensures Gives(py, UnaryOp(Not, UnaryOp(Not, Name(x))), d, tr, Done(tr + [Read(x)], Bool(py.truth(v))))
    ensures Gives(py, UnaryOp(USub, Name(x)), d, tr, Outcome(tr + [Read(x)] + [AppliedUnary(USub, v)], py.negate(USub, v)))
    ensures Gives(py, UnaryOp(UAdd, Name(x)), d, tr, Outcome(tr + [Read(x)] + [AppliedUnary(UAdd, v)], py.negate(UAdd, v)))
  {
    NameReads(py, x, v, d + 1, tr);
    NameReads(py, x, v, d + 2, tr);
    assert Gives(py, UnaryOp(Not, Name(x)), d + 1, tr, Done(tr + [Read(x)], Bool(!py.truth(v))));
  }

  /** `x ? y ? z`: the first comparison decides alone when it fails; else the middle value, read once, meets the third. */
  lemma {:induction false} ChainMeans(py: Python, p: Cmp, q: Cmp, x: string, y: string, z: string, u: Value, v: Value, w: Value, d: nat, tr: seq<Event>)
    requires Known(py, x, u) && Known(py, y, v) && Known(py, z, w) && d < 10
    ensures var first := tr + [Read(x)] + [Read(y)] + [Compared(p, u, v)];
            var second := first + [Read(z)] + [Compared(q, v, w)];
            Gives(py, Compare(Name(x), [Comparison(p, Name(y)), Comparison(q, Name(z))]), d, tr,
                  if py.compare(p, u, v) == None then Fail(first, Raised)
                  else if py.compare(p, u, v) == Some(false) then Done(first, Bool(false))
                  else if py.compare(q, v, w) == None then Fail(second, Raised)
                  else Done(second, Bool(py.compare(q, v, w).value)))
  {
    var e := Compare(Name(x), [Comparison(p, Name(y)), Comparison(q, Name(z))]);
    var read := tr + [Read(x)];
    var first := read + [Read(y)] + [Compared(p, u, v)];
    NameReads(py, x, u, d + 1, tr);
    SecondComparison(py, e, q, z, v, w, d, first);
    NameReads(py, y, v, d + 1, read);
    assert e.rest[0] == Comparison(p, Name(y)) && |e.rest| == 2;
    assert EvalChain(py, e, 0, u, d, read) ==
           if py.compare(p, u, v) == None then Fail(first, Raised)
           else if py.compare(p, u, v) == Some(false) then Done(first, Bool(false))
           else EvalChain(py, e, 1, v, d, first);
    assert PyChain(py, e, 0, u, read) ==
           if py.compare(p, u, v) == None then Fail(first, Raised)
           else if py.compare(p, u, v) == Some(false) then Done(first, Bool(false))
           else PyChain(py, e, 1, v, first);
  }

  lemma SecondComparison(py: Python, e: Expr, q: Cmp, z: string, v: Value, w: Value, d: nat, tr: seq<Event>)
    requires e.Compare? && |e.rest| == 2 && e.rest[1] == Comparison(q, Name(z)) && Known(py, z, w) && d < 10
    ensures var seen := tr + [Read(z)] + [Compared(q, v, w)];
            var r := if py.compare(q, v, w) == None then Fail(seen, Raised) else Done(seen, Bool(py.compare(q, v, w).value));
            EvalChain(py, e, 1, v, d, tr) == r && PyChain(py, e, 1, v, tr) == r
  {
    NameReads(py, z, w, d + 1, tr);
    var seen := tr + [Read(z)] + [Compared(q, v, w)];
    assert EvalChain(py, e, 2, w, d, seen) == Done(seen, Bool(true));
  }

  /** `x and y` stops at a false `x`, `x or y` at a true one; the interpreter answers with the truth value. */
  lemma {:induction false} BoolMeans(py: Python, isAnd: bool, x: string, y: string, v: Value, w: Value, d: nat, tr: seq<Event>)
    requires Known(py, x, v) && Known(py, y, w) && d < 10
    ensures Eval(py, BoolOp(isAnd, [Name(x), Name(y)]), d, tr) ==
            if py.truth(v) != isAnd then Done(tr + [Read(x)], Bool(py.truth(v)))
            else Done(tr + [Read(x)] + [Read(y)], Bool(py.truth(w)))
    ensures PyEval(py, BoolOp(isAnd, [Name(x), Name(y)]), tr) ==
            if py.truth(v) != isAnd then Done(tr + [Read(x)], v) else Done(tr + [Read(x)] + [Read(y)], w)
  {
    var e := BoolOp(isAnd, [Name(x), Name(y)]);
    var once := tr + [Read(x)];
    var twice := once + [Read(y)];
    NameReads(py, x, v, d + 1, tr);
    NameReads(py, y, w, d + 1, once);
    assert e.operands[0] == Name(x) && e.operands[1] == Name(y) && |e.operands| == 2;
    assert EvalBool(py, e, 2, d, twice) == Done(twice, Bool(isAnd));
    assert EvalBool(py, e, 1, d, once) == Done(twice, Bool(py.truth(w)));
    assert PyBool(py, e, 1, once) == Done(twice, w);
  }

  /** Only the branch the test chooses is evaluated. */
  lemma {:induction false} IfMeans(py: Python, t: string, x: string, y: string, c: Value, v: Value, w: Value, d: nat, tr: seq<Event>)
    requires Known(py, t, c) && Known(py, x, v) && Known(py, y, w) && d < 10
    ensures Gives(py, IfExp(Name(t), Name(x), Name(y)), d, tr,
                  if py.truth(c) then Done(tr + [Read(t)] + [Read(x)], v) else Done(tr + [Read(t)] + [Read(y)], w))
  {
  }

  // ---------------------------------------------------------------------
  // De Morgan
  // ---------------------------------------------------------------------

  function Negated(es: seq<Expr>): (r: seq<Expr>)
    ensures |r| == |es| && forall i :: 0 <= i < |es| ==> r[i] == UnaryOp(Not, es[i])
  {
    seq(|es|, i requires 0 <= i < |es| => UnaryOp(Not, es[i]))
  }

  /** The run with the truth of its value turned around. */
  function Opposite(py: Python, r: Run): Run {
    if r.Fail? then r else Done(r.trace, Bool(!py.truth(r.value)))
  }

  lemma {:induction false} NegatedOperands(py: Python, isAnd: bool, es: seq<Expr>, i: nat, d: nat, tr: seq<Event>)
    requires BooleansAreThemselves(py) && d < 10 && i <= |es|
    ensures EvalBool(py, BoolOp(!isAnd, Negated(es)), i, d, tr) == Opposite(py, EvalBool(py, BoolOp(isAnd, es), i, d + 1, tr))
    decreases |es| - i
  {
    if i < |es| {
      var r := Eval(py, es[i], d + 2, tr);
      assert Eval(py, Negated(es)[i], d + 1, tr) == Opposite(py, r);
      if r.Done? {
        NegatedOperands(py, isAnd, es, i + 1, d, r.trace);
      }
    }
  }

  /** `not (a and b ...)` is `(not a) or (not b) ...` and the other way round: value, failure, and order of evaluation. */
  lemma {:induction false} DeMorgan(py: Python, isAnd: bool, es: seq<Expr>, d: nat, tr: seq<Event>)
    requires BooleansAreThemselves(py) && d < 10
    ensures Eval(py, UnaryOp(Not, BoolOp(isAnd, es)), d, tr) == Eval(py, BoolOp(!isAnd, Negated(es)), d, tr)
  {
    NegatedOperands(py, isAnd, es, 0, d, tr);
  }

  // ---------------------------------------------------------------------
  // The limits of the validator
  // ---------------------------------------------------------------------

  function Nested(e: Expr, n: nat): Expr {
    if n == 0 then e else UnaryOp(Not, Nested(e, n - 1))
  }

  lemma {:induction false} NestedAccepts(v: Value, n: nat, d: nat)
    ensures Accepts(Nested(Constant(v), n), d) <==> d + n + 1 <= 10
  {
    if n > 0 {
      NestedAccepts(v, n - 1, d + 1);
    }
  }

  /** Eight operators may be nested, nine may not; the evaluator itself would stop at eleven. */
  lemma {:induction false} NestingLimit(py: Python, v: Value, n: nat)
    ensures Validated(Nested(Constant(v), n)) <==> n <= 8
    ensures Eval(py, Nested(Constant(v), n), 0, []) == Fail([], TooDeep) <==> n > 10
  {
    NestedAccepts(v, n, 1);
    NestedEval(py, v, n, 0);
  }

  lemma {:induction false} NestedEval(py: Python, v: Value, n: nat, d: nat)
    requires d <= 11
    ensures Eval(py, Nested(Constant(v), n), d, []) == Fail([], TooDeep) <==> d + n > 10
    ensures Eval(py, Nested(Constant(v), n), d, []).Fail? ==> Eval(py, Nested(Constant(v), n), d, []) == Fail([], TooDeep)
  {
    if n > 0 && d <= 10 {
      NestedEval(py, v, n - 1, d + 1);
    }
  }

  /** A literal of a thousand constants is accepted, a longer one is not; a node of any other kind never is. */
  lemma {:induction false} SizeLimit(container: Container, vs: seq<Value>, items: seq<Item>)
    ensures Validated(Elements(container, seq(|vs|, i requires 0 <= i < |vs| => Constant(vs[i])))) <==> |vs| <= 1000
    ensures (forall i :: 0 <= i < |items| ==> items[i].key.None? && items[i].value.Constant?) ==>
              (Validated(Dict(items)) <==> |items| <= 1000)
    ensures !Validated(OtherNode)
  {
    var elts := seq(|vs|, i requires 0 <= i < |vs| => Constant(vs[i]));
    assert forall i :: 0 <= i < |elts| ==> Accepts(elts[i], 2);
    assert Validated(Elements(container, elts)) <==> |elts| <= 1000;
    if forall i :: 0 <= i < |items| ==> items[i].key.None? && items[i].value.Constant? {
      assert forall i :: 0 <= i < |items| ==> Accepts(items[i].value, 2);
      assert Validated(Dict(items)) <==> |items| <= 1000;
    }
  }
}
