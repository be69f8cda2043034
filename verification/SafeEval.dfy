/**
 The safe expression evaluator (osimflow/_eval_safe.py): its validator, its guarded
 interpreter, and Python's own operand-returning reading of the same expressions.
 */
module SafeEval {
  import opened Wrappers

  datatype Arith = Add | Sub | Mult | Div | FloorDiv | Mod | Pow | OtherArith
  datatype Unary = Not | USub | UAdd | OtherUnary
  datatype Cmp = Eq | NotEq | Lt | LtE | Gt | GtE | Is | IsNot | In | NotIn
  datatype Container = TupleOf | ListOf | SetOf

  datatype Value = NoneValue | Bool(b: bool) | Number(r: real) | Text(s: string) | Object(id: nat)

  /** A dictionary key is None for `**mapping`. */
  datatype Item = Item(key: Option<Expr>, value: Expr)

  datatype Expr =
    | Constant(value: Value)
    | Name(id: string)
    | BinOp(arith: Arith, left: Expr, right: Expr)
    | UnaryOp(unary: Unary, operand: Expr)
    | Compare(first: Expr, rest: seq<Comparison>)
    | BoolOp(isAnd: bool, operands: seq<Expr>)
    | IfExp(test: Expr, body: Expr, orelse: Expr)
    | Elements(container: Container, elts: seq<Expr>)
    | Dict(items: seq<Item>)
    | JoinedStr(parts: seq<Expr>)
    | FormattedValue(formatted: Expr, spec: Option<Expr>)
    | OtherNode

  datatype Comparison = Comparison(cmp: Cmp, comparator: Expr)

  const MAX_DEPTH := 10
  const MAX_SIZE := 1000

  // ---------------------------------------------------------------------
  // The validator
  // ---------------------------------------------------------------------

  /** A node visited while `d` nodes are open around it. */
  predicate Accepts(e: Expr, d: nat)
    decreases e
  {
    && !e.OtherNode?
    && (e.Elements? ==> |e.elts| <= MAX_SIZE)
    && (e.Dict? ==> |e.items| <= MAX_SIZE)
    && d + 1 <= MAX_DEPTH
    && match e
       case BinOp(_, left, right) => Accepts(left, d + 1) && Accepts(right, d + 1)
       case UnaryOp(_, operand) => Accepts(operand, d + 1)
       case Compare(first, rest) =>
         Accepts(first, d + 1) && forall i :: 0 <= i < |rest| ==> Accepts(rest[i].comparator, d + 1)
       case BoolOp(_, operands) => forall i :: 0 <= i < |operands| ==> Accepts(operands[i], d + 1)
       case IfExp(test, body, orelse) => Accepts(test, d + 1) && Accepts(body, d + 1) && Accepts(orelse, d + 1)
       case Elements(_, elts) => forall i :: 0 <= i < |elts| ==> Accepts(elts[i], d + 1)
       case Dict(items) =>
         forall i :: 0 <= i < |items| ==>
           (items[i].key.Some? ==> Accepts(items[i].key.value, d + 1)) && Accepts(items[i].value, d + 1)
       case JoinedStr(parts) => forall i :: 0 <= i < |parts| ==> Accepts(parts[i], d + 1)
       case FormattedValue(formatted, spec) => Accepts(formatted, d + 1) && (spec.Some? ==> Accepts(spec.value, d + 1))
       case _ => true
  }

  /** The whole tree: its `Expression` node counts as one level. */
  predicate Validated(body: Expr) {
    Accepts(body, 1)
  }

  /** `_SafeVisitor`; a false result is an `ExpressionError`. */
  class SafeVisitor {
    var depth: nat

    constructor ()
      ensures depth == 0
    {
      depth := 0;
    }

    /** `_check_ast` on `Expression(body)`. */
    method CheckAst(body: Expr) returns (ok: bool)
      requires depth == 0
      modifies this
      ensures depth == 0 && ok == Validated(body)
    {
      depth := depth + 1;
      ok := false;
      if depth <= MAX_DEPTH {
        ok := Visit(body);
      }
      depth := depth - 1;
    }

    /** `generic_visit`: the depth is restored whether or not it raises. */
    method Visit(e: Expr) returns (ok: bool)
      modifies this
      ensures depth == old(depth) && ok == Accepts(e, old(depth))
      decreases e, 1
    {
      if e.OtherNode? || (e.Elements? && |e.elts| > MAX_SIZE) || (e.Dict? && |e.items| > MAX_SIZE) {
        return false;
      }
      depth := depth + 1;
      ok := depth <= MAX_DEPTH;
      if ok {
        ok := VisitChildren(e);
      }
      depth := depth - 1;
    }

    method VisitChildren(e: Expr) returns (ok: bool)
      requires depth > 0 && depth <= MAX_DEPTH && !e.OtherNode?
      requires (e.Elements? ==> |e.elts| <= MAX_SIZE) && (e.Dict? ==> |e.items| <= MAX_SIZE)
      modifies this
      ensures depth == old(depth) && ok == Accepts(e, depth - 1)
      decreases e, 0
    {
      ok := true;
      match e
      case BinOp(_, left, right) =>
        ok := Visit(left);
        if ok {
          ok := Visit(right);
        }
      case UnaryOp(_, operand) =>
        ok := Visit(operand);
      case Compare(first, rest) =>
        ok := Visit(first);
        for i := 0 to |rest|
          invariant depth == old(depth)
          invariant ok == (Accepts(first, depth) && forall k :: 0 <= k < i ==> Accepts(rest[k].comparator, depth))
        {
          if ok {
            ok := Visit(rest[i].comparator);
          }
        }
      case BoolOp(_, operands) =>
        for i := 0 to |operands|
          invariant depth == old(depth)
          invariant ok == forall k :: 0 <= k < i ==> Accepts(operands[k], depth)
        {
          if ok {
            ok := Visit(operands[i]);
          }
        }
      case IfExp(test, body, orelse) =>
        ok := Visit(test);
        if ok {
          ok := Visit(body);
        }
        if ok {
          ok := Visit(orelse);
        }
      case Elements(_, elts) =>
        for i := 0 to |elts|
          invariant depth == old(depth)
          invariant ok == forall k :: 0 <= k < i ==> Accepts(elts[k], depth)
        {
          if ok {
            ok := Visit(elts[i]);
          }
        }
      case Dict(items) =>
        for i := 0 to |items|
          invariant depth == old(depth)
          invariant ok == forall k :: 0 <= k < i ==>
                            (items[k].key.Some? ==> Accepts(items[k].key.value, depth)) && Accepts(items[k].value, depth)
        {
          if ok && items[i].key.Some? {
            ok := Visit(items[i].key.value);
          }
          if ok {
            ok := Visit(items[i].value);
          }
        }
      case JoinedStr(parts) =>
        for i := 0 to |parts|
          invariant depth == old(depth)
          invariant ok == forall k :: 0 <= k < i ==> Accepts(parts[k], depth)
        {
          if ok {
            ok := Visit(parts[i]);
          }
        }
      case FormattedValue(formatted, spec) =>
        ok := Visit(formatted);
        if ok && spec.Some? {
          ok := Visit(spec.value);
        }
      case _ =>
    }
  }

  // ---------------------------------------------------------------------
  // Running an expression
  // ---------------------------------------------------------------------

  datatype Error = TooDeep | UnknownVariable | Unsupported | Raised

  /** What happened, in order: a name was read or an operator applied. */
  datatype Event =
    | Read(id: string)
    | Applied(arith: Arith, x: Value, y: Value)
    | AppliedUnary(unary: Unary, x: Value)
    | Compared(cmp: Cmp, x: Value, y: Value)
    | Built(container: Container, elements: seq<Value>)
    | BuiltDict(entries: seq<(Value, Value)>)

  datatype Run = Done(trace: seq<Event>, value: Value) | Fail(trace: seq<Event>, error: Error)

  /** Python's operators on values; None is an exception. */
  datatype Python = Python(
    env: map<string, Value>,
    arith: (Arith, Value, Value) -> Option<Value>,
    negate: (Unary, Value) -> Option<Value>,
    compare: (Cmp, Value, Value) -> Option<bool>,
    truth: Value -> bool,
    build: (Container, seq<Value>) -> Option<Value>,
    buildDict: seq<(Value, Value)> -> Option<Value>)

  predicate BooleansAreThemselves(py: Python) {
    py.truth(Bool(true)) && !py.truth(Bool(false))
  }

  function Finish(trace: seq<Event>, v: Option<Value>): Run {
    if v.None? then Fail(trace, Raised) else Done(trace, v.value)
  }

  /** `not v`, `-v`, `+v` */
  function ApplyUnary(py: Python, op: Unary, r: Run): Run {
    if r.Fail? then r
    else if op == Not then Done(r.trace, Bool(!py.truth(r.value)))
    else Finish(r.trace + [AppliedUnary(op, r.value)], py.negate(op, r.value))
  }

  function ApplyArith(py: Python, op: Arith, x: Value, r: Run): Run {
    if r.Fail? then r else Finish(r.trace + [Applied(op, x, r.value)], py.arith(op, x, r.value))
  }

  /** `_eval_node` at a recursion depth. */
  function Eval(py: Python, e: Expr, d: nat, tr: seq<Event>): Run
    decreases e, 1, 0
  {
    if d > MAX_DEPTH then Fail(tr, TooDeep)
    else
      match e
      case Constant(value) => Done(tr, value)
      case Name(id) => if id in py.env then Done(tr + [Read(id)], py.env[id]) else Fail(tr, UnknownVariable)
      case BinOp(arith, left, right) =>
        if arith == OtherArith then Fail(tr, Unsupported)
        else
          var l := Eval(py, left, d + 1, tr);
          if l.Fail? then l else ApplyArith(py, arith, l.value, Eval(py, right, d + 1, l.trace))
      case UnaryOp(unary, operand) =>
        if unary == OtherUnary then Fail(tr, Unsupported)
        else ApplyUnary(py, unary, Eval(py, operand, d + 1, tr))
      case Compare(first, rest) =>
        var l := Eval(py, first, d + 1, tr);
        if l.Fail? then l else EvalChain(py, e, 0, l.value, d, l.trace)
      case BoolOp(_, _) => EvalBool(py, e, 0, d, tr)
      case IfExp(test, body, orelse) =>
        var t := Eval(py, test, d + 1, tr);
        if t.Fail? then t
        else if py.truth(t.value) then Eval(py, body, d + 1, t.trace)
        else Eval(py, orelse, d + 1, t.trace)
      case Elements(_, _) => EvalElements(py, e, 0, [], d, tr)
      case Dict(_) => EvalItems(py, e, 0, [], d, tr)
      case _ => Fail(tr, Unsupported)
  }

  /** The comparison loop: False at the first comparison that fails, True at the end. */
  function EvalChain(py: Python, e: Expr, i: nat, left: Value, d: nat, tr: seq<Event>): Run
    requires e.Compare? && i <= |e.rest|
    decreases e, 0, |e.rest| - i
  {
    if i == |e.rest| then Done(tr, Bool(true))
    else
      var r := Eval(py, e.rest[i].comparator, d + 1, tr);
      if r.Fail? then r
      else
        var holds := py.compare(e.rest[i].cmp, left, r.value);
        var seen := r.trace + [Compared(e.rest[i].cmp, left, r.value)];
        if holds.None? then Fail(seen, Raised)
        else if !holds.value then Done(seen, Bool(false))
        else EvalChain(py, e, i + 1, r.value, d, seen)
  }

  /** `all(...)` or `any(...)` over the operands: always a boolean. */
  function EvalBool(py: Python, e: Expr, i: nat, d: nat, tr: seq<Event>): Run
    requires e.BoolOp? && i <= |e.operands|
    decreases e, 0, |e.operands| - i
  {
    if i == |e.operands| then Done(tr, Bool(e.isAnd))
    else
      var r := Eval(py, e.operands[i], d + 1, tr);
      if r.Fail? then r
      else if py.truth(r.value) != e.isAnd then Done(r.trace, Bool(!e.isAnd))
      else EvalBool(py, e, i + 1, d, r.trace)
  }

  function EvalElements(py: Python, e: Expr, i: nat, acc: seq<Value>, d: nat, tr: seq<Event>): Run
    requires e.Elements? && i <= |e.elts|
    decreases e, 0, |e.elts| - i
  {
    if i == |e.elts| then Finish(tr + [Built(e.container, acc)], py.build(e.container, acc))
    else
      var r := Eval(py, e.elts[i], d + 1, tr);
      if r.Fail? then r else EvalElements(py, e, i + 1, acc + [r.value], d, r.trace)
  }

  function EvalItems(py: Python, e: Expr, i: nat, acc: seq<(Value, Value)>, d: nat, tr: seq<Event>): Run
    requires e.Dict? && i <= |e.items|
    decreases e, 0, |e.items| - i
  {
    if i == |e.items| then Finish(tr + [BuiltDict(acc)], py.buildDict(acc))
    else if e.items[i].key.None? then Fail(tr, if d + 1 > MAX_DEPTH then TooDeep else Unsupported)
    else
      var k := Eval(py, e.items[i].key.value, d + 1, tr);
      if k.Fail? then k
      else
        var v := Eval(py, e.items[i].value, d + 1, k.trace);
        if v.Fail? then v else EvalItems(py, e, i + 1, acc + [(k.value, v.value)], d, v.trace)
  }

  // ---------------------------------------------------------------------
  // The validator's bound implies the interpreter's
  // ---------------------------------------------------------------------

  predicate NotTooDeep(r: Run) {
    r.Fail? ==> r.error != TooDeep
  }

  lemma {:induction false} AcceptedNeverTooDeep(py: Python, e: Expr, d: nat, tr: seq<Event>)
    requires Accepts(e, d + 1)
    ensures NotTooDeep(Eval(py, e, d, tr))
    decreases e, 1, 0
  {
    match e
    case BinOp(arith, left, right) =>
      AcceptedNeverTooDeep(py, left, d + 1, tr);
      AcceptedNeverTooDeep(py, right, d + 1, Eval(py, left, d + 1, tr).trace);
    case UnaryOp(unary, operand) =>
      AcceptedNeverTooDeep(py, operand, d + 1, tr);
    case Compare(first, rest) =>
      AcceptedNeverTooDeep(py, first, d + 1, tr);
      var l := Eval(py, first, d + 1, tr);
      if l.Done? {
        ChainNeverTooDeep(py, e, 0, l.value, d, l.trace);
      }
    case BoolOp(_, _) =>
      BoolNeverTooDeep(py, e, 0, d, tr);
    case IfExp(test, body, orelse) =>
      AcceptedNeverTooDeep(py, test, d + 1, tr);
      AcceptedNeverTooDeep(py, body, d + 1, Eval(py, test, d + 1, tr).trace);
      AcceptedNeverTooDeep(py, orelse, d + 1, Eval(py, test, d + 1, tr).trace);
    case Elements(_, _) =>
      ElementsNeverTooDeep(py, e, 0, [], d, tr);
    case Dict(_) =>
      ItemsNeverTooDeep(py, e, 0, [], d, tr);
    case _ =>
  }

  lemma {:induction false} ChainNeverTooDeep(py: Python, e: Expr, i: nat, left: Value, d: nat, tr: seq<Event>)
    requires e.Compare? && i <= |e.rest| && Accepts(e, d + 1)
    ensures NotTooDeep(EvalChain(py, e, i, left, d, tr))
    decreases e, 0, |e.rest| - i
  {
    if i < |e.rest| {
      AcceptedNeverTooDeep(py, e.rest[i].comparator, d + 1, tr);
      var r := Eval(py, e.rest[i].comparator, d + 1, tr);
      if r.Done? {
        ChainNeverTooDeep(py, e, i + 1, r.value, d, r.trace + [Compared(e.rest[i].cmp, left, r.value)]);
      }
    }
  }

  lemma {:induction false} BoolNeverTooDeep(py: Python, e: Expr, i: nat, d: nat, tr: seq<Event>)
    requires e.BoolOp? && i <= |e.operands| && Accepts(e, d + 1)
    ensures NotTooDeep(EvalBool(py, e, i, d, tr))
    decreases e, 0, |e.operands| - i
  {
    if i < |e.operands| {
      AcceptedNeverTooDeep(py, e.operands[i], d + 1, tr);
      BoolNeverTooDeep(py, e, i + 1, d, Eval(py, e.operands[i], d + 1, tr).trace);
    }
  }

  lemma {:induction false} ElementsNeverTooDeep(py: Python, e: Expr, i: nat, acc: seq<Value>, d: nat, tr: seq<Event>)
    requires e.Elements? && i <= |e.elts| && Accepts(e, d + 1)
    ensures NotTooDeep(EvalElements(py, e, i, acc, d, tr))
    decreases e, 0, |e.elts| - i
  {
    if i < |e.elts| {
      AcceptedNeverTooDeep(py, e.elts[i], d + 1, tr);
      var r := Eval(py, e.elts[i], d + 1, tr);
      if r.Done? {
        ElementsNeverTooDeep(py, e, i + 1, acc + [r.value], d, r.trace);
      }
    }
  }

  lemma {:induction false} ItemsNeverTooDeep(py: Python, e: Expr, i: nat, acc: seq<(Value, Value)>, d: nat, tr: seq<Event>)
    requires e.Dict? && i <= |e.items| && Accepts(e, d + 1)
    ensures NotTooDeep(EvalItems(py, e, i, acc, d, tr))
    decreases e, 0, |e.items| - i
  {
    if i < |e.items| {
      AcceptedNeverTooDeep(py, e.items[i].value, d + 1, tr);
      if e.items[i].key.Some? {
        AcceptedNeverTooDeep(py, e.items[i].key.value, d + 1, tr);
        var k := Eval(py, e.items[i].key.value, d + 1, tr);
        if k.Done? {
          AcceptedNeverTooDeep(py, e.items[i].value, d + 1, k.trace);
          var v := Eval(py, e.items[i].value, d + 1, k.trace);
          if v.Done? {
            ItemsNeverTooDeep(py, e, i + 1, acc + [(k.value, v.value)], d, v.trace);
          }
        }
      }
    }
  }

  /** An expression the validator lets through never trips the evaluator's own depth guard. */
  lemma {:induction false} GuardNeverFires(py: Python, body: Expr)
    requires Validated(body)
    ensures NotTooDeep(Eval(py, body, 0, []))
  {
    AcceptedNeverTooDeep(py, body, 0, []);
  }

  // ---------------------------------------------------------------------
  // Python's reading
  // ---------------------------------------------------------------------

  /** Reference semantics: `and` and `or` return the deciding operand. */
  function PyEval(py: Python, e: Expr, tr: seq<Event>): Run
    decreases e, 1, 0
  {
    match e
    case Constant(value) => Done(tr, value)
    case Name(id) => if id in py.env then Done(tr + [Read(id)], py.env[id]) else Fail(tr, UnknownVariable)
    case BinOp(arith, left, right) =>
      if arith == OtherArith then Fail(tr, Unsupported)
      else
        var l := PyEval(py, left, tr);
        if l.Fail? then l else ApplyArith(py, arith, l.value, PyEval(py, right, l.trace))
    case UnaryOp(unary, operand) =>
      if unary == OtherUnary then Fail(tr, Unsupported) else ApplyUnary(py, unary, PyEval(py, operand, tr))
    case Compare(first, rest) =>
      var l := PyEval(py, first, tr);
      if l.Fail? then l
      else if rest == [] then Done(l.trace, Bool(true))
      else PyChain(py, e, 0, l.value, l.trace)
    case BoolOp(isAnd, operands) => if operands == [] then Done(tr, Bool(isAnd)) else PyBool(py, e, 0, tr)
    case IfExp(test, body, orelse) =>
      var t := PyEval(py, test, tr);
      if t.Fail? then t else if py.truth(t.value) then PyEval(py, body, t.trace) else PyEval(py, orelse, t.trace)
    case Elements(_, _) => PyElements(py, e, 0, [], tr)
    case Dict(_) => PyItems(py, e, 0, [], tr)
    case _ => Fail(tr, Unsupported)
  }

  /** `a < b < c` is `(a < b) and (b < c)` with `b` evaluated once. */
  function PyChain(py: Python, e: Expr, i: nat, left: Value, tr: seq<Event>): Run
    requires e.Compare? && i < |e.rest|
    decreases e, 0, |e.rest| - i
  {
    var r := PyEval(py, e.rest[i].comparator, tr);
    if r.Fail? then r
    else
      var holds := py.compare(e.rest[i].cmp, left, r.value);
      var seen := r.trace + [Compared(e.rest[i].cmp, left, r.value)];
      if holds.None? then Fail(seen, Raised)
      else if i + 1 == |e.rest| || !holds.value then Done(seen, Bool(holds.value))
      else PyChain(py, e, i + 1, r.value, seen)
  }

  function PyBool(py: Python, e: Expr, i: nat, tr: seq<Event>): Run
    requires e.BoolOp? && i < |e.operands|
    decreases e, 0, |e.operands| - i
  {
    var r := PyEval(py, e.operands[i], tr);
    if r.Fail? || i + 1 == |e.operands| || py.truth(r.value) != e.isAnd then r
    else PyBool(py, e, i + 1, r.trace)
  }

  function PyElements(py: Python, e: Expr, i: nat, acc: seq<Value>, tr: seq<Event>): Run
    requires e.Elements? && i <= |e.elts|
    decreases e, 0, |e.elts| - i
  {
    if i == |e.elts| then Finish(tr + [Built(e.container, acc)], py.build(e.container, acc))
    else
      var r := PyEval(py, e.elts[i], tr);
      if r.Fail? then r else PyElements(py, e, i + 1, acc + [r.value], r.trace)
  }

  function PyItems(py: Python, e: Expr, i: nat, acc: seq<(Value, Value)>, tr: seq<Event>): Run
    requires e.Dict? && i <= |e.items|
    decreases e, 0, |e.items| - i
  {
    if i == |e.items| then Finish(tr + [BuiltDict(acc)], py.buildDict(acc))
    else if e.items[i].key.None? then Fail(tr, Unsupported)
    else
      var k := PyEval(py, e.items[i].key.value, tr);
      if k.Fail? then k
      else
        var v := PyEval(py, e.items[i].value, k.trace);
        if v.Fail? then v else PyItems(py, e, i + 1, acc + [(k.value, v.value)], v.trace)
  }

  /** A comparison, a negation, a boolean constant, or an `and`, `or` or conditional of such. */
  predicate IsBoolean(e: Expr)
    decreases e
  {
    match e
    case Constant(value) => value.Bool?
    case UnaryOp(unary, _) => unary == Not
    case Compare(_, _) => true
    case BoolOp(_, operands) => forall i :: 0 <= i < |operands| ==> IsBoolean(operands[i])
    case IfExp(_, body, orelse) => IsBoolean(body) && IsBoolean(orelse)
    case _ => false
  }

  predicate GivesBoolean(r: Run) {
    r.Done? ==> r.value.Bool?
  }

  lemma {:induction false} ChainGivesBoolean(py: Python, e: Expr, i: nat, left: Value, tr: seq<Event>)
    requires e.Compare? && i < |e.rest|
    ensures GivesBoolean(PyChain(py, e, i, left, tr))
    decreases |e.rest| - i
  {
    var r := PyEval(py, e.rest[i].comparator, tr);
    if r.Done? && i + 1 < |e.rest| {
      ChainGivesBoolean(py, e, i + 1, r.value, r.trace + [Compared(e.rest[i].cmp, left, r.value)]);
    }
  }

  /** Such expressions evaluate to booleans in Python. */
  lemma {:induction false} BooleanResult(py: Python, e: Expr, tr: seq<Event>)
    requires IsBoolean(e)
    ensures GivesBoolean(PyEval(py, e, tr))
    decreases e, 1, 0
  {
    match e
    case Compare(first, rest) =>
      var l := PyEval(py, first, tr);
      if l.Done? && rest != [] {
        ChainGivesBoolean(py, e, 0, l.value, l.trace);
      }
    case BoolOp(_, operands) =>
      if operands != [] {
        BoolGivesBoolean(py, e, 0, tr);
      }
    case IfExp(test, body, orelse) =>
      BooleanResult(py, body, PyEval(py, test, tr).trace);
      BooleanResult(py, orelse, PyEval(py, test, tr).trace);
    case _ =>
  }

  lemma {:induction false} BoolGivesBoolean(py: Python, e: Expr, i: nat, tr: seq<Event>)
    requires e.BoolOp? && i < |e.operands| && IsBoolean(e)
    ensures GivesBoolean(PyBool(py, e, i, tr))
    decreases e, 0, |e.operands| - i
  {
    BooleanResult(py, e.operands[i], tr);
    if i + 1 < |e.operands| {
      BoolGivesBoolean(py, e, i + 1, PyEval(py, e.operands[i], tr).trace);
    }
  }

  /**
   `and` and `or` occur only where a truth value is wanted (at the top, under `not`, as a
   test, as an operand of `and`/`or`, or as a branch of a conditional that is itself there)
   or over operands that are booleans anyway.
   */
  predicate BoolsInConditions(e: Expr, condition: bool)
    decreases e
  {
    match e
    case BinOp(_, left, right) => BoolsInConditions(left, false) && BoolsInConditions(right, false)
    case UnaryOp(unary, operand) => BoolsInConditions(operand, unary == Not)
    case Compare(first, rest) =>
      BoolsInConditions(first, false) && forall i :: 0 <= i < |rest| ==> BoolsInConditions(rest[i].comparator, false)
    case BoolOp(_, operands) =>
      && (condition || IsBoolean(e))
      && forall i :: 0 <= i < |operands| ==> BoolsInConditions(operands[i], true)
    case IfExp(test, body, orelse) =>
      BoolsInConditions(test, true) && BoolsInConditions(body, condition) && BoolsInConditions(orelse, condition)
    case Elements(_, elts) => forall i :: 0 <= i < |elts| ==> BoolsInConditions(elts[i], false)
    case Dict(items) =>
      forall i :: 0 <= i < |items| ==>
        (items[i].key.Some? ==> BoolsInConditions(items[i].key.value, false)) && BoolsInConditions(items[i].value, false)
    case _ => true
  }

  /** The same events in the same order, the same failure, the same value; in a condition, the same truth value. */
  predicate Agree(py: Python, condition: bool, r: Run, s: Run) {
    && r.trace == s.trace
    && (r.Fail? <==> s.Fail?)
    && (r.Fail? ==> r.error == s.error)
    && (r.Done? && s.Done? ==> if condition then py.truth(r.value) == py.truth(s.value) else r.value == s.value)
  }

  lemma {:induction false} EvalAgrees(py: Python, e: Expr, d: nat, tr: seq<Event>, condition: bool)
    requires BooleansAreThemselves(py) && Accepts(e, d + 1) && BoolsInConditions(e, condition)
    ensures Agree(py, condition, Eval(py, e, d, tr), PyEval(py, e, tr))
    decreases e, 1, 0
  {
    match e
    case BinOp(arith, left, right) =>
      EvalAgrees(py, left, d + 1, tr, false);
      EvalAgrees(py, right, d + 1, PyEval(py, left, tr).trace, false);
    case UnaryOp(unary, operand) =>
      EvalAgrees(py, operand, d + 1, tr, unary == Not);
    case Compare(first, rest) =>
      EvalAgrees(py, first, d + 1, tr, false);
      var l := PyEval(py, first, tr);
      if l.Done? && rest != [] {
        ChainAgrees(py, e, 0, l.value, d, l.trace);
      }
    case BoolOp(_, operands) =>
      if operands != [] {
        BoolAgrees(py, e, 0, d, tr);
        if !condition {
          BoolGivesBoolean(py, e, 0, tr);
        }
      }
    case IfExp(test, body, orelse) =>
      EvalAgrees(py, test, d + 1, tr, true);
      EvalAgrees(py, body, d + 1, PyEval(py, test, tr).trace, condition);
      EvalAgrees(py, orelse, d + 1, PyEval(py, test, tr).trace, condition);
    case Elements(_, _) =>
      ElementsAgree(py, e, 0, [], d, tr);
    case Dict(_) =>
      ItemsAgree(py, e, 0, [], d, tr);
    case _ =>
  }

  lemma {:induction false} ChainAgrees(py: Python, e: Expr, i: nat, left: Value, d: nat, tr: seq<Event>)
    requires BooleansAreThemselves(py) && e.Compare? && i < |e.rest| && Accepts(e, d + 1)
    requires forall k :: 0 <= k < |e.rest| ==> BoolsInConditions(e.rest[k].comparator, false)
    ensures EvalChain(py, e, i, left, d, tr) == PyChain(py, e, i, left, tr)
    decreases e, 0, |e.rest| - i
  {
    EvalAgrees(py, e.rest[i].comparator, d + 1, tr, false);
    var r := PyEval(py, e.rest[i].comparator, tr);
    if r.Done? && i + 1 < |e.rest| {
      ChainAgrees(py, e, i + 1, r.value, d, r.trace + [Compared(e.rest[i].cmp, left, r.value)]);
    }
  }

  /** The interpreter returns the truth value of the operand Python would return. */
  lemma {:induction false} BoolAgrees(py: Python, e: Expr, i: nat, d: nat, tr: seq<Event>)
    requires BooleansAreThemselves(py) && e.BoolOp? && i < |e.operands| && Accepts(e, d + 1)
    requires forall k :: 0 <= k < |e.operands| ==> BoolsInConditions(e.operands[k], true)
    ensures var r, s := EvalBool(py, e, i, d, tr), PyBool(py, e, i, tr);
            Agree(py, true, r, s) && (s.Done? ==> r.value == Bool(py.truth(s.value)))
    decreases e, 0, |e.operands| - i
  {
    EvalAgrees(py, e.operands[i], d + 1, tr, true);
    var r := PyEval(py, e.operands[i], tr);
    if i + 1 < |e.operands| {
      BoolAgrees(py, e, i + 1, d, r.trace);
    }
  }

  lemma {:induction false} ElementsAgree(py: Python, e: Expr, i: nat, acc: seq<Value>, d: nat, tr: seq<Event>)
    requires BooleansAreThemselves(py) && e.Elements? && i <= |e.elts| && Accepts(e, d + 1)
    requires BoolsInConditions(e, false)
    ensures EvalElements(py, e, i, acc, d, tr) == PyElements(py, e, i, acc, tr)
    decreases e, 0, |e.elts| - i
  {
    if i < |e.elts| {
      EvalAgrees(py, e.elts[i], d + 1, tr, false);
      var r := PyEval(py, e.elts[i], tr);
      if r.Done? {
        ElementsAgree(py, e, i + 1, acc + [r.value], d, r.trace);
      }
    }
  }

  lemma {:induction false} ItemsAgree(py: Python, e: Expr, i: nat, acc: seq<(Value, Value)>, d: nat, tr: seq<Event>)
    requires BooleansAreThemselves(py) && e.Dict? && i <= |e.items| && Accepts(e, d + 1)
    requires BoolsInConditions(e, false)
    ensures EvalItems(py, e, i, acc, d, tr) == PyItems(py, e, i, acc, tr)
    decreases e, 0, |e.items| - i
  {
    if i < |e.items| && e.items[i].key.Some? {
      EvalAgrees(py, e.items[i].key.value, d + 1, tr, false);
      var k := PyEval(py, e.items[i].key.value, tr);
      if k.Done? {
        EvalAgrees(py, e.items[i].value, d + 1, k.trace, false);
        var v := PyEval(py, e.items[i].value, k.trace);
        if v.Done? {
          ItemsAgree(py, e, i + 1, acc + [(k.value, v.value)], d, v.trace);
        }
      }
    } else if i < |e.items| {
      assert Accepts(e.items[i].value, d + 2);
    }
  }

  /** A validated condition decides as Python would, with the same short-circuiting and the same failures. */
  lemma {:induction false} ConditionsDecideAsPython(py: Python, body: Expr)
    requires BooleansAreThemselves(py) && Validated(body) && BoolsInConditions(body, true)
    ensures Agree(py, true, Eval(py, body, 0, []), PyEval(py, body, []))
  {
    EvalAgrees(py, body, 0, [], true);
  }

  /** Where its value is used, an `and`/`or` agrees with Python exactly when Python's operand is the boolean itself. */
  lemma {:induction false} BoolValueAgreesIffBoolean(py: Python, e: Expr, d: nat, tr: seq<Event>)
    requires BooleansAreThemselves(py) && e.BoolOp? && e.operands != [] && Accepts(e, d + 1) && BoolsInConditions(e, true)
    requires PyEval(py, e, tr).Done?
    ensures Eval(py, e, d, tr) == PyEval(py, e, tr) <==> PyEval(py, e, tr).value.Bool?
  {
    BoolAgrees(py, e, 0, d, tr);
  }

  /** Used as a value, an `and`/`or` of boolean operands is exactly Python's. */
  lemma {:induction false} BooleanOperandsAgree(py: Python, e: Expr, d: nat, tr: seq<Event>)
    requires BooleansAreThemselves(py) && e.BoolOp? && Accepts(e, d + 1) && IsBoolean(e) && BoolsInConditions(e, false)
    ensures Eval(py, e, d, tr) == PyEval(py, e, tr)
  {
    EvalAgrees(py, e, d, tr, false);
  }
}
