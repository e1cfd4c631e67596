/** Local value numbering over a small expression language: constants,
    variables with values in a global variable map, and binary operations.
    Expressions render to text, evaluate to 32-bit integers, and a table
    keyed by a canonical rendering hands out one node per distinct binary
    operation, treating `+` and `*` as commutative. */
module ValueNumbering {
  import opened Wrappers
  import Decimal

  const INT_MIN: int := -0x8000_0000
  const INT_MAX: int := 0x7fff_ffff

  /** The values a C++ `int` holds. */
  type Int32 = x: int | INT_MIN <= x <= INT_MAX

  /** An expression tree; the C++ nodes are immutable once built, so a tree
      value stands for the shared node. */
  datatype Expr =
    | Constant(value: Int32)
    | Variable(name: string)
    | BinaryOperation(left: Expr, right: Expr, op: string)

  /** `toString`: a constant in decimal, a variable by its name, and a
      binary operation fully parenthesised. */
  function ToString(e: Expr): string
  {
    match e
    case Constant(v) => Decimal.IntToString(v)
    case Variable(n) => n
    case BinaryOperation(l, r, op) => "(" + ToString(l) + " " + op + " " + ToString(r) + ")"
  }

  // ---------------------------------------------------------------------
  // Evaluation

  /** `runtime_error` for an unset variable, `invalid_argument` for an
      unknown operator, and the cases C++ leaves undefined: a result outside
      the `int` range and division by zero. */
  datatype EvalError = UnsetVariable | InvalidOperation | Undefined

  predicate IsArithmetic(op: string)
  {
    op == "+" || op == "-" || op == "*" || op == "/"
  }

  function Abs(x: int): nat
  {
    if x < 0 then -x else x
  }

  /** C++ integer division: the quotient is truncated toward zero. */
  function TruncDiv(a: int, b: int): int
    requires b != 0
  {
    var q := Abs(a) / Abs(b);
    if (a < 0) == (b < 0) then q else -q
  }

  /** The arithmetic of one operator on two `int` values. */
  function Apply(op: string, a: Int32, b: Int32): (r: Result<Int32, EvalError>)
    requires IsArithmetic(op)
    ensures r.Failure? ==> r.error == Undefined
    ensures op == "/" && b == 0 ==> r.Failure?
  {
    var exact :=
      if op == "+" then a + b
      else if op == "-" then a - b
      else if op == "*" then a * b
      else if b == 0 then INT_MAX + 1
      else TruncDiv(a, b);
    if INT_MIN <= exact <= INT_MAX then Success(exact) else Failure(Undefined)
  }

  /** `evaluate`. An unknown operator fails before its operands are looked
      at; C++ leaves the order of the two operand evaluations unspecified
      and the model takes the left one first. */
  function Evaluate(e: Expr, vars: map<string, Int32>): Result<Int32, EvalError>
  {
    match e
    case Constant(v) => Success(v)
    case Variable(n) => if n in vars then Success(vars[n]) else Failure(UnsetVariable)
    case BinaryOperation(l, r, op) =>
      if !IsArithmetic(op) then Failure(InvalidOperation)
      else
        var a := Evaluate(l, vars);
        if a.Failure? then Failure(a.error)
        else
          var b := Evaluate(r, vars);
          if b.Failure? then Failure(b.error)
          else Apply(op, a.value, b.value)
  }

  /** Two evaluations agree on whether they succeed and on the value. */
  predicate SameOutcome(x: Result<Int32, EvalError>, y: Result<Int32, EvalError>)
  {
    x.Success? == y.Success? && (x.Success? ==> x.value == y.value)
  }

  /** The quotient of `TruncDiv` leaves a remainder smaller than the divisor
      that has the sign of the dividend. */
  lemma TruncDivRemainder(a: int, b: int)
    requires b != 0
    ensures var rem := a - TruncDiv(a, b) * b;
            Abs(rem) < Abs(b) && (rem == 0 || (rem < 0) == (a < 0))
  {
    var q, m := Abs(a) / Abs(b), Abs(a) % Abs(b);
    var qb := q * Abs(b);
    assert Abs(a) == qb + m && m < Abs(b);
    var rem := a - TruncDiv(a, b) * b;
    if b > 0 {
      assert TruncDiv(a, b) * b == (if a < 0 then -qb else qb);
    } else {
      assert q * b == -qb;
      assert TruncDiv(a, b) * b == (if a < 0 then -qb else qb);
    }
    assert rem == (if a < 0 then -m else m);
  }

  /** A constant evaluates to its value and renders as text that parses back
      to it. */
  lemma ConstantRoundTrip(v: Int32, vars: map<string, Int32>)
    ensures Evaluate(Constant(v), vars) == Success(v)
    ensures Decimal.ParseInt(ToString(Constant(v))) == v
  {
    Decimal.ParseIntToString(v);
  }

  /** A variable evaluates to the value of the last `setVariableValue` of its
      name, and fails while its name was never set. */
  lemma VariableReadsLatest(vars: map<string, Int32>, n: string, m: string, v: Int32)
    ensures n !in vars ==> Evaluate(Variable(n), vars) == Failure(UnsetVariable)
    ensures Evaluate(Variable(n), vars[n := v]) == Success(v)
    ensures m != n ==> Evaluate(Variable(m), vars[n := v]) == Evaluate(Variable(m), vars)
  {
  }

  /** `+` and `*` give the same outcome with their operands exchanged. */
  lemma EvaluateCommutes(l: Expr, r: Expr, op: string, vars: map<string, Int32>)
    requires op == "+" || op == "*"
    ensures SameOutcome(Evaluate(BinaryOperation(l, r, op), vars), Evaluate(BinaryOperation(r, l, op), vars))
  {
    var a, b := Evaluate(l, vars), Evaluate(r, vars);
    if a.Success? && b.Success? {
      var x: int, y: int := a.value, b.value;
      assert x * y == y * x;
    }
  }

  // ---------------------------------------------------------------------
  // Unique readability of the rendering

  predicate IsLetter(c: char)
  {
    ('a' <= c <= 'z') || ('A' <= c <= 'Z') || c == '_'
  }

  /** A C++-style identifier: a letter or underscore, then letters, digits
      and underscores. */
  predicate ValidName(n: string)
  {
    |n| > 0 && IsLetter(n[0]) &&
    forall i :: 0 <= i < |n| ==> IsLetter(n[i]) || Decimal.IsDigit(n[i])
  }

  /** The characters at which a token of the rendering ends. */
  predicate IsDelim(c: char)
  {
    c == ' ' || c == ')'
  }

  predicate NoDelims(s: string)
  {
    forall i :: 0 <= i < |s| ==> !IsDelim(s[i])
  }

  /** An operator may be any text without spaces or closing parentheses. */
  predicate ValidOp(op: string)
  {
    NoDelims(op)
  }

  /** Expressions whose variable names are identifiers and whose operators
      are single tokens. */
  predicate WellFormed(e: Expr)
  {
    match e
    case Constant(_) => true
    case Variable(n) => ValidName(n)
    case BinaryOperation(l, r, op) => WellFormed(l) && WellFormed(r) && ValidOp(op)
  }

  /** What may follow a rendered expression inside a larger rendering. */
  predicate AtBoundary(s: string)
  {
    s == [] || IsDelim(s[0])
  }

  /** The index of the first delimiter, or the length. */
  function TokenEnd(s: string): (k: nat)
    ensures k <= |s|
  {
    if s == [] || IsDelim(s[0]) then 0 else 1 + TokenEnd(s[1..])
  }

  lemma {:induction false} TokenEndAt(a: string, s: string)
    requires NoDelims(a) && AtBoundary(s)
    ensures TokenEnd(a + s) == |a|
  {
    if a == [] {
      assert a + s == s;
    } else {
      assert (a + s)[1..] == a[1..] + s;
      TokenEndAt(a[1..], s);
    }
  }

  /** A token followed by a boundary is determined by the text. */
  lemma TokenPrefix(a: string, b: string, s1: string, s2: string)
    requires NoDelims(a) && NoDelims(b) && AtBoundary(s1) && AtBoundary(s2)
    requires a + s1 == b + s2
    ensures a == b && s1 == s2
  {
    TokenEndAt(a, s1);
    TokenEndAt(b, s2);
    assert a == (a + s1)[..|a|] && b == (b + s2)[..|b|];
    assert s1 == (a + s1)[|a|..] && s2 == (b + s2)[|b|..];
  }

  /** Which kind of expression a rendering starts with. */
  function Kind(e: Expr): nat
  {
    match e
    case Constant(_) => 0
    case Variable(_) => 1
    case BinaryOperation(_, _, _) => 2
  }

  function CharKind(c: char): nat
  {
    if c == '(' then 2 else if IsLetter(c) then 1 else 0
  }

  lemma LeadingKind(e: Expr)
    requires WellFormed(e)
    ensures |ToString(e)| > 0 && CharKind(ToString(e)[0]) == Kind(e)
    ensures NoDelims(ToString(e)) || e.BinaryOperation?
  {
    if e.Constant? {
      var s := Decimal.IntToString(e.value);
      assert forall i :: 0 <= i < |s| ==> s[i] == '-' || Decimal.IsDigit(s[i]);
    }
  }

  lemma Cancel(p: string, a: string, b: string)
    requires p + a == p + b
    ensures a == b
  {
    assert a == (p + a)[|p|..] && b == (p + b)[|p|..];
  }

  /** The rendering of a binary operation, bracketed to the right. */
  lemma BinaryText(e: Expr, s: string)
    requires e.BinaryOperation?
    ensures ToString(e) + s ==
            "(" + (ToString(e.left) + (" " + (e.op + (" " + (ToString(e.right) + (")" + s))))))
  {
  }

  /** Renderings followed by boundaries that agree start with the same kind
      of expression. */
  lemma SameKind(e1: Expr, e2: Expr, s1: string, s2: string)
    requires WellFormed(e1) && WellFormed(e2)
    requires ToString(e1) + s1 == ToString(e2) + s2
    ensures Kind(e1) == Kind(e2)
  {
    LeadingKind(e1);
    LeadingKind(e2);
    assert (ToString(e1) + s1)[0] == ToString(e1)[0];
    assert (ToString(e2) + s2)[0] == ToString(e2)[0];
  }

  /** The rendering of a well-formed expression, followed by a boundary, is
      uniquely readable: the text determines the expression and what
      follows it. */
  lemma {:induction false} Unambiguous(e1: Expr, e2: Expr, s1: string, s2: string)
    requires WellFormed(e1) && WellFormed(e2) && AtBoundary(s1) && AtBoundary(s2)
    requires ToString(e1) + s1 == ToString(e2) + s2
    ensures e1 == e2 && s1 == s2
    decreases e1
  {
    SameKind(e1, e2, s1, s2);
    match e1
    case Constant(v1) =>
      LeadingKind(e1);
      LeadingKind(e2);
      TokenPrefix(ToString(e1), ToString(e2), s1, s2);
      Decimal.IntToStringInjective(v1, e2.value);
    case Variable(n1) =>
      TokenPrefix(n1, e2.name, s1, s2);
    case BinaryOperation(l1, r1, op1) =>
      var l2, r2, op2 := e2.left, e2.right, e2.op;
      var w1, w2 := ")" + s1, ")" + s2;
      var v1, v2 := " " + (ToString(r1) + w1), " " + (ToString(r2) + w2);
      var t1, t2 := " " + (op1 + v1), " " + (op2 + v2);
      BinaryText(e1, s1);
      BinaryText(e2, s2);
      Cancel("(", ToString(l1) + t1, ToString(l2) + t2);
      Unambiguous(l1, l2, t1, t2);
      Cancel(" ", op1 + v1, op2 + v2);
      TokenPrefix(op1, op2, v1, v2);
      Cancel(" ", ToString(r1) + w1, ToString(r2) + w2);
      Unambiguous(r1, r2, w1, w2);
      Cancel(")", s1, s2);
  }

  /** Distinct well-formed expressions render differently. */
  lemma ToStringInjective(e1: Expr, e2: Expr)
    requires WellFormed(e1) && WellFormed(e2) && ToString(e1) == ToString(e2)
    ensures e1 == e2
  {
    assert ToString(e1) + "" == ToString(e2) + "";
    Unambiguous(e1, e2, "", "");
  }

  // ---------------------------------------------------------------------
  // Canonical keys

  /** `std::string` comparison: lexicographic by character code. */
  predicate LexLess(a: string, b: string)
  {
    if a == [] then b != []
    else if b == [] then false
    else if a[0] != b[0] then a[0] < b[0]
    else LexLess(a[1..], b[1..])
  }

  /** Of two different strings exactly one is the smaller. */
  lemma {:induction false} LexTotal(a: string, b: string)
    ensures !(LexLess(a, b) && LexLess(b, a))
    ensures a != b ==> LexLess(a, b) || LexLess(b, a)
  {
    if a != [] && b != [] && a[0] == b[0] {
      LexTotal(a[1..], b[1..]);
      assert a == [a[0]] + a[1..] && b == [b[0]] + b[1..];
    }
  }

  predicate Commutative(op: string)
  {
    op == "+" || op == "*"
  }

  /** The operands in key order: for `+` and `*` swapped when the right one
      renders lexicographically smaller, otherwise as given. */
  function KeyOperands(l: Expr, r: Expr, op: string): (Expr, Expr)
  {
    if Commutative(op) && LexLess(ToString(r), ToString(l)) then (r, l) else (l, r)
  }

  /** `createVNKey`. */
  function Key(l: Expr, r: Expr, op: string): string
  {
    var (x, y) := KeyOperands(l, r, op);
    ToString(x) + " " + op + " " + ToString(y)
  }

  /** The key of a commutative operation ignores the operand order. */
  lemma KeyCommutes(l: Expr, r: Expr, op: string)
    requires Commutative(op)
    ensures Key(l, r, op) == Key(r, l, op)
  {
    LexTotal(ToString(l), ToString(r));
  }

  /** Equal keys of well-formed operations name the same operator and the
      same operands in key order. */
  lemma KeyInjective(l1: Expr, r1: Expr, op1: string, l2: Expr, r2: Expr, op2: string)
    requires WellFormed(l1) && WellFormed(r1) && ValidOp(op1)
    requires WellFormed(l2) && WellFormed(r2) && ValidOp(op2)
    requires Key(l1, r1, op1) == Key(l2, r2, op2)
    ensures op1 == op2 && KeyOperands(l1, r1, op1) == KeyOperands(l2, r2, op2)
  {
    var p1, p2 := KeyOperands(l1, r1, op1), KeyOperands(l2, r2, op2);
    KeyText(l1, r1, op1);
    KeyText(l2, r2, op2);
    OperationTextInjective(p1.0, p1.1, op1, p2.0, p2.1, op2);
  }

  lemma KeyText(l: Expr, r: Expr, op: string)
    ensures var p := KeyOperands(l, r, op);
            Key(l, r, op) == ToString(p.0) + (" " + (op + (" " + ToString(p.1))))
  {
  }

  /** The text `x op y` of well-formed parts determines the parts. */
  lemma OperationTextInjective(x1: Expr, y1: Expr, op1: string, x2: Expr, y2: Expr, op2: string)
    requires WellFormed(x1) && WellFormed(y1) && ValidOp(op1)
    requires WellFormed(x2) && WellFormed(y2) && ValidOp(op2)
    requires ToString(x1) + (" " + (op1 + (" " + ToString(y1)))) ==
             ToString(x2) + (" " + (op2 + (" " + ToString(y2))))
    ensures x1 == x2 && y1 == y2 && op1 == op2
  {
    var t1, t2 := " " + (op1 + (" " + ToString(y1))), " " + (op2 + (" " + ToString(y2)));
    assert AtBoundary(t1) && AtBoundary(t2);
    Unambiguous(x1, x2, t1, t2);
    OperatorTextInjective(y1, op1, y2, op2);
  }

  /** The text ` op y` of a well-formed operand determines the operator
      and the operand. */
  lemma OperatorTextInjective(y1: Expr, op1: string, y2: Expr, op2: string)
    requires WellFormed(y1) && ValidOp(op1) && WellFormed(y2) && ValidOp(op2)
    requires " " + (op1 + (" " + ToString(y1))) == " " + (op2 + (" " + ToString(y2)))
    ensures y1 == y2 && op1 == op2
  {
    var v1, v2 := " " + ToString(y1), " " + ToString(y2);
    Cancel(" ", op1 + v1, op2 + v2);
    assert AtBoundary(v1) && AtBoundary(v2);
    TokenPrefix(op1, op2, v1, v2);
    Cancel(" ", ToString(y1), ToString(y2));
    ToStringInjective(y1, y2);
  }

  /** Operations with different operators never share a key. */
  lemma DistinctOperatorKeys(l1: Expr, r1: Expr, op1: string, l2: Expr, r2: Expr, op2: string)
    requires WellFormed(l1) && WellFormed(r1) && ValidOp(op1)
    requires WellFormed(l2) && WellFormed(r2) && ValidOp(op2)
    requires op1 != op2
    ensures Key(l1, r1, op1) != Key(l2, r2, op2)
  {
    if Key(l1, r1, op1) == Key(l2, r2, op2) {
      KeyInjective(l1, r1, op1, l2, r2, op2);
    }
  }

  /** A non-commutative operation's key tells its operands apart. */
  lemma KeyKeepsOrder(l: Expr, r: Expr, op: string)
    requires WellFormed(l) && WellFormed(r) && ValidOp(op) && !Commutative(op)
    requires l != r
    ensures Key(l, r, op) != Key(r, l, op)
  {
    if Key(l, r, op) == Key(r, l, op) {
      KeyInjective(l, r, op, r, l, op);
    }
  }

  /** Two operations with equal keys evaluate alike, wherever the key was
      made from: this is what makes handing out the cached node sound. */
  lemma EqualKeysEvaluateAlike(l1: Expr, r1: Expr, l2: Expr, r2: Expr, op: string, vars: map<string, Int32>)
    requires WellFormed(l1) && WellFormed(r1) && WellFormed(l2) && WellFormed(r2) && ValidOp(op)
    requires Key(l1, r1, op) == Key(l2, r2, op)
    ensures SameOutcome(Evaluate(BinaryOperation(l1, r1, op), vars), Evaluate(BinaryOperation(l2, r2, op), vars))
  {
    KeyInjective(l1, r1, op, l2, r2, op);
    if (l1, r1) != (l2, r2) {
      assert Commutative(op) && l1 == r2 && r1 == l2;
      EvaluateCommutes(l1, r1, op, vars);
    }
  }

  // ---------------------------------------------------------------------
  // The two global maps

  /** `Variable::variableMap`. */
  class VariableStore {
    var values: map<string, Int32>

    constructor ()
      ensures values == map[]
    {
      values := map[];
    }

    /** `setVariableValue`: insert or overwrite one binding. */
    method SetVariableValue(name: string, value: Int32)
      modifies this
      ensures values == old(values)[name := value]
    {
      values := values[name := value];
    }
  }

  /** Every cached node is the binary operation its key was made from. */
  ghost predicate KeysMatch(table: map<string, Expr>)
  {
    forall k :: k in table ==>
      table[k].BinaryOperation? && Key(table[k].left, table[k].right, table[k].op) == k
  }

  ghost predicate AllWellFormed(table: map<string, Expr>)
  {
    forall k :: k in table ==> WellFormed(table[k])
  }

  /** The node cached under the key of `l op r` evaluates like `l op r`. */
  lemma CachedNodeSound(table: map<string, Expr>, l: Expr, r: Expr, op: string, vars: map<string, Int32>)
    requires KeysMatch(table) && AllWellFormed(table)
    requires WellFormed(l) && WellFormed(r) && ValidOp(op)
    requires Key(l, r, op) in table
    ensures SameOutcome(Evaluate(table[Key(l, r, op)], vars), Evaluate(BinaryOperation(l, r, op), vars))
  {
    var node := table[Key(l, r, op)];
    assert WellFormed(node);
    KeyInjective(node.left, node.right, node.op, l, r, op);
    EqualKeysEvaluateAlike(node.left, node.right, l, r, op, vars);
  }

  /** `valueNumberMap` together with `processBinaryOperation`. */
  class ValueNumberTable {
    var table: map<string, Expr>

    ghost predicate Valid()
      reads this
    {
      KeysMatch(table)
    }

    constructor ()
      ensures Valid() && table == map[]
    {
      table := map[];
    }

    /** A key hit returns the cached node and leaves the table alone; a miss
        creates the node, stores it under the key and returns it. */
    method ProcessBinaryOperation(l: Expr, r: Expr, op: string) returns (node: Expr)
      requires Valid()
      modifies this
      ensures Valid()
      ensures Key(l, r, op) in old(table) ==> node == old(table)[Key(l, r, op)] && table == old(table)
      ensures Key(l, r, op) !in old(table) ==>
                node == BinaryOperation(l, r, op) && table == old(table)[Key(l, r, op) := node]
      ensures old(AllWellFormed(table)) && WellFormed(l) && WellFormed(r) && ValidOp(op) ==>
                AllWellFormed(table) &&
                forall vars :: SameOutcome(Evaluate(node, vars), Evaluate(BinaryOperation(l, r, op), vars))
    {
      var key := Key(l, r, op);
      if key in table {
        node := table[key];
        if AllWellFormed(table) && WellFormed(l) && WellFormed(r) && ValidOp(op) {
          forall vars: map<string, Int32>
            ensures SameOutcome(Evaluate(node, vars), Evaluate(BinaryOperation(l, r, op), vars))
          {
            CachedNodeSound(table, l, r, op, vars);
          }
        }
        return;
      }
      node := BinaryOperation(l, r, op);
      table := table[key := node];
    }
  }

  /** The demonstration in the source: `a` is 5, `b = a + 10` is numbered
      once, and `b * 2` asked for twice, and once as `2 * b`, gives the one
      node, which evaluates to 30. */
  method Demonstration() returns (b: Expr, d: Expr, e: Expr, f: Expr)
    ensures Evaluate(b, map["a" := 5]) == Success(15)
    ensures d == e == f == BinaryOperation(b, Constant(2), "*")
    ensures Evaluate(d, map["a" := 5]) == Success(30)
  {
    var store := new VariableStore();
    store.SetVariableValue("a", 5);
    var vars := store.values;
    var numbering := new ValueNumberTable();
    b := numbering.ProcessBinaryOperation(Variable("a"), Constant(10), "+");
    assert b == BinaryOperation(Variable("a"), Constant(10), "+");
    assert Evaluate(Variable("a"), vars) == Success(5);
    assert Evaluate(b, vars) == Apply("+", 5, 10);
    assert WellFormed(b) && ValidOp("*") && ValidOp("+");
    DistinctOperatorKeys(b, Constant(2), "*", Variable("a"), Constant(10), "+");
    d := numbering.ProcessBinaryOperation(b, Constant(2), "*");
    assert d == BinaryOperation(b, Constant(2), "*");
    assert Evaluate(d, vars) == Apply("*", 15, 2);
    e := numbering.ProcessBinaryOperation(b, Constant(2), "*");
    KeyCommutes(Constant(2), b, "*");
    f := numbering.ProcessBinaryOperation(Constant(2), b, "*");
  }
}
