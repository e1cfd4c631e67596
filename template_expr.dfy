/** Expression templates over N x N matrices: `A + B` and `A * B` build
    lazy expression nodes that refer to their operands, and assigning an
    expression to a matrix evaluates it entry by entry. The direct
    `matrix_add` and `matrix_mul` loops compute the same entries eagerly.
    Entries are integers, a ring standing in for the source's `double`. */
module TemplateExpr {

  const N: nat := 3

  class Matrix {
    const data: array2<int>

    predicate Valid()
    {
      data.Length0 == N && data.Length1 == N
    }

    /** The default constructor fills every entry with `T()`, zero. */
    constructor()
      ensures Valid() && fresh(data)
      ensures forall i, j :: 0 <= i < N && 0 <= j < N ==> data[i, j] == 0
    {
      var d := new int[N, N];
      var i := 0;
      while i < N
        invariant 0 <= i <= N
        invariant forall r, c :: 0 <= r < i && 0 <= c < N ==> d[r, c] == 0
      {
        var j := 0;
        while j < N
          invariant 0 <= j <= N
          invariant forall r, c :: 0 <= r < i && 0 <= c < N ==> d[r, c] == 0
          invariant forall c :: 0 <= c < j ==> d[i, c] == 0
        {
          d[i, j] := 0;
          j := j + 1;
        }
        i := i + 1;
      }
      data := d;
    }

    /** The initializer-list constructor copies row `i` of the list into
        row `i`, each row from its first entry; entries the list does not
        reach are left as they are. A longer list or row would write past
        the fixed-size storage. */
    constructor FromRows(init: seq<seq<int>>)
      requires |init| <= N
      requires forall i :: 0 <= i < |init| ==> |init[i]| <= N
      ensures Valid() && fresh(data)
      ensures forall i, j :: 0 <= i < |init| && 0 <= j < |init[i]| ==> data[i, j] == init[i][j]
    {
      var d := new int[N, N];
      var i := 0;
      while i < |init|
        invariant 0 <= i <= |init|
        invariant forall r, c :: 0 <= r < i && 0 <= c < |init[r]| ==> d[r, c] == init[r][c]
      {
        var j := 0;
        while j < |init[i]|
          invariant 0 <= j <= |init[i]|
          invariant forall r, c :: 0 <= r < i && 0 <= c < |init[r]| ==> d[r, c] == init[r][c]
          invariant forall c :: 0 <= c < j ==> d[i, c] == init[i][c]
        {
          d[i, j] := init[i][j];
          j := j + 1;
        }
        i := i + 1;
      }
      data := d;
    }

    /** `operator=` from an expression: entry (i, j) becomes `expr(i, j)`,
        row by row. The expression is read while the matrix is written, so
        only when the matrix is not one of its operands is the result the
        value of the expression before the assignment. */
    method Assign(e: Expr)
      requires Valid() && WellFormed(e)
      modifies data
      ensures data !in Arrays(e) ==>
                forall i, j :: 0 <= i < N && 0 <= j < N ==> data[i, j] == Entry(e, i, j)
    {
      ArraysAllocated(e);
      var i := 0;
      while i < N
        invariant 0 <= i <= N
        invariant data !in Arrays(e) ==>
                    forall r, c :: 0 <= r < i && 0 <= c < N ==> data[r, c] == Entry(e, r, c)
      {
        var j := 0;
        while j < N
          invariant 0 <= j <= N
            invariant data !in Arrays(e) ==>
                      forall r, c :: 0 <= r < i && 0 <= c < N ==> data[r, c] == Entry(e, r, c)
          invariant data !in Arrays(e) ==> forall c :: 0 <= c < j ==> data[i, c] == Entry(e, i, c)
        {
          var v := EvalAt(e, i, j);
          data[i, j] := v;
          j := j + 1;
        }
        i := i + 1;
      }
    }
  }

  /** A lazy expression: a matrix operand, a sum or a product node. */
  datatype Expr =
    | Leaf(m: Matrix)
    | MatrixAdd(lhs: Expr, rhs: Expr)
    | MatrixMul(lhs: Expr, rhs: Expr)

  /** The storage an expression reads. */
  function Arrays(e: Expr): set<array2<int>>
  {
    match e
    case Leaf(m) => {m.data}
    case MatrixAdd(l, r) => Arrays(l) + Arrays(r)
    case MatrixMul(l, r) => Arrays(l) + Arrays(r)
  }

  /** Every array an expression reads is allocated. */
  lemma ArraysAllocated(e: Expr)
    ensures forall a | a in Arrays(e) :: allocated(a)
  {
    match e
    case Leaf(m) =>
    case MatrixAdd(l, r) => ArraysAllocated(l); ArraysAllocated(r);
    case MatrixMul(l, r) => ArraysAllocated(l); ArraysAllocated(r);
  }

  predicate WellFormed(e: Expr)
  {
    match e
    case Leaf(m) => m.Valid()
    case MatrixAdd(l, r) => WellFormed(l) && WellFormed(r)
    case MatrixMul(l, r) => WellFormed(l) && WellFormed(r)
  }

  /** The value of entry (i, j) of an expression: an operand's entry, the
      sum of the operands' entries, or row i of the left operand times
      column j of the right one. */
  ghost function Entry(e: Expr, i: nat, j: nat): int
    requires WellFormed(e) && i < N && j < N
    reads Arrays(e)
    decreases e, N + 1
  {
    match e
    case Leaf(m) => m.data[i, j]
    case MatrixAdd(l, r) => Entry(l, i, j) + Entry(r, i, j)
    case MatrixMul(l, r) => Dot(l, r, i, j, N)
  }

  /** The first `n` terms of row i of `l` times column j of `r`. */
  ghost function Dot(l: Expr, r: Expr, i: nat, j: nat, n: nat): int
    requires WellFormed(l) && WellFormed(r) && i < N && j < N && n <= N
    reads Arrays(l), Arrays(r)
    decreases MatrixMul(l, r), n
  {
    if n == 0 then 0 else Dot(l, r, i, j, n - 1) + Entry(l, i, n - 1) * Entry(r, n - 1, j)
  }

  /** `expr(i, j)`: the element operator of each node; `MatrixMul` sums
      its products in a local accumulator. */
  method EvalAt(e: Expr, i: nat, j: nat) returns (v: int)
    requires WellFormed(e) && i < N && j < N
    ensures v == Entry(e, i, j)
  {
    match e
    case Leaf(m) =>
      v := m.data[i, j];
    case MatrixAdd(l, r) =>
      var a := EvalAt(l, i, j);
      ArraysAllocated(l);
      var b := EvalAt(r, i, j);
      v := a + b;
    case MatrixMul(l, r) =>
      v := 0;
      var k := 0;
      while k < N
        invariant 0 <= k <= N
        invariant v == Dot(l, r, i, j, k)
      {
        ArraysAllocated(l);
        ArraysAllocated(r);
        var a := EvalAt(l, i, k);
        var b := EvalAt(r, k, j);
        v := v + a * b;
        k := k + 1;
      }
  }

  /** `matrix_add(A, B, C)`. Each entry of C depends only on the same entry
      of A and B, so the result holds even when C is A or B. */
  method DirectAdd(a: Matrix, b: Matrix, c: Matrix)
    requires a.Valid() && b.Valid() && c.Valid()
    modifies c.data
    ensures forall i, j :: 0 <= i < N && 0 <= j < N ==>
              c.data[i, j] == old(a.data[i, j]) + old(b.data[i, j])
  {
    var i := 0;
    while i < N
      invariant 0 <= i <= N
      invariant forall r, col :: 0 <= r < i && 0 <= col < N ==>
                  c.data[r, col] == old(a.data[r, col]) + old(b.data[r, col])
      invariant forall r, col :: i <= r < N && 0 <= col < N ==>
                  a.data[r, col] == old(a.data[r, col]) && b.data[r, col] == old(b.data[r, col])
    {
      var j := 0;
      while j < N
        invariant 0 <= j <= N
        invariant forall r, col :: 0 <= r < i && 0 <= col < N ==>
                    c.data[r, col] == old(a.data[r, col]) + old(b.data[r, col])
        invariant forall col :: 0 <= col < j ==> c.data[i, col] == old(a.data[i, col]) + old(b.data[i, col])
        invariant forall r, col :: (i < r < N && 0 <= col < N) || (r == i && j <= col < N) ==>
                    a.data[r, col] == old(a.data[r, col]) && b.data[r, col] == old(b.data[r, col])
      {
        c.data[i, j] := a.data[i, j] + b.data[i, j];
        j := j + 1;
      }
      i := i + 1;
    }
  }

  /** `matrix_mul(A, B, C)`: each entry is zeroed and then accumulates its
      products in place, so the result is the product only when C is
      neither operand. */
  method DirectMul(a: Matrix, b: Matrix, c: Matrix)
    requires a.Valid() && b.Valid() && c.Valid()
    modifies c.data
    ensures c.data != a.data && c.data != b.data ==>
              forall i, j :: 0 <= i < N && 0 <= j < N ==>
                c.data[i, j] == Dot(Leaf(a), Leaf(b), i, j, N)
  {
    var i := 0;
    while i < N
      invariant 0 <= i <= N
      invariant c.data != a.data && c.data != b.data ==>
                  forall r, col :: 0 <= r < i && 0 <= col < N ==>
                    c.data[r, col] == Dot(Leaf(a), Leaf(b), r, col, N)
    {
      var j := 0;
      while j < N
        invariant 0 <= j <= N
        invariant c.data != a.data && c.data != b.data ==>
                    forall r, col :: 0 <= r < i && 0 <= col < N ==>
                      c.data[r, col] == Dot(Leaf(a), Leaf(b), r, col, N)
        invariant c.data != a.data && c.data != b.data ==>
                    forall col :: 0 <= col < j ==>
                      c.data[i, col] == Dot(Leaf(a), Leaf(b), i, col, N)
      {
        ArraysAllocated(Leaf(a));
        ArraysAllocated(Leaf(b));
        DotInto(a, b, c, i, j);
        j := j + 1;
      }
      i := i + 1;
    }
  }

  /** The innermost loop of the direct product: entry `(i, j)` of `c`
      accumulates row `i` of `a` against column `j` of `b`; no other entry
      changes. */
  method DotInto(a: Matrix, b: Matrix, c: Matrix, i: nat, j: nat)
    requires a.Valid() && b.Valid() && c.Valid() && i < N && j < N
    modifies c.data
    ensures c.data != a.data && c.data != b.data ==> c.data[i, j] == Dot(Leaf(a), Leaf(b), i, j, N)
    ensures forall r, col :: 0 <= r < N && 0 <= col < N && (r != i || col != j) ==>
              c.data[r, col] == old(c.data[r, col])
  {
    ArraysAllocated(Leaf(a));
    ArraysAllocated(Leaf(b));
    c.data[i, j] := 0;
    var k := 0;
    while k < N
      invariant 0 <= k <= N
      invariant forall r, col :: 0 <= r < N && 0 <= col < N && (r != i || col != j) ==>
                  c.data[r, col] == old(c.data[r, col])
      invariant c.data != a.data && c.data != b.data ==> c.data[i, j] == Dot(Leaf(a), Leaf(b), i, j, k)
    {
      ArraysAllocated(Leaf(a));
      ArraysAllocated(Leaf(b));
      c.data[i, j] := c.data[i, j] + a.data[i, k] * b.data[k, j];
      k := k + 1;
    }
  }

  /** A product depends on its left operand only through the entries of
      row i. */
  lemma {:induction false} DotLeftCongruence(l1: Expr, l2: Expr, r: Expr, i: nat, j: nat, n: nat)
    requires WellFormed(l1) && WellFormed(l2) && WellFormed(r) && i < N && j < N && n <= N
    requires forall k :: 0 <= k < n ==> Entry(l1, i, k) == Entry(l2, i, k)
    ensures Dot(l1, r, i, j, n) == Dot(l2, r, i, j, n)
  {
    if n > 0 {
      DotLeftCongruence(l1, l2, r, i, j, n - 1);
    }
  }

  predicate IsIdentity(d: Matrix)
    reads d.data
  {
    d.Valid() && forall k, j :: 0 <= k < N && 0 <= j < N ==> d.data[k, j] == if k == j then 1 else 0
  }

  /** Multiplying by the identity on the right gives the left operand:
      the first n terms pick out entry (i, j) once j < n. */
  lemma {:induction false} DotIdentity(l: Expr, d: Matrix, i: nat, j: nat, n: nat)
    requires WellFormed(l) && IsIdentity(d) && i < N && j < N && n <= N
    ensures Dot(l, Leaf(d), i, j, n) == if j < n then Entry(l, i, j) else 0
  {
    if n > 0 {
      DotIdentity(l, d, i, j, n - 1);
    }
  }

  /** `(A + B) * D` as an expression template. */
  function SumTimes(a: Matrix, b: Matrix, d: Matrix): (e: Expr)
    ensures a.Valid() && b.Valid() && d.Valid() ==> WellFormed(e)
    ensures Arrays(e) == {a.data, b.data, d.data}
  {
    assert Arrays(Leaf(a)) == {a.data} && Arrays(Leaf(b)) == {b.data} && Arrays(Leaf(d)) == {d.data};
    MatrixMul(MatrixAdd(Leaf(a), Leaf(b)), Leaf(d))
  }

  predicate HoldsSum(c: Matrix, a: Matrix, b: Matrix)
    requires a.Valid() && b.Valid() && c.Valid()
    reads a.data, b.data, c.data
  {
    forall r, col :: 0 <= r < N && 0 <= col < N ==> c.data[r, col] == a.data[r, col] + b.data[r, col]
  }

  ghost predicate HoldsProduct(c: Matrix, a: Matrix, b: Matrix)
    requires a.Valid() && b.Valid() && c.Valid()
    reads a.data, b.data, c.data
  {
    forall r, col :: 0 <= r < N && 0 <= col < N ==> c.data[r, col] == Dot(Leaf(a), Leaf(b), r, col, N)
  }

  /** A temporary holding A + B, multiplied by D, gives the entries of the
      fused expression. */
  lemma ThroughTemporary(a: Matrix, b: Matrix, d: Matrix, tmp: Matrix, i: nat, j: nat)
    requires a.Valid() && b.Valid() && d.Valid() && tmp.Valid() && i < N && j < N
    requires HoldsSum(tmp, a, b)
    ensures Dot(Leaf(tmp), Leaf(d), i, j, N) == Entry(SumTimes(a, b, d), i, j)
  {
    var sum := MatrixAdd(Leaf(a), Leaf(b));
    assert forall k :: 0 <= k < N ==> Entry(Leaf(tmp), i, k) == Entry(sum, i, k);
    DotLeftCongruence(Leaf(tmp), sum, Leaf(d), i, j, N);
  }

  /** The two evaluations of `(A + B) * D` in `main`: the direct one
      through a temporary and the fused expression template agree entry
      by entry. */
  method FusedAgreesWithDirect(a: Matrix, b: Matrix, d: Matrix) returns (direct: Matrix, fused: Matrix)
    requires a.Valid() && b.Valid() && d.Valid()
    ensures direct.Valid() && fused.Valid()
    ensures forall i, j :: 0 <= i < N && 0 <= j < N ==>
              fused.data[i, j] == direct.data[i, j] == Entry(SumTimes(a, b, d), i, j)
  {
    var e := SumTimes(a, b, d);
    ArraysAllocated(e);
    var tmp := new Matrix();
    DirectAdd(a, b, tmp);
    assert HoldsSum(tmp, a, b);
    direct := new Matrix();
    DirectMul(tmp, d, direct);
    assert HoldsProduct(direct, tmp, d);
    fused := new Matrix();
    fused.Assign(e);
    assert HoldsSum(tmp, a, b) && HoldsProduct(direct, tmp, d);
    forall i, j | 0 <= i < N && 0 <= j < N
      ensures direct.data[i, j] == Entry(e, i, j)
    {
      ThroughTemporary(a, b, d, tmp, i, j);
    }
  }

  /** Right multiplication by the identity leaves A + B. */
  lemma SumTimesIdentity(a: Matrix, b: Matrix, d: Matrix, i: nat, j: nat)
    requires a.Valid() && b.Valid() && IsIdentity(d) && i < N && j < N
    ensures Entry(SumTimes(a, b, d), i, j) == a.data[i, j] + b.data[i, j]
  {
    DotIdentity(MatrixAdd(Leaf(a), Leaf(b)), d, i, j, N);
  }

  /** `main` over integers: A and B sum to a matrix of tens, and D is the
      identity, so both evaluations of `(A + B) * D` give all tens. */
  method MainExample() returns (direct: Matrix, fused: Matrix)
    ensures direct.Valid() && fused.Valid()
    ensures forall i, j :: 0 <= i < N && 0 <= j < N ==> direct.data[i, j] == fused.data[i, j] == 10
  {
    var a := new Matrix.FromRows([[1, 2, 3], [4, 5, 6], [7, 8, 9]]);
    var b := new Matrix.FromRows([[9, 8, 7], [6, 5, 4], [3, 2, 1]]);
    var d := new Matrix.FromRows([[1, 0, 0], [0, 1, 0], [0, 0, 1]]);
    assert IsIdentity(d);
    assert forall i, j :: 0 <= i < N && 0 <= j < N ==> a.data[i, j] + b.data[i, j] == 10;
    ArraysAllocated(SumTimes(a, b, d));
    direct, fused := FusedAgreesWithDirect(a, b, d);
    forall i, j | 0 <= i < N && 0 <= j < N
      ensures direct.data[i, j] == 10
    {
      SumTimesIdentity(a, b, d, i, j);
    }
  }
}
