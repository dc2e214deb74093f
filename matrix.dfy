/**
  Rectangular matrices over the field and the operations the parameter
  generator builds on them: construction, element access, transpose, the
  Hadamard (element-wise) product, dot products, matrix products and scalar
  products.

  A matrix is its shape and a flat sequence of elements in row-major order;
  the shape invariant `|elements| == nRows * nCols` stands in for the
  compile-time dimension parameters of the source's matrix types.
 */
module Matrices {
  import opened Field

  /** Failures the matrix layer reports as values rather than panics. */
  datatype MatrixError = DimensionMismatch | SingularMatrix

  datatype Result<T> = Ok(value: T) | Err(error: MatrixError)

  datatype Matrix = Matrix(nRows: nat, nCols: nat, elements: seq<Fe>)
  {
    /** The shape invariant every constructor establishes. */
    predicate Valid() { |elements| == nRows * nCols }
  }

  // ---------------------------------------------------------------------------
  // Index arithmetic for the row-major layout

  /** Multiplication by a natural number is monotone (by induction, so without non-linear search). */
  lemma {:induction false} MulMonotone(x: int, y: int, c: nat)
    ensures x <= y ==> x * c <= y * c
    decreases c
  {
    if c > 0 {
      MulMonotone(x, y, c - 1);
    }
  }

  lemma RowEnd(i: nat, r: nat, c: nat)
    requires i < r
    ensures i * c + c <= r * c
  {
    MulMonotone(i + 1, r, c);
  }

  lemma IndexDivMod(i: nat, j: nat, c: nat)
    requires j < c
    ensures (i * c + j) / c == i && (i * c + j) % c == j
  {
    var k := i * c + j;
    var q := k / c;
    MulMonotone(i + 1, q, c);
    MulMonotone(q, i - 1, c);
    assert q * c + k % c == k;
  }

  lemma DivModIndex(k: nat, r: nat, c: nat)
    requires k < r * c
    ensures c > 0 && k / c < r && k % c < c && (k / c) * c + k % c == k
  {
    MulMonotone(r, 0, c);
    MulMonotone(r, k / c, c);
  }

  // ---------------------------------------------------------------------------
  // Construction and element access

  /**
    `Matrix::new`: the caller supplies exactly `nRows * nCols` elements. What
    the source does with another length is decided in `base.rs`, which is not
    part of this model; here the length is a precondition.
   */
  function New(nRows: nat, nCols: nat, elements: seq<Fe>): Matrix
    requires |elements| == nRows * nCols
  {
    Matrix(nRows, nCols, elements)
  }

  /** `get_element`: element `(i, j)` sits at linear index `i * nCols + j`. */
  function Get(m: Matrix, i: nat, j: nat): Fe
    requires m.Valid() && i < m.nRows && j < m.nCols
  {
    RowEnd(i, m.nRows, m.nCols);
    m.elements[i * m.nCols + j]
  }

  /** Every element of the flat sequence is the matrix element at row `k / nCols`, column `k % nCols`. */
  lemma ElementPosition(m: Matrix, k: nat)
    requires m.Valid() && k < |m.elements|
    ensures m.nCols > 0 && k / m.nCols < m.nRows && k % m.nCols < m.nCols
    ensures (k / m.nCols) * m.nCols + k % m.nCols == k
    ensures m.elements[k] == Get(m, k / m.nCols, k % m.nCols)
  {
    DivModIndex(k, m.nRows, m.nCols);
  }

  /** Two matrices of one shape that agree on every element are equal. */
  lemma Extensionality(a: Matrix, b: Matrix)
    requires a.Valid() && b.Valid() && a.nRows == b.nRows && a.nCols == b.nCols
    requires forall i: nat, j: nat :: i < a.nRows && j < a.nCols ==> Get(a, i, j) == Get(b, i, j)
    ensures a == b
  {
    forall k | 0 <= k < |a.elements|
      ensures a.elements[k] == b.elements[k]
    {
      ElementPosition(a, k);
      ElementPosition(b, k);
    }
  }

  /** `set_element`: replaces element `(i, j)` and nothing else. */
  function Set(m: Matrix, i: nat, j: nat, v: Fe): (r: Matrix)
    requires m.Valid() && i < m.nRows && j < m.nCols
    ensures r.Valid() && r.nRows == m.nRows && r.nCols == m.nCols
    ensures Get(r, i, j) == v
    ensures forall a: nat, b: nat :: a < m.nRows && b < m.nCols && (a, b) != (i, j) ==> Get(r, a, b) == Get(m, a, b)
  {
    RowEnd(i, m.nRows, m.nCols);
    var r := Matrix(m.nRows, m.nCols, m.elements[i * m.nCols + j := v]);
    forall a: nat, b: nat | a < m.nRows && b < m.nCols && (a, b) != (i, j)
      ensures Get(r, a, b) == Get(m, a, b)
    {
      IndexDivMod(a, b, m.nCols);
      IndexDivMod(i, j, m.nCols);
      RowEnd(a, m.nRows, m.nCols);
      assert a * m.nCols + b != i * m.nCols + j;
      assert Get(r, a, b) == r.elements[a * m.nCols + b];
    }
    r
  }

  // ---------------------------------------------------------------------------
  // Rows, columns and flattening

  /** `flatten`: the concatenation of a sequence of sequences, in order. */
  function Flatten(nested: seq<seq<Fe>>): seq<Fe>
  {
    if |nested| == 0 then [] else nested[0] + Flatten(nested[1..])
  }

  lemma {:induction false} FlattenLength(rows: seq<seq<Fe>>, w: nat)
    requires forall i :: 0 <= i < |rows| ==> |rows[i]| == w
    ensures |Flatten(rows)| == |rows| * w
  {
    if |rows| > 0 {
      FlattenLength(rows[1..], w);
    }
  }

  /** Flattening rows of one width `w` puts element `j` of row `i` at index `i * w + j`. */
  lemma {:induction false} FlattenAt(rows: seq<seq<Fe>>, w: nat, i: nat, j: nat)
    requires forall i :: 0 <= i < |rows| ==> |rows[i]| == w
    requires i < |rows| && j < w
    ensures i * w + j < |Flatten(rows)| && Flatten(rows)[i * w + j] == rows[i][j]
  {
    FlattenLength(rows, w);
    FlattenLength(rows[1..], w);
    if i > 0 {
      FlattenAt(rows[1..], w, i - 1, j);
      assert i * w + j == w + ((i - 1) * w + j);
    }
  }

  /** Row `i`, a slice of the flat element sequence. */
  function Row(m: Matrix, i: nat): (row: seq<Fe>)
    requires m.Valid() && i < m.nRows
    ensures |row| == m.nCols
    ensures forall j :: 0 <= j < m.nCols ==> row[j] == Get(m, i, j)
  {
    RowEnd(i, m.nRows, m.nCols);
    m.elements[i * m.nCols .. i * m.nCols + m.nCols]
  }

  /** Column `j`, read element by element. */
  function Column(m: Matrix, j: nat): (col: seq<Fe>)
    requires m.Valid() && j < m.nCols
    ensures |col| == m.nRows
    ensures forall i :: 0 <= i < m.nRows ==> col[i] == Get(m, i, j)
  {
    seq(m.nRows, i requires 0 <= i < m.nRows => Get(m, i, j))
  }

  /** `rows()`: the matrix as a sequence of its rows. */
  function Rows(m: Matrix): (rows: seq<seq<Fe>>)
    requires m.Valid()
    ensures |rows| == m.nRows
    ensures forall i :: 0 <= i < m.nRows ==> rows[i] == Row(m, i)
  {
    seq(m.nRows, i requires 0 <= i < m.nRows => Row(m, i))
  }

  /** Flattening the rows of a matrix gives back its elements. */
  lemma FlattenRows(m: Matrix)
    requires m.Valid()
    ensures Flatten(Rows(m)) == m.elements
  {
    var rows := Rows(m);
    FlattenLength(rows, m.nCols);
    forall k | 0 <= k < |m.elements|
      ensures Flatten(rows)[k] == m.elements[k]
    {
      ElementPosition(m, k);
      var i, j := k / m.nCols, k % m.nCols;
      FlattenAt(rows, m.nCols, i, j);
      assert i * m.nCols + j == k;
      assert rows[i][j] == Get(m, i, j);
    }
  }

  /**
    The `r x c` matrix whose element `(i, j)` is `f(i, j)`, built as the source
    builds matrices: row by row, then flattened.
   */
  function Tabulate(r: nat, c: nat, f: (nat, nat) --> Fe): (m: Matrix)
    requires forall i: nat, j: nat :: i < r && j < c ==> f.requires(i, j)
    ensures m.Valid() && m.nRows == r && m.nCols == c
    ensures forall i: nat, j: nat :: i < r && j < c ==> Get(m, i, j) == f(i, j)
  {
    var rows := seq(r, i requires 0 <= i < r => seq(c, j requires 0 <= j < c => f(i, j)));
    FlattenLength(rows, c);
    var m := Matrix(r, c, Flatten(rows));
    forall i: nat, j: nat | i < r && j < c
      ensures Get(m, i, j) == f(i, j)
    {
      FlattenAt(rows, c, i, j);
    }
    m
  }

  // ---------------------------------------------------------------------------
  // Dot product

  /** `dot_product`: the left-to-right sum of the pairwise products (the source panics on unequal lengths). */
  function Dot(a: seq<Fe>, b: seq<Fe>): Fe
    requires |a| == |b|
  {
    if |a| == 0 then 0
    else Add(Dot(a[..|a| - 1], b[..|b| - 1]), Mul(a[|a| - 1], b[|b| - 1]))
  }

  /** A reference definition of the same sum, accumulated from the right over an explicit sequence of products. */
  function Sum(s: seq<Fe>): Fe
  {
    if |s| == 0 then 0 else Add(s[0], Sum(s[1..]))
  }

  function Products(a: seq<Fe>, b: seq<Fe>): (p: seq<Fe>)
    requires |a| == |b|
    ensures |p| == |a| && forall k :: 0 <= k < |a| ==> p[k] == Mul(a[k], b[k])
  {
    seq(|a|, k requires 0 <= k < |a| => Mul(a[k], b[k]))
  }

  lemma {:induction false} SumSnoc(s: seq<Fe>, x: Fe)
    ensures Sum(s + [x]) == Add(Sum(s), x)
  {
    if |s| > 0 {
      assert (s + [x])[1..] == s[1..] + [x];
      SumSnoc(s[1..], x);
      AddAssociative(s[0], Sum(s[1..]), x);
    }
  }

  /** `dot_product(a, b)` is the field sum of `a[k] * b[k]` over all `k`. */
  lemma {:induction false} DotIsSumOfProducts(a: seq<Fe>, b: seq<Fe>)
    requires |a| == |b|
    ensures Dot(a, b) == Sum(Products(a, b))
  {
    if |a| > 0 {
      var n := |a| - 1;
      DotIsSumOfProducts(a[..n], b[..n]);
      assert Products(a, b) == Products(a[..n], b[..n]) + [Mul(a[n], b[n])];
      SumSnoc(Products(a[..n], b[..n]), Mul(a[n], b[n]));
    }
  }

  /** Dot products of length one, two and three, written out. */
  lemma DotSmall(a: seq<Fe>, b: seq<Fe>)
    requires |a| == |b| && 1 <= |a| <= 3
    ensures |a| == 1 ==> Dot(a, b) == Mul(a[0], b[0])
    ensures |a| == 2 ==> Dot(a, b) == Add(Mul(a[0], b[0]), Mul(a[1], b[1]))
    ensures |a| == 3 ==> Dot(a, b) == Add(Add(Mul(a[0], b[0]), Mul(a[1], b[1])), Mul(a[2], b[2]))
  {
    var n := |a|;
    assert a[..1][..0] == [] && b[..1][..0] == [];
    AddUnits(Mul(a[0], b[0]));
    assert Dot(a[..1], b[..1]) == Mul(a[0], b[0]);
    if n == 3 {
      assert a[..3][..2][..1] == a[..1] && b[..3][..2][..1] == b[..1];
      assert a[..2] == a[..3][..2] && b[..2] == b[..3][..2];
    } else if n == 2 {
      assert a[..2][..1] == a[..1] && b[..2][..1] == b[..1];
    } else {
      assert a[..1] == a && b[..1] == b;
    }
  }

  /** The dot product is symmetric. */
  lemma {:induction false} DotSymmetric(a: seq<Fe>, b: seq<Fe>)
    requires |a| == |b|
    ensures Dot(a, b) == Dot(b, a)
  {
    if |a| > 0 {
      DotSymmetric(a[..|a| - 1], b[..|b| - 1]);
    }
  }

  /** The unit vector with a one at position `k`. */
  function Unit(n: nat, k: nat): (e: seq<Fe>)
    ensures |e| == n && forall i :: 0 <= i < n ==> e[i] == if i == k then 1 else 0
  {
    seq(n, i requires 0 <= i < n => if i == k then 1 else 0)
  }

  /** The dot product with a unit vector selects one component. */
  lemma {:induction false} DotUnit(a: seq<Fe>, k: nat)
    requires k < |a|
    ensures Dot(a, Unit(|a|, k)) == a[k]
  {
    DotUnitPrefix(a, Unit(|a|, k), k);
  }

  lemma {:induction false} DotUnitPrefix(a: seq<Fe>, e: seq<Fe>, k: nat)
    requires |a| == |e|
    requires forall i :: 0 <= i < |e| ==> e[i] == if i == k then 1 else 0
    ensures Dot(a, e) == if k < |a| then a[k] else 0
  {
    if |a| > 0 {
      var n := |a| - 1;
      DotUnitPrefix(a[..n], e[..n], k);
    }
  }

  // ---------------------------------------------------------------------------
  // Element-wise operations

  /** `transpose`: shape `(c, r)`, element `(i, j)` moved to `(j, i)`. */
  function Transpose(m: Matrix): (t: Matrix)
    requires m.Valid()
    ensures t.Valid() && t.nRows == m.nCols && t.nCols == m.nRows && |t.elements| == |m.elements|
    ensures forall i: nat, j: nat :: i < m.nCols && j < m.nRows ==> Get(t, i, j) == Get(m, j, i)
  {
    Tabulate(m.nCols, m.nRows, (i: nat, j: nat) requires i < m.nCols && j < m.nRows => Get(m, j, i))
  }

  /** Transposing twice gives back the matrix. */
  lemma TransposeInvolution(m: Matrix)
    requires m.Valid()
    ensures Transpose(Transpose(m)) == m
  {
    Extensionality(Transpose(Transpose(m)), m);
  }

  /** Row `j` of the transpose is column `j` of the matrix. */
  lemma RowOfTranspose(m: Matrix, j: nat)
    requires m.Valid() && j < m.nCols
    ensures Row(Transpose(m), j) == Column(m, j)
  {
  }

  /** `hadamard_product`: element-wise product, defined only for matrices of one shape. */
  function Hadamard(a: Matrix, b: Matrix): (r: Result<Matrix>)
    requires a.Valid() && b.Valid()
    ensures r.Err? <==> a.nRows != b.nRows || a.nCols != b.nCols
    ensures r.Err? ==> r.error == DimensionMismatch
    ensures r.Ok? ==> r.value.Valid() && r.value.nRows == a.nRows && r.value.nCols == a.nCols
    ensures r.Ok? ==> forall i: nat, j: nat :: i < a.nRows && j < a.nCols ==> Get(r.value, i, j) == Mul(Get(a, i, j), Get(b, i, j))
  {
    if a.nRows != b.nRows || a.nCols != b.nCols then Err(DimensionMismatch)
    else
      var r := Matrix(a.nRows, a.nCols, seq(|a.elements|, k requires 0 <= k < |a.elements| => Mul(a.elements[k], b.elements[k])));
      forall i: nat, j: nat | i < a.nRows && j < a.nCols
        ensures Get(r, i, j) == Mul(Get(a, i, j), Get(b, i, j))
      {
        RowEnd(i, a.nRows, a.nCols);
        var k := i * a.nCols + j;
        assert Get(r, i, j) == r.elements[k];
        assert Get(a, i, j) == a.elements[k] && Get(b, i, j) == b.elements[k];
      }
      Ok(r)
  }

  /** The Hadamard product is commutative, failures included. */
  lemma HadamardCommutative(a: Matrix, b: Matrix)
    requires a.Valid() && b.Valid()
    ensures Hadamard(a, b) == Hadamard(b, a)
  {
    if Hadamard(a, b).Ok? {
      Extensionality(Hadamard(a, b).value, Hadamard(b, a).value);
    }
  }

  predicate IsSquare(m: Matrix) { m.Valid() && m.nRows == m.nCols }

  /** Scalar multiplication of a square matrix: every element times `s`. */
  function ScalarMul(m: Matrix, s: Fe): (r: Matrix)
    requires IsSquare(m)
    ensures IsSquare(r) && r.nRows == m.nRows
    ensures forall i: nat, j: nat :: i < m.nRows && j < m.nCols ==> Get(r, i, j) == Mul(Get(m, i, j), s)
  {
    var r := Matrix(m.nRows, m.nCols, seq(|m.elements|, k requires 0 <= k < |m.elements| => Mul(m.elements[k], s)));
    forall i: nat, j: nat | i < m.nRows && j < m.nCols
      ensures Get(r, i, j) == Mul(Get(m, i, j), s)
    {
      RowEnd(i, m.nRows, m.nCols);
      var k := i * m.nCols + j;
      assert Get(r, i, j) == r.elements[k];
      assert Get(m, i, j) == m.elements[k];
    }
    r
  }

  /** Multiplying by one changes nothing. */
  lemma ScalarMulOne(m: Matrix)
    requires IsSquare(m)
    ensures ScalarMul(m, 1) == m
  {
    Extensionality(ScalarMul(m, 1), m);
  }

  /** Scaling twice is scaling once by the product. */
  lemma ScalarMulTwice(m: Matrix, s: Fe, t: Fe)
    requires IsSquare(m)
    ensures ScalarMul(ScalarMul(m, s), t) == ScalarMul(m, Mul(s, t))
  {
    forall i: nat, j: nat | i < m.nRows && j < m.nCols
      ensures Get(ScalarMul(ScalarMul(m, s), t), i, j) == Get(ScalarMul(m, Mul(s, t)), i, j)
    {
      MulAssociative(Get(m, i, j), s, t);
    }
    Extensionality(ScalarMul(ScalarMul(m, s), t), ScalarMul(m, Mul(s, t)));
  }

  // ---------------------------------------------------------------------------
  // Matrix products

  /** The rows of a product as the source builds them: each row of `lhs` against each row of the transposed `rhs`. */
  function ProductRows(lhs: Matrix, rhsT: Matrix): seq<seq<Fe>>
    requires lhs.Valid() && rhsT.Valid() && lhs.nCols == rhsT.nCols
  {
    seq(lhs.nRows, i requires 0 <= i < lhs.nRows =>
      seq(rhsT.nRows, j requires 0 <= j < rhsT.nRows => Dot(Row(lhs, i), Row(rhsT, j))))
  }

  lemma ProductRowsAt(lhs: Matrix, rhs: Matrix, i: nat, j: nat)
    requires lhs.Valid() && rhs.Valid() && lhs.nCols == rhs.nRows
    requires i < lhs.nRows && j < rhs.nCols
    ensures |Flatten(ProductRows(lhs, Transpose(rhs)))| == lhs.nRows * rhs.nCols
    ensures i * rhs.nCols + j < lhs.nRows * rhs.nCols
    ensures Flatten(ProductRows(lhs, Transpose(rhs)))[i * rhs.nCols + j] == Dot(Row(lhs, i), Column(rhs, j))
  {
    var rows := ProductRows(lhs, Transpose(rhs));
    FlattenLength(rows, rhs.nCols);
    FlattenAt(rows, rhs.nCols, i, j);
    RowOfTranspose(rhs, j);
  }

  /**
    `mat_mul`: fails exactly when the column count of `lhs` differs from the
    row count of `rhs`; otherwise element `(i, j)` of the `lhs.nRows x rhs.nCols`
    result is the dot product of row `i` of `lhs` with column `j` of `rhs`.
   */
  function MatMul(lhs: Matrix, rhs: Matrix): (r: Result<Matrix>)
    requires lhs.Valid() && rhs.Valid()
    ensures r.Err? <==> lhs.nCols != rhs.nRows
    ensures r.Err? ==> r.error == DimensionMismatch
    ensures r.Ok? ==> r.value.Valid() && r.value.nRows == lhs.nRows && r.value.nCols == rhs.nCols
    ensures r.Ok? ==> forall i: nat, j: nat :: i < lhs.nRows && j < rhs.nCols ==>
      Get(r.value, i, j) == Dot(Row(lhs, i), Column(rhs, j))
  {
    if lhs.nCols != rhs.nRows then Err(DimensionMismatch)
    else
      var rows := ProductRows(lhs, Transpose(rhs));
      FlattenLength(rows, rhs.nCols);
      var m := New(lhs.nRows, rhs.nCols, Flatten(rows));
      forall i: nat, j: nat | i < lhs.nRows && j < rhs.nCols
        ensures Get(m, i, j) == Dot(Row(lhs, i), Column(rhs, j))
      {
        ProductRowsAt(lhs, rhs, i, j);
      }
      Ok(m)
  }

  /** The product of two square matrices of one dimension (infallible in the source). */
  function SquareMul(a: Matrix, b: Matrix): (r: Matrix)
    requires IsSquare(a) && IsSquare(b) && a.nRows == b.nRows
    ensures IsSquare(r) && r.nRows == a.nRows
    ensures forall i: nat, j: nat :: i < a.nRows && j < a.nRows ==> Get(r, i, j) == Dot(Row(a, i), Column(b, j))
  {
    MatMul(a, b).value
  }

  /** `identity(n)`: ones on the diagonal, zeros elsewhere. */
  function Identity(n: nat): (id: Matrix)
    ensures IsSquare(id) && id.nRows == n
    ensures forall i: nat, j: nat :: i < n && j < n ==> Get(id, i, j) == if i == j then 1 else 0
  {
    Tabulate(n, n, (i: nat, j: nat) => if i == j then 1 else 0)
  }

  /** Multiplying by the identity on the right leaves a square matrix unchanged. */
  lemma MulIdentityRight(m: Matrix)
    requires IsSquare(m)
    ensures SquareMul(m, Identity(m.nRows)) == m
  {
    var n := m.nRows;
    var r := SquareMul(m, Identity(n));
    forall i: nat, j: nat | i < n && j < n
      ensures Get(r, i, j) == Get(m, i, j)
    {
      assert Column(Identity(n), j) == Unit(n, j);
      DotUnit(Row(m, i), j);
    }
    Extensionality(r, m);
  }

  /** Multiplying by the identity on the left leaves a square matrix unchanged. */
  lemma MulIdentityLeft(m: Matrix)
    requires IsSquare(m)
    ensures SquareMul(Identity(m.nRows), m) == m
  {
    var n := m.nRows;
    var r := SquareMul(Identity(n), m);
    forall i: nat, j: nat | i < n && j < n
      ensures Get(r, i, j) == Get(m, i, j)
    {
      assert Row(Identity(n), i) == Unit(n, i);
      DotSymmetric(Row(Identity(n), i), Column(m, j));
      DotUnit(Column(m, j), i);
    }
    Extensionality(r, m);
  }
}
