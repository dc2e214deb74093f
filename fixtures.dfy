/**
  The concrete matrices of the generator's unit tests, with the values those
  tests expect, proved about the model. Field elements are residues modulo
  `Field.P`; `-x` in a test is `Neg(x)` here.
 */
module Fixtures {
  import opened Field
  import opened Matrices
  import opened SquareMatrices

  /** The elements `1, 2, .., n`, the pattern every fixture starts from. */
  function Ascending(n: nat): (e: seq<Fe>)
    requires n < P
    ensures |e| == n && forall k :: 0 <= k < n ==> e[k] == (k + 1) as Fe
  {
    seq(n, k requires 0 <= k < n => (k + 1) as Fe)
  }

  /** The `3 x 2` matrix `[[1, 2], [3, 4], [5, 6]]`. */
  function ThreeByTwo(): (m: Matrix)
    ensures m.Valid() && m.nRows == 3 && m.nCols == 2
  {
    New(3, 2, Ascending(6))
  }

  /** The `2 x 2` matrix `[[1, 2], [3, 4]]`. */
  function TwoByTwo(): (m: Matrix)
    ensures IsSquare(m) && m.nRows == 2
  {
    FromVec(2, Ascending(4))
  }

  /** Element `(i, k)` of the `3 x 2` matrix is `2i + k + 1`. */
  lemma ThreeByTwoEntries(m: Matrix)
    requires m == ThreeByTwo()
    ensures forall i: nat, k: nat :: i < 3 && k < 2 ==> Get(m, i, k) == (2 * i + k + 1) as Fe
  {
    forall i: nat, k: nat | i < 3 && k < 2
      ensures Get(m, i, k) == (2 * i + k + 1) as Fe
    {
      assert Get(m, i, k) == Ascending(6)[2 * i + k];
    }
  }

  /** `SquareMatrix::from_vec` lays the four elements out row by row: `[[1, 2], [3, 4]]`. */
  lemma TwoByTwoEntries(s: Matrix)
    requires s == TwoByTwo()
    ensures Get(s, 0, 0) == 1 && Get(s, 0, 1) == 2 && Get(s, 1, 0) == 3 && Get(s, 1, 1) == 4
  {
    assert Get(s, 0, 0) == Ascending(4)[0] && Get(s, 0, 1) == Ascending(4)[1];
    assert Get(s, 1, 0) == Ascending(4)[2] && Get(s, 1, 1) == Ascending(4)[3];
  }

  /** `Matrix::new(2, 3, ..)` lays the six elements out row by row: `[[1, 2, 3], [4, 5, 6]]`. */
  lemma RowMajorFixture(m: Matrix)
    requires m == New(2, 3, Ascending(6))
    ensures Get(m, 0, 0) == 1 && Get(m, 0, 1) == 2 && Get(m, 0, 2) == 3
    ensures Get(m, 1, 0) == 4 && Get(m, 1, 1) == 5 && Get(m, 1, 2) == 6
  {
    forall i: nat, k: nat | i < 2 && k < 3
      ensures Get(m, i, k) == (3 * i + k + 1) as Fe
    {
      assert Get(m, i, k) == Ascending(6)[3 * i + k];
    }
  }

  /** Transposing the `3 x 2` matrix gives the `2 x 3` matrix `[[1, 3, 5], [2, 4, 6]]`. */
  lemma TransposeFixture(m: Matrix)
    requires m == ThreeByTwo()
    ensures var t := Transpose(m);
      t.nRows == 2 && t.nCols == 3 &&
      Get(t, 0, 0) == 1 && Get(t, 1, 0) == 2 && Get(t, 0, 1) == 3 &&
      Get(t, 1, 1) == 4 && Get(t, 0, 2) == 5 && Get(t, 1, 2) == 6
  {
    ThreeByTwoEntries(m);
  }

  /** Transposing `[[1, 2], [3, 4]]` gives `[[1, 3], [2, 4]]`. */
  lemma TransposeSquareFixture(s: Matrix)
    requires s == TwoByTwo()
    ensures var t := Transpose(s);
      Get(t, 0, 0) == 1 && Get(t, 0, 1) == 3 && Get(t, 1, 0) == 2 && Get(t, 1, 1) == 4
  {
    TwoByTwoEntries(s);
  }

  /** The element-wise squares `1 .. 36`, one product at a time. */
  lemma SquaresArithmetic()
    ensures Mul(1, 1) == 1 && Mul(2, 2) == 4 && Mul(3, 3) == 9
    ensures Mul(4, 4) == 16 && Mul(5, 5) == 25 && Mul(6, 6) == 36
  {
  }

  /** The Hadamard product of the `3 x 2` matrix with itself squares every element. */
  lemma HadamardFixture(m: Matrix)
    requires m == ThreeByTwo()
    ensures var r := Hadamard(m, m);
      r.Ok? && r.value.nRows == 3 && r.value.nCols == 2 &&
      Get(r.value, 0, 0) == 1 && Get(r.value, 0, 1) == 4 && Get(r.value, 1, 0) == 9 &&
      Get(r.value, 1, 1) == 16 && Get(r.value, 2, 0) == 25 && Get(r.value, 2, 1) == 36
  {
    ThreeByTwoEntries(m);
    SquaresArithmetic();
  }

  /** The identity of size two has ones on the diagonal and zeros off it. */
  lemma IdentityFixture()
    ensures var id := Identity(2);
      Get(id, 0, 0) == 1 && Get(id, 0, 1) == 0 && Get(id, 1, 1) == 1 && Get(id, 1, 0) == 0
  {
  }

  /** `[[1, 2], [3, 4]]` times the identity is itself. */
  lemma SquareMatMulFixture(s: Matrix)
    requires s == TwoByTwo()
    ensures var r := SquareMul(s, Identity(s.nRows));
      Get(r, 0, 0) == 1 && Get(r, 0, 1) == 2 && Get(r, 1, 0) == 3 && Get(r, 1, 1) == 4
  {
    MulIdentityRight(s);
    TwoByTwoEntries(s);
  }

  /** Multiplying the `3 x 2` matrix by itself is a dimension error. */
  lemma MatMulMismatchFixture(m: Matrix)
    requires m == ThreeByTwo()
    ensures MatMul(m, m).Err? && MatMul(m, m).error == DimensionMismatch
  {
  }

  /** The expected product of the `3 x 2` matrix and its transpose, row by row. */
  function Gram(): seq<Fe> { [5, 11, 17, 11, 25, 39, 17, 39, 61] }

  /**
    Entry `(i, j)` of the `3 x 2` matrix times its transpose is the dot
    product of rows `i` and `j`.
   */
  lemma GramEntry(m: Matrix, i: nat, j: nat)
    requires m == ThreeByTwo() && i < 3 && j < 3
    ensures Get(MatMul(m, Transpose(m)).value, i, j) == Add(Mul(Get(m, i, 0), Get(m, j, 0)), Mul(Get(m, i, 1), Get(m, j, 1)))
  {
    DotSmall(Row(m, i), Column(Transpose(m), j));
  }

  /** The paired products of rows `i` and `j` of the `3 x 2` matrix are the expected entries. */
  lemma GramArithmetic(x0: Fe, x1: Fe, y0: Fe, y1: Fe, i: nat, j: nat)
    requires i < 3 && j < 3
    requires x0 == 2 * i + 1 && x1 == 2 * i + 2 && y0 == 2 * j + 1 && y1 == 2 * j + 2
    ensures Add(Mul(x0, y0), Mul(x1, y1)) == Gram()[3 * i + j]
  {
    assert Mul(1, 1) == 1 && Mul(2, 2) == 4 && Mul(1, 3) == 3 && Mul(2, 4) == 8 && Mul(1, 5) == 5 && Mul(2, 6) == 12;
    assert Mul(3, 1) == 3 && Mul(4, 2) == 8 && Mul(3, 3) == 9 && Mul(4, 4) == 16 && Mul(3, 5) == 15 && Mul(4, 6) == 24;
    assert Mul(5, 1) == 5 && Mul(6, 2) == 12 && Mul(5, 3) == 15 && Mul(6, 4) == 24 && Mul(5, 5) == 25 && Mul(6, 6) == 36;
  }

  /** The `3 x 2` matrix times its transpose is `[[5, 11, 17], [11, 25, 39], [17, 39, 61]]`. */
  lemma MatMulTransposeFixture(m: Matrix)
    requires m == ThreeByTwo()
    ensures var r := MatMul(m, Transpose(m));
      r.Ok? && r.value.nRows == 3 && r.value.nCols == 3 &&
      forall i: nat, j: nat :: i < 3 && j < 3 ==> Get(r.value, i, j) == Gram()[3 * i + j]
  {
    ThreeByTwoEntries(m);
    forall i: nat, j: nat | i < 3 && j < 3
      ensures Get(MatMul(m, Transpose(m)).value, i, j) == Gram()[3 * i + j]
    {
      GramEntry(m, i, j);
      GramArithmetic(Get(m, i, 0), Get(m, i, 1), Get(m, j, 0), Get(m, j, 1), i, j);
    }
  }

  // ---------------------------------------------------------------------------
  // Determinants

  /**
    The elements of the `n x n` determinant fixtures: `1 .. 9`, then tens up
    to `n * n` elements.
   */
  function TestElements(n: nat): (e: seq<Fe>)
    requires n >= 3
    ensures |e| == n * n
    ensures forall k :: 0 <= k < n * n ==> e[k] == if k < 9 then (k + 1) as Fe else 10
  {
    assert n * n >= 3 * n;
    Ascending(9) + seq(n * n - 9, _ => 10)
  }

  /** The `1 x 1` fixture `[1]` has determinant `1`; `[[1, 2], [3, 4]]` has determinant `-2`. */
  lemma DeterminantSmallFixture()
    ensures Determinant(FromVec(1, [1])) == 1
    ensures Determinant(TwoByTwo()) == Neg(2)
  {
    TwoByTwoDeterminant(TwoByTwo());
  }

  /** `det [[1, 2], [3, 4]] == 1 * 4 - 2 * 3 == -2`. */
  lemma TwoByTwoDeterminant(s: Matrix)
    requires s == TwoByTwo()
    ensures Determinant(s) == Neg(2)
  {
    TwoByTwoEntries(s);
    assert Mul(1, 4) == 4 && Mul(2, 3) == 6 && Sub(4, 6) == Neg(2);
  }

  /** `det [[1, 2, 3], [4, 5, 6], [7, 8, 9]] == 0`, evaluated one product at a time. */
  lemma OneToNineArithmetic(a: Fe, b: Fe, c: Fe, d: Fe, e: Fe, f: Fe, g: Fe, h: Fe, i: Fe)
    requires a == 1 && b == 2 && c == 3 && d == 4 && e == 5 && f == 6 && g == 7 && h == 8 && i == 9
    ensures Det3(a, b, c, d, e, f, g, h, i) == 0
  {
    assert Mul(e, i) == 45 && Mul(f, h) == 48 && Mul(d, i) == 36 && Mul(f, g) == 42 && Mul(d, h) == 32 && Mul(e, g) == 35;
    assert Sub(45, 48) == 98 && Sub(36, 42) == 95 && Sub(32, 35) == 98;
    assert Mul(1, 98) == 98 && Mul(2, 95) == 89 && Mul(3, 98) == 92;
    assert Sub(98, 89) == 9 && Add(9, 92) == 0;
  }

  /** `[[1, 2, 3], [4, 5, 6], [7, 8, 9]]` is singular. */
  lemma DeterminantThreeFixture(m: Matrix)
    requires m == FromVec(3, Ascending(9))
    ensures Determinant(m) == 0
  {
    Determinant3(m);
    OneToNineArithmetic(Get(m, 0, 0), Get(m, 0, 1), Get(m, 0, 2), Get(m, 1, 0), Get(m, 1, 1), Get(m, 1, 2), Get(m, 2, 0), Get(m, 2, 1), Get(m, 2, 2));
  }

  /** The `4 x 4` fixture `[[1, 2, 3, 4], [5, 6, 7, 8], [9, 10, 10, 10], [10, 10, 10, 10]]`. */
  function FourByFour(): (m: Matrix)
    ensures IsSquare(m) && m.nRows == 4
  {
    FromVec(4, TestElements(4))
  }

  /** The minor along row 0 deleting column `k` keeps rows `1 .. 3` without column `k`. */
  lemma FourByFourMinorEntries(m: Matrix, k: nat)
    requires m == FourByFour() && k < 4
    ensures forall a: nat, b: nat :: a < 3 && b < 3 ==> Get(Minor(m, 0, k), a, b) == TestElements(4)[4 * (a + 1) + Skip(b, k)]
  {
    var mk := Minor(m, 0, k);
    forall a: nat, b: nat | a < 3 && b < 3
      ensures Get(mk, a, b) == TestElements(4)[4 * (a + 1) + Skip(b, k)]
    {
      assert Get(mk, a, b) == Get(m, a + 1, Skip(b, k));
    }
  }

  /** The determinants of the minors along row 0 of the `4 x 4` fixture: `0, -10, -20, -10`. */
  function FourByFourMinorValue(k: nat): Fe
  {
    if k == 0 then 0 else if k == 2 then Neg(20) else Neg(10)
  }

  /**
    `det [[x, y, z], [u, 10, 10], [10, 10, 10]]` for the minors of the `4 x 4`
    fixture, where the first row is `5 .. 8` and the second `9, 10, 10, 10`
    without column `k`, evaluated one product at a time.
   */
  lemma TensMinorArithmetic(x: Fe, y: Fe, z: Fe, u: Fe, e: Fe, f: Fe, g: Fe, h: Fe, i: Fe, k: nat)
    requires k < 4 && x == 5 + Skip(0, k) && y == 5 + Skip(1, k) && z == 5 + Skip(2, k)
    requires u == (if k == 0 then 10 else 9) && e == 10 && f == 10 && g == 10 && h == 10 && i == 10
    ensures Det3(x, y, z, u, e, f, g, h, i) == FourByFourMinorValue(k)
  {
    assert Mul(10, 10) == 100 && Sub(100, 100) == 0 && Mul(x, 0) == 0;
    assert Neg(10) == 91 && Neg(20) == 81;
    if k == 0 {
      assert Mul(y, 0) == 0 && Mul(z, 0) == 0 && Sub(0, 0) == 0 && Add(0, 0) == 0;
    } else {
      assert Mul(9, 10) == 90 && Sub(90, 100) == 91;
      assert Mul(6, 91) == 41 && Mul(7, 91) == 31 && Mul(8, 91) == 21;
      assert Sub(0, 31) == 70 && Sub(0, 41) == 60;
      assert Add(70, 21) == 91 && Add(60, 21) == 81 && Add(60, 31) == 91;
    }
  }

  /** The minors along row 0 of the `4 x 4` fixture have determinants `0, -10, -20, -10`. */
  lemma FourByFourMinor(m: Matrix, k: nat)
    requires m == FourByFour() && k < 4
    ensures Determinant(Minor(m, 0, k)) == FourByFourMinorValue(k)
  {
    var mk := Minor(m, 0, k);
    FourByFourMinorEntries(m, k);
    Determinant3(mk);
    TensMinorArithmetic(Get(mk, 0, 0), Get(mk, 0, 1), Get(mk, 0, 2), Get(mk, 1, 0), Get(mk, 1, 1), Get(mk, 1, 2), Get(mk, 2, 0), Get(mk, 2, 1), Get(mk, 2, 2), k);
  }

  /** The terms `1 * 0`, `2 * (-10)`, `3 * (-20)`, `4 * (-10)` of the `4 x 4` expansion. */
  function FourByFourTermValue(k: nat): Fe
  {
    if k == 0 then 0 else if k == 1 then 81 else if k == 2 then 41 else 61
  }

  /** Each term of the `4 x 4` expansion, one product at a time. */
  lemma FourByFourTermArithmetic(a: Fe, d: Fe, k: nat)
    requires k < 4 && a == (k + 1) as Fe && d == FourByFourMinorValue(k)
    ensures Mul(a, d) == FourByFourTermValue(k)
  {
    assert Neg(10) == 91 && Neg(20) == 81;
    assert Mul(1, 0) == 0 && Mul(2, 91) == 81 && Mul(3, 81) == 41 && Mul(4, 91) == 61;
  }

  /** Row 0 of the `4 x 4` fixture is `1, 2, 3, 4`. */
  lemma FourByFourFirstRow(m: Matrix)
    requires m == FourByFour()
    ensures forall k: nat :: k < 4 ==> Get(m, 0, k) == (k + 1) as Fe
  {
    forall k: nat | k < 4
      ensures Get(m, 0, k) == (k + 1) as Fe
    {
      assert Get(m, 0, k) == TestElements(4)[k];
    }
  }

  /** Term `k` of the expansion of the `4 x 4` fixture along row 0. */
  lemma FourByFourTerm(m: Matrix, k: nat)
    requires m == FourByFour() && k < 4
    ensures Expansion(m)[k] == Mul(Get(m, 0, k), Determinant(Minor(m, 0, k))) == FourByFourTermValue(k)
  {
    FourByFourFirstRow(m);
    FourByFourMinor(m, k);
    FourByFourTermArithmetic(Get(m, 0, k), Determinant(Minor(m, 0, k)), k);
  }

  /** `0 - 81 + 41 - 61 == 0` modulo `P`, one step at a time. */
  lemma FourTermArithmetic(t0: Fe, t1: Fe, t2: Fe, t3: Fe)
    requires t0 == 0 && t1 == 81 && t2 == 41 && t3 == 61
    ensures Sub(Add(Sub(t0, t1), t2), t3) == 0
  {
    assert Sub(0, 81) == 20 && Add(20, 41) == 61 && Sub(61, 61) == 0;
  }

  /** The `4 x 4` fixture is singular. */
  lemma DeterminantFourFixture(m: Matrix)
    requires m == FourByFour()
    ensures Determinant(m) == 0
  {
    Determinant4(m);
    var t := Expansion(m);
    FourByFourTerm(m, 0);
    FourByFourTerm(m, 1);
    FourByFourTerm(m, 2);
    FourByFourTerm(m, 3);
    FourTermArithmetic(t[0], t[1], t[2], t[3]);
  }

  /**
    Every fixture of size five or more (the tests use five to eight) is
    singular: its last two rows are all tens.
   */
  lemma DeterminantTensFixture(n: nat)
    requires n >= 5
    ensures Determinant(FromVec(n, TestElements(n))) == 0
  {
    var m := FromVec(n, TestElements(n));
    var r := n - 2;
    assert r * n >= 3 * n;
    forall j | 0 <= j < n
      ensures Row(m, r)[j] == Row(m, r + 1)[j]
    {
      assert Get(m, r, j) == TestElements(n)[r * n + j];
      assert Get(m, r + 1, j) == TestElements(n)[(r + 1) * n + j];
    }
    DeterminantEqualLastRows(m);
  }

  // ---------------------------------------------------------------------------
  // Cofactors and inverses

  /** The cofactors of the identity of size one are `[1]`. */
  lemma CofactorsOneFixture()
    ensures Get(Cofactors(Identity(1)), 0, 0) == 1
  {
    CofactorsCheckerboard(Identity(1), 0, 0);
  }

  /** The cofactors of the identity of size two are `[[1, -1], [-1, 1]]`. */
  lemma CofactorsTwoFixture()
    ensures var c := Cofactors(Identity(2));
      Get(c, 0, 0) == 1 && Get(c, 0, 1) == Neg(1) && Get(c, 1, 0) == Neg(1) && Get(c, 1, 1) == 1
  {
    var id := Identity(2);
    CofactorsCheckerboard(id, 0, 0);
    CofactorsCheckerboard(id, 0, 1);
    CofactorsCheckerboard(id, 1, 0);
    CofactorsCheckerboard(id, 1, 1);
  }

  /** `[2]` times its inverse is the identity. */
  lemma InverseOneFixture(m: Matrix)
    requires m == FromVec(1, [2])
    ensures Determinant(m) == 2
    ensures SquareMul(m, Inverse(m)) == Identity(m.nRows)
  {
    InverseOne(m);
  }

  /** `[[1, 2], [3, 4]]` times its inverse is the identity. */
  lemma InverseTwoFixture(s: Matrix)
    requires s == TwoByTwo()
    ensures Determinant(s) == Neg(2)
    ensures SquareMul(s, Inverse(s)) == Identity(s.nRows)
  {
    TwoByTwoDeterminant(s);
    InverseTwo(s);
  }

  /** The elements of the `3 x 3` inverse fixture `[[3, 0, 2], [2, 0, -2], [0, 1, 1]]`. */
  function ThreeByThreeElements(): (e: seq<Fe>)
    ensures |e| == 9
  {
    [3, 0, 2, 2, 0, Neg(2), 0, 1, 1]
  }

  function ThreeByThree(): (m: Matrix)
    ensures IsSquare(m) && m.nRows == 3
  {
    FromVec(3, ThreeByThreeElements())
  }

  /** Element `(i, j)` of the `3 x 3` fixture. */
  function Element3(i: nat, j: nat): Fe
  {
    if i == 0 then (if j == 0 then 3 else if j == 1 then 0 else 2)
    else if i == 1 then (if j == 0 then 2 else if j == 1 then 0 else Neg(2))
    else (if j == 0 then 0 else 1)
  }

  /** The determinant of the minor of the `3 x 3` fixture deleting row `r` and column `k`. */
  function MinorDeterminant3Value(r: nat, k: nat): Fe
  {
    if r == 0 then 2
    else if r == 1 then (if k == 0 then Neg(2) else 3)
    else (if k == 1 then Neg(10) else 0)
  }

  /** Entry `(i, j)` of the adjugate of the `3 x 3` fixture, `[[2, 2, 0], [-2, 3, 10], [2, -3, 0]]`. */
  function Adjugate3(i: nat, j: nat): Fe
  {
    if i == 0 then (if j == 2 then 0 else 2)
    else if i == 1 then (if j == 0 then Neg(2) else if j == 1 then 3 else 10)
    else (if j == 0 then 2 else if j == 1 then Neg(3) else 0)
  }

  /** Entry `(i, j)` of the inverse of the `3 x 3` fixture: the adjugate divided by `10`, as residues. */
  function InverseElement3(i: nat, j: nat): Fe
  {
    if i == 0 then (if j == 2 then 0 else 81)
    else if i == 1 then (if j == 0 then 20 else if j == 1 then 71 else 1)
    else (if j == 0 then 81 else if j == 1 then 30 else 0)
  }

  lemma ThreeByThreeEntries(m: Matrix)
    requires m == ThreeByThree()
    ensures forall i: nat, j: nat :: i < 3 && j < 3 ==> Get(m, i, j) == Element3(i, j)
  {
    forall i: nat, j: nat | i < 3 && j < 3
      ensures Get(m, i, j) == Element3(i, j)
    {
      assert Get(m, i, j) == ThreeByThreeElements()[3 * i + j];
    }
  }

  /** `det [[3, 0, 2], [2, 0, -2], [0, 1, 1]] == 10`, one product at a time. */
  lemma ThreeByThreeArithmetic(a: Fe, b: Fe, c: Fe, d: Fe, e: Fe, f: Fe, g: Fe, h: Fe, i: Fe)
    requires a == 3 && b == 0 && c == 2 && d == 2 && e == 0 && f == Neg(2) && g == 0 && h == 1 && i == 1
    ensures Det3(a, b, c, d, e, f, g, h, i) == 10
  {
    assert Mul(e, i) == 0 && Mul(f, h) == 99 && Mul(d, i) == 2 && Mul(f, g) == 0 && Mul(d, h) == 2 && Mul(e, g) == 0;
    assert Sub(0, 99) == 2 && Sub(2, 0) == 2;
    assert Mul(3, 2) == 6 && Mul(0, 2) == 0 && Mul(2, 2) == 4;
    assert Sub(6, 0) == 6 && Add(6, 4) == 10;
  }

  lemma ThreeByThreeDeterminant(m: Matrix)
    requires m == ThreeByThree()
    ensures Determinant(m) == 10
  {
    Determinant3(m);
    ThreeByThreeEntries(m);
    ThreeByThreeArithmetic(Get(m, 0, 0), Get(m, 0, 1), Get(m, 0, 2), Get(m, 1, 0), Get(m, 1, 1), Get(m, 1, 2), Get(m, 2, 0), Get(m, 2, 1), Get(m, 2, 2));
  }

  /** `ad - bc` for the minor deleting row `r` and column `k`, one product at a time. */
  lemma MinorArithmetic3(a: Fe, b: Fe, c: Fe, d: Fe, r: nat, k: nat)
    requires r < 3 && k < 3
    requires a == Element3(Skip(0, r), Skip(0, k)) && b == Element3(Skip(0, r), Skip(1, k))
    requires c == Element3(Skip(1, r), Skip(0, k)) && d == Element3(Skip(1, r), Skip(1, k))
    ensures Sub(Mul(a, d), Mul(b, c)) == MinorDeterminant3Value(r, k)
  {
    assert Mul(0, 1) == 0 && Mul(Neg(2), 1) == 99 && Mul(2, 1) == 2 && Mul(3, 1) == 3 && Mul(0, 0) == 0;
    assert Mul(0, Neg(2)) == 0 && Mul(2, 0) == 0 && Mul(3, Neg(2)) == 95 && Mul(2, 2) == 4 && Mul(3, 0) == 0;
    assert Sub(0, 99) == 2 && Sub(2, 0) == 2 && Sub(0, 2) == 99 && Sub(3, 0) == 3 && Sub(95, 4) == 91 && Sub(0, 0) == 0;
  }

  lemma MinorEntry3(m: Matrix, r: nat, k: nat)
    requires m == ThreeByThree() && r < 3 && k < 3
    ensures Determinant(Minor(m, r, k)) == MinorDeterminant3Value(r, k)
  {
    MinorDeterminant3(m, r, k);
    ThreeByThreeEntries(m);
    MinorArithmetic3(Get(m, Skip(0, r), Skip(0, k)), Get(m, Skip(0, r), Skip(1, k)),
      Get(m, Skip(1, r), Skip(0, k)), Get(m, Skip(1, r), Skip(1, k)), r, k);
  }

  /** The products with `-1` that signing the minors of the `3 x 3` fixture needs. */
  lemma NegOneProducts()
    ensures Mul(2, Neg(1)) == Neg(2) && Mul(Neg(2), Neg(1)) == 2 && Mul(3, Neg(1)) == Neg(3) && Mul(Neg(10), Neg(1)) == 10
  {
  }

  /** Signing the minor deleting row `j` and column `i` gives entry `(i, j)` of the adjugate. */
  lemma SignArithmetic3(d: Fe, sign: Fe, i: nat, j: nat)
    requires i < 3 && j < 3 && d == MinorDeterminant3Value(j, i)
    requires sign == if (j + i) % 2 == 0 then 1 else Neg(1)
    ensures Mul(d, sign) == Adjugate3(i, j)
  {
    if (j + i) % 2 == 0 {
      MulUnits(d);
    } else {
      NegOneProducts();
      assert (i == 0 && j == 1) || (i == 1 && j == 0) || (i == 1 && j == 2) || (i == 2 && j == 1);
    }
  }

  /** Entry `(i, j)` of the adjugate of the `3 x 3` fixture is the signed determinant of minor `(j, i)`. */
  lemma AdjugateEntry3(m: Matrix, i: nat, j: nat)
    requires m == ThreeByThree() && i < 3 && j < 3
    ensures Mul(Determinant(Minor(m, j, i)), Pow(Neg(1), j + i)) == Adjugate3(i, j)
  {
    var d := Determinant(Minor(m, j, i));
    MinorEntry3(m, j, i);
    PowNegOne(j + i);
    SignArithmetic3(d, Pow(Neg(1), j + i), i, j);
  }

  /**
    The inverse of the `3 x 3` fixture is its adjugate
    `[[2, 2, 0], [-2, 3, 10], [2, -3, 0]]` scaled by `1 / 10`.
   */
  lemma InverseThreeFixture(m: Matrix)
    requires m == ThreeByThree()
    ensures Determinant(m) == 10
    ensures forall i: nat, j: nat :: i < 3 && j < 3 ==> Get(Inverse(m), i, j) == Mul(Adjugate3(i, j), Div(1, Determinant(m)))
  {
    ThreeByThreeDeterminant(m);
    forall i: nat, j: nat | i < 3 && j < 3
      ensures Get(Inverse(m), i, j) == Mul(Adjugate3(i, j), Div(1, Determinant(m)))
    {
      InverseEntry(m, i, j);
      AdjugateEntry3(m, i, j);
    }
  }

  /** `1 / 10 == 91` modulo `P`, and the adjugate times `91`. */
  lemma ScaledAdjugate3(d: Fe)
    requires d == 10
    ensures d != 0 && Div(1, d) == 91
    ensures forall i: nat, j: nat :: i < 3 && j < 3 ==> Mul(Adjugate3(i, j), 91) == InverseElement3(i, j)
  {
    InvUnique(d, 91);
    assert Mul(2, 91) == 81 && Mul(Neg(2), 91) == 20 && Mul(3, 91) == 71 && Mul(10, 91) == 1 && Mul(Neg(3), 91) == 30;
  }

  /** The residues of the inverse of the `3 x 3` fixture. */
  lemma InverseEntries3(m: Matrix)
    requires m == ThreeByThree()
    ensures Determinant(m) == 10
    ensures forall a: nat, b: nat :: a < 3 && b < 3 ==> Get(Inverse(m), a, b) == InverseElement3(a, b)
  {
    InverseThreeFixture(m);
    ScaledAdjugate3(Determinant(m));
  }

  /** Row `i` of the fixture dotted with column `j` of its inverse is entry `(i, j)` of the identity. */
  lemma ProductArithmetic3(a0: Fe, a1: Fe, a2: Fe, b0: Fe, b1: Fe, b2: Fe, i: nat, j: nat)
    requires i < 3 && j < 3
    requires a0 == Element3(i, 0) && a1 == Element3(i, 1) && a2 == Element3(i, 2)
    requires b0 == InverseElement3(0, j) && b1 == InverseElement3(1, j) && b2 == InverseElement3(2, j)
    ensures Add(Add(Mul(a0, b0), Mul(a1, b1)), Mul(a2, b2)) == if i == j then 1 else 0
  {
    assert Mul(3, 81) == 41 && Mul(2, 81) == 61 && Mul(2, 30) == 60 && Mul(99, 81) == 40 && Mul(99, 30) == 41;
    assert Add(41, 61) == 1 && Add(41, 60) == 0 && Add(61, 40) == 0 && Add(61, 41) == 1 && Add(20, 81) == 0 && Add(71, 30) == 0;
  }

  /** Entry `(i, j)` of the fixture times its inverse. */
  lemma ProductEntry3(m: Matrix, inv: Matrix, i: nat, j: nat)
    requires m == ThreeByThree() && IsSquare(inv) && inv.nRows == 3 && i < 3 && j < 3
    requires forall a: nat, b: nat :: a < 3 && b < 3 ==> Get(inv, a, b) == InverseElement3(a, b)
    ensures Get(SquareMul(m, inv), i, j) == if i == j then 1 else 0
  {
    ThreeByThreeEntries(m);
    DotSmall(Row(m, i), Column(inv, j));
    ProductArithmetic3(Get(m, i, 0), Get(m, i, 1), Get(m, i, 2), Get(inv, 0, j), Get(inv, 1, j), Get(inv, 2, j), i, j);
  }

  /** The `3 x 3` fixture times the matrix of residues `InverseElement3` is the identity. */
  lemma ProductIsIdentity3(m: Matrix, inv: Matrix)
    requires m == ThreeByThree() && IsSquare(inv) && inv.nRows == 3
    requires forall a: nat, b: nat :: a < 3 && b < 3 ==> Get(inv, a, b) == InverseElement3(a, b)
    ensures SquareMul(m, inv) == Identity(m.nRows)
  {
    var id := Identity(m.nRows);
    forall i: nat, j: nat | i < 3 && j < 3
      ensures Get(SquareMul(m, inv), i, j) == Get(id, i, j)
    {
      ProductEntry3(m, inv, i, j);
    }
    Extensionality(SquareMul(m, inv), id);
  }

  /** The `3 x 3` fixture times its inverse is the identity. */
  lemma InverseThreeProductFixture(m: Matrix)
    requires m == ThreeByThree()
    ensures Determinant(m) == 10
    ensures SquareMul(m, Inverse(m)) == Identity(m.nRows)
  {
    InverseEntries3(m);
    ProductIsIdentity3(m, Inverse(m));
  }
}
