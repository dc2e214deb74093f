/**
  Square matrices: construction from a flat vector, minors, the recursive
  cofactor-expansion determinant, the sign ("cofactor") matrix, the matrix of
  minors and the adjugate-formula inverse.

  The square-matrix type of the generator lives in a file that is not part of
  this model (`square.rs`); its behaviour here follows what the tests in
  `matrix.rs` and `parameters.rs` fix, in particular that `cofactors()` is the
  plain checkerboard of signs `(-1)^(i+j)`, independent of the elements.
 */
module SquareMatrices {
  import opened Field
  import opened Matrices

  /**
    `SquareMatrix::from_vec`: an `n x n` matrix from `n * n` elements in
    row-major order. The source derives `n` as the square root of the length;
    what it does with a length that is not a perfect square is decided in
    `square.rs`, which is not part of this model. Here `n` is passed.
   */
  function FromVec(n: nat, elements: seq<Fe>): (m: Matrix)
    requires |elements| == n * n
    ensures IsSquare(m) && m.nRows == n && m.elements == elements
  {
    New(n, n, elements)
  }

  /** Index `a` of a minor, mapped back to the matrix it was cut from, where index `skip` was deleted. */
  function Skip(a: nat, skip: nat): nat
  {
    if a < skip then a else a + 1
  }

  /** The `(n-1) x (n-1)` matrix left after deleting row `i` and column `j`. */
  function Minor(m: Matrix, i: nat, j: nat): (r: Matrix)
    requires IsSquare(m) && i < m.nRows && j < m.nRows
    ensures IsSquare(r) && r.nRows == m.nRows - 1
    ensures forall a: nat, b: nat :: a < r.nRows && b < r.nRows ==> Get(r, a, b) == Get(m, Skip(a, i), Skip(b, j))
  {
    var n := m.nRows - 1;
    Tabulate(n, n, (a: nat, b: nat) requires a < n && b < n => Get(m, Skip(a, i), Skip(b, j)))
  }

  // ---------------------------------------------------------------------------
  // Determinant

  /**
    `determinant`: the sole element of a `1 x 1` matrix, `ad - bc` of a
    `2 x 2` one, and otherwise the expansion along row 0 with alternating
    signs, each element of row 0 times the determinant of its minor.
   */
  function Determinant(m: Matrix): Fe
    requires IsSquare(m) && m.nRows >= 1
    decreases m.nRows, 1
  {
    if m.nRows == 1 then Get(m, 0, 0)
    else if m.nRows == 2 then Sub(Mul(Get(m, 0, 0), Get(m, 1, 1)), Mul(Get(m, 0, 1), Get(m, 1, 0)))
    else AlternatingSum(Expansion(m))
  }

  /** The terms of the expansion along row 0: element `(0, k)` times the determinant of the minor deleting row 0 and column `k`. */
  function Expansion(m: Matrix): (t: seq<Fe>)
    requires IsSquare(m) && m.nRows >= 2
    ensures |t| == m.nRows
    decreases m.nRows, 0
  {
    seq(m.nRows, k requires 0 <= k < m.nRows => Mul(Get(m, 0, k), Determinant(Minor(m, 0, k))))
  }

  /** `t[0] - t[1] + t[2] - ...`, accumulated left to right. */
  function AlternatingSum(t: seq<Fe>): Fe
  {
    if |t| == 0 then 0
    else if (|t| - 1) % 2 == 0 then Add(AlternatingSum(t[..|t| - 1]), t[|t| - 1])
    else Sub(AlternatingSum(t[..|t| - 1]), t[|t| - 1])
  }

  /** An alternating sum of zeros is zero. */
  lemma {:induction false} AlternatingSumZero(t: seq<Fe>)
    requires forall k :: 0 <= k < |t| ==> t[k] == 0
    ensures AlternatingSum(t) == 0
  {
    if |t| > 0 {
      AlternatingSumZero(t[..|t| - 1]);
    }
  }

  /** An alternating sum in which only the first term can be non-zero is that term. */
  lemma {:induction false} AlternatingSumFirst(t: seq<Fe>)
    requires |t| >= 1
    requires forall k :: 1 <= k < |t| ==> t[k] == 0
    ensures AlternatingSum(t) == t[0]
  {
    if |t| > 1 {
      var s := t[..|t| - 1];
      AlternatingSumFirst(s);
      AddUnits(AlternatingSum(s));
    } else {
      assert AlternatingSum(t[..0]) == 0;
    }
  }

  /** An alternating sum of three terms is `t0 - t1 + t2`. */
  lemma AlternatingSum3(t: seq<Fe>)
    requires |t| == 3
    ensures AlternatingSum(t) == Add(Sub(t[0], t[1]), t[2])
  {
    assert t[..2][..1] == t[..1] && t[..1][..0] == [];
    AddUnits(t[0]);
    assert AlternatingSum(t[..1]) == t[0];
    assert AlternatingSum(t[..2]) == Sub(t[0], t[1]);
    assert t[..3] == t;
  }

  /** An alternating sum of four terms is `t0 - t1 + t2 - t3`. */
  lemma AlternatingSum4(t: seq<Fe>)
    requires |t| == 4
    ensures AlternatingSum(t) == Sub(Add(Sub(t[0], t[1]), t[2]), t[3])
  {
    AlternatingSum3(t[..3]);
  }

  /** The determinant of a `2 x 2` minor of a `3 x 3` matrix, in the matrix's own elements. */
  lemma MinorDeterminant3(m: Matrix, r: nat, k: nat)
    requires IsSquare(m) && m.nRows == 3 && r < 3 && k < 3
    ensures Determinant(Minor(m, r, k)) ==
      Sub(Mul(Get(m, Skip(0, r), Skip(0, k)), Get(m, Skip(1, r), Skip(1, k))),
          Mul(Get(m, Skip(0, r), Skip(1, k)), Get(m, Skip(1, r), Skip(0, k))))
  {
    var mk := Minor(m, r, k);
    assert Get(mk, 0, 0) == Get(m, Skip(0, r), Skip(0, k)) && Get(mk, 1, 1) == Get(m, Skip(1, r), Skip(1, k));
    assert Get(mk, 0, 1) == Get(m, Skip(0, r), Skip(1, k)) && Get(mk, 1, 0) == Get(m, Skip(1, r), Skip(0, k));
  }

  /** The closed cofactor expansion of `[[a, b, c], [d, e, f], [g, h, i]]`: `a(ei - fh) - b(di - fg) + c(dh - eg)`. */
  function Det3(a: Fe, b: Fe, c: Fe, d: Fe, e: Fe, f: Fe, g: Fe, h: Fe, i: Fe): Fe
  {
    Add(Sub(Mul(a, Sub(Mul(e, i), Mul(f, h))), Mul(b, Sub(Mul(d, i), Mul(f, g)))), Mul(c, Sub(Mul(d, h), Mul(e, g))))
  }

  /** The recursive definition agrees with the closed cofactor expansion of a `3 x 3` determinant. */
  lemma Determinant3(m: Matrix)
    requires IsSquare(m) && m.nRows == 3
    ensures Determinant(m) ==
      Det3(Get(m, 0, 0), Get(m, 0, 1), Get(m, 0, 2), Get(m, 1, 0), Get(m, 1, 1), Get(m, 1, 2), Get(m, 2, 0), Get(m, 2, 1), Get(m, 2, 2))
  {
    var t := Expansion(m);
    MinorDeterminant3(m, 0, 0);
    MinorDeterminant3(m, 0, 1);
    MinorDeterminant3(m, 0, 2);
    AlternatingSum3(t);
  }

  /** The expansion of a `4 x 4` determinant along row 0, written out. */
  lemma Determinant4(m: Matrix)
    requires IsSquare(m) && m.nRows == 4
    ensures var t := Expansion(m); Determinant(m) == Sub(Add(Sub(t[0], t[1]), t[2]), t[3])
  {
    AlternatingSum4(Expansion(m));
  }

  /** A term of the expansion vanishes when its row-0 element or its minor's determinant does. */
  lemma TermZero(m: Matrix, k: nat)
    requires IsSquare(m) && m.nRows >= 2 && k < m.nRows
    requires Get(m, 0, k) == 0 || Determinant(Minor(m, 0, k)) == 0
    ensures Expansion(m)[k] == 0
  {
    MulUnits(Get(m, 0, k));
    MulUnits(Determinant(Minor(m, 0, k)));
  }

  /** A matrix with a row of zeros has determinant zero. */
  lemma {:induction false} DeterminantZeroRow(m: Matrix, r: nat)
    requires IsSquare(m) && m.nRows >= 1 && r < m.nRows
    requires forall j: nat :: j < m.nRows ==> Get(m, r, j) == 0
    ensures Determinant(m) == 0
    decreases m.nRows
  {
    var n := m.nRows;
    if n == 1 {
    } else if n == 2 {
      var a, b, c, d := Get(m, 0, 0), Get(m, 0, 1), Get(m, 1, 0), Get(m, 1, 1);
      MulUnits(a);
      MulUnits(b);
      MulUnits(c);
      MulUnits(d);
      AddUnits(0);
    } else {
      var t := Expansion(m);
      forall k | 0 <= k < n
        ensures t[k] == 0
      {
        if r == 0 {
          TermZero(m, k);
        } else {
          var mk := Minor(m, 0, k);
          var r' := r - 1;
          forall b: nat | b < mk.nRows
            ensures Get(mk, r', b) == 0
          {
            assert Get(mk, r', b) == Get(m, r, Skip(b, k));
          }
          DeterminantZeroRow(mk, r');
          TermZero(m, k);
        }
      }
      AlternatingSumZero(t);
    }
  }

  /**
    A matrix of size at least three whose last two rows are equal has
    determinant zero (the singular fixtures of sizes 5 to 8 are of this kind).
   */
  lemma {:induction false} DeterminantEqualLastRows(m: Matrix)
    requires IsSquare(m) && m.nRows >= 3
    requires Row(m, m.nRows - 2) == Row(m, m.nRows - 1)
    ensures Determinant(m) == 0
    decreases m.nRows, 1
  {
    var t := Expansion(m);
    forall k | 0 <= k < m.nRows
      ensures t[k] == 0
    {
      EqualLastRowsTerm(m, k);
    }
    AlternatingSumZero(t);
  }

  /** Each minor along row 0 keeps the two equal last rows, so each term of the expansion vanishes. */
  lemma {:induction false} EqualLastRowsTerm(m: Matrix, k: nat)
    requires IsSquare(m) && m.nRows >= 3 && k < m.nRows
    requires Row(m, m.nRows - 2) == Row(m, m.nRows - 1)
    ensures Expansion(m)[k] == 0
    decreases m.nRows, 0
  {
    var n := m.nRows;
    var mk := Minor(m, 0, k);
    MinorKeepsLastRows(m, k);
    if n == 3 {
      EqualRowsDeterminant2(mk);
    } else {
      DeterminantEqualLastRows(mk);
    }
    TermZero(m, k);
  }

  /** The last two rows of a minor along row 0 are the last two rows of the matrix, column `k` deleted. */
  lemma MinorKeepsLastRows(m: Matrix, k: nat)
    requires IsSquare(m) && m.nRows >= 3 && k < m.nRows
    requires Row(m, m.nRows - 2) == Row(m, m.nRows - 1)
    ensures Row(Minor(m, 0, k), m.nRows - 3) == Row(Minor(m, 0, k), m.nRows - 2)
  {
    var mk := Minor(m, 0, k);
    var r := m.nRows - 3;
    forall b: nat | b < mk.nRows
      ensures Row(mk, r)[b] == Row(mk, r + 1)[b]
    {
      assert Row(mk, r)[b] == Get(m, r + 1, Skip(b, k)) == Row(m, r + 1)[Skip(b, k)];
      assert Row(mk, r + 1)[b] == Get(m, r + 2, Skip(b, k)) == Row(m, r + 2)[Skip(b, k)];
    }
  }

  /** A `2 x 2` matrix with two equal rows has determinant zero. */
  lemma EqualRowsDeterminant2(m: Matrix)
    requires IsSquare(m) && m.nRows == 2 && Row(m, 0) == Row(m, 1)
    ensures Determinant(m) == 0
  {
    var x, y := Get(m, 0, 0), Get(m, 0, 1);
    assert Get(m, 1, 0) == x && Get(m, 1, 1) == y by {
      assert Row(m, 0)[0] == Row(m, 1)[0] && Row(m, 0)[1] == Row(m, 1)[1];
    }
    MulCommutative(x, y);
    AddUnits(Mul(x, y));
  }

  /** Deleting row and column `i` from an identity matrix leaves the identity one size smaller. */
  lemma MinorOfIdentity(n: nat, i: nat)
    requires i < n
    ensures Minor(Identity(n), i, i) == Identity(n - 1)
  {
    var mi := Minor(Identity(n), i, i);
    forall a: nat, b: nat | a < n - 1 && b < n - 1
      ensures Get(mi, a, b) == Get(Identity(n - 1), a, b)
    {
      assert Get(mi, a, b) == Get(Identity(n), Skip(a, i), Skip(b, i));
    }
    Extensionality(mi, Identity(n - 1));
  }

  /** The identity matrix has determinant one. */
  lemma {:induction false} DeterminantIdentity(n: nat)
    requires n >= 1
    ensures Determinant(Identity(n)) == 1
  {
    var id := Identity(n);
    if n == 1 {
      assert Determinant(id) == Get(id, 0, 0) == 1;
    } else if n == 2 {
      assert Get(id, 0, 0) == 1 && Get(id, 1, 1) == 1 && Get(id, 0, 1) == 0 && Get(id, 1, 0) == 0;
      MulUnits(1);
      MulUnits(0);
      AddUnits(1);
      assert Determinant(id) == Sub(Mul(1, 1), Mul(0, 0));
    } else {
      DeterminantIdentity(n - 1);
      DeterminantIdentityStep(n);
    }
  }

  /** The expansion of an identity of size `n >= 3` is its first term, the determinant of the identity of size `n - 1`. */
  lemma DeterminantIdentityStep(n: nat)
    requires n >= 3 && Determinant(Identity(n - 1)) == 1
    ensures Determinant(Identity(n)) == 1
  {
    var id := Identity(n);
    var t := Expansion(id);
    forall k | 1 <= k < n
      ensures t[k] == 0
    {
      assert Get(id, 0, k) == 0;
      TermZero(id, k);
    }
    AlternatingSumFirst(t);
    MinorOfIdentity(n, 0);
    assert Get(id, 0, 0) == 1;
    MulUnits(1);
    assert t[0] == Mul(1, Determinant(Identity(n - 1)));
    assert Determinant(id) == AlternatingSum(t);
  }

  // ---------------------------------------------------------------------------
  // Cofactors, minors and the inverse

  /**
    `cofactors`: entry `(i, j)` is `(-1)^(i+j)`. The elements of `m` play no
    part; only its size does.
   */
  function Cofactors(m: Matrix): (c: Matrix)
    requires IsSquare(m)
    ensures IsSquare(c) && c.nRows == m.nRows
    ensures forall i: nat, j: nat :: i < m.nRows && j < m.nRows ==> Get(c, i, j) == Pow(Neg(1), i + j)
  {
    Tabulate(m.nRows, m.nRows, (i: nat, j: nat) => Pow(Neg(1), i + j))
  }

  /** The cofactor matrix is the checkerboard of `1` and `-1`, with `1` where `i + j` is even. */
  lemma CofactorsCheckerboard(m: Matrix, i: nat, j: nat)
    requires IsSquare(m) && i < m.nRows && j < m.nRows
    ensures Get(Cofactors(m), i, j) == if (i + j) % 2 == 0 then 1 else Neg(1)
  {
    PowNegOne(i + j);
  }

  /** `minors`: entry `(i, j)` is the determinant of the minor deleting row `i` and column `j`. */
  function Minors(m: Matrix): (r: Matrix)
    requires IsSquare(m) && m.nRows >= 2
    ensures IsSquare(r) && r.nRows == m.nRows
    ensures forall i: nat, j: nat :: i < m.nRows && j < m.nRows ==> Get(r, i, j) == Determinant(Minor(m, i, j))
  {
    Tabulate(m.nRows, m.nRows, (i: nat, j: nat) requires i < m.nRows && j < m.nRows => Determinant(Minor(m, i, j)))
  }

  /**
    `inverse`: the inverse of the sole element for a `1 x 1` matrix; otherwise
    the transpose of the minors multiplied element-wise by the cofactor
    matrix, scaled by `1 / determinant`. The source's `inverse()` returns a
    bare matrix (poseidon-paramgen/src/matrix.rs:236, 250); what it does with a
    singular matrix is decided in `square.rs`, which is not part of this model,
    so a non-zero determinant is a precondition here. `CheckedInverse` is the
    form that reports a singular matrix as an error.
   */
  function Inverse(m: Matrix): (r: Matrix)
    requires IsSquare(m) && m.nRows >= 1 && Determinant(m) != 0
    ensures IsSquare(r) && r.nRows == m.nRows
  {
    if m.nRows == 1 then FromVec(1, [Inv(Get(m, 0, 0))])
    else ScalarMul(Transpose(Hadamard(Minors(m), Cofactors(m)).value), Div(1, Determinant(m)))
  }

  /** Entry `(i, j)` of the inverse is the signed minor at `(j, i)` divided by the determinant. */
  lemma InverseEntry(m: Matrix, i: nat, j: nat)
    requires IsSquare(m) && m.nRows >= 2 && Determinant(m) != 0
    requires i < m.nRows && j < m.nRows
    ensures Get(Inverse(m), i, j) == Mul(Mul(Determinant(Minor(m, j, i)), Pow(Neg(1), j + i)), Div(1, Determinant(m)))
  {
    var h := Hadamard(Minors(m), Cofactors(m)).value;
    assert Get(Transpose(h), i, j) == Get(h, j, i);
  }

  /**
    The inverse with the singular case as a value: `SingularMatrix` exactly
    when the determinant is zero, otherwise `Inverse(m)`.
   */
  function CheckedInverse(m: Matrix): (r: Result<Matrix>)
    requires IsSquare(m) && m.nRows >= 1
    ensures r.Err? <==> Determinant(m) == 0
    ensures r.Err? ==> r.error == SingularMatrix
    ensures r.Ok? ==> IsSquare(r.value) && r.value.nRows == m.nRows
  {
    if Determinant(m) == 0 then Err(SingularMatrix) else Ok(Inverse(m))
  }

  /** A `2 x 2` matrix with ones on the diagonal and zeros off it is the identity. */
  lemma IdentityEntries2(a: Matrix)
    requires IsSquare(a) && a.nRows == 2
    requires Get(a, 0, 0) == 1 && Get(a, 0, 1) == 0 && Get(a, 1, 0) == 0 && Get(a, 1, 1) == 1
    ensures a == Identity(2)
  {
    var id := Identity(2);
    assert Get(id, 0, 0) == 1 && Get(id, 0, 1) == 0 && Get(id, 1, 0) == 0 && Get(id, 1, 1) == 1;
    assert a.elements == [1, 0, 0, 1] == id.elements;
  }

  /** A `1 x 1` matrix whose entry is one is the identity. */
  lemma IdentityEntries1(a: Matrix)
    requires IsSquare(a) && a.nRows == 1 && Get(a, 0, 0) == 1
    ensures a == Identity(1)
  {
    var id := Identity(1);
    assert Get(id, 0, 0) == 1;
    assert a.elements == [1] == id.elements;
  }

  /** The inverse of a `1 x 1` matrix holds the reciprocal of its entry. */
  lemma InverseEntry1(m: Matrix)
    requires IsSquare(m) && m.nRows == 1 && Determinant(m) != 0
    ensures Get(Inverse(m), 0, 0) == Inv(Get(m, 0, 0))
  {
  }

  /** Two `1 x 1` matrices whose entries are reciprocal multiply to the identity, in either order. */
  lemma Reciprocal1(m: Matrix, inv: Matrix)
    requires IsSquare(m) && m.nRows == 1 && IsSquare(inv) && inv.nRows == 1
    requires Mul(Get(m, 0, 0), Get(inv, 0, 0)) == 1
    ensures SquareMul(m, inv) == Identity(1)
    ensures SquareMul(inv, m) == Identity(1)
  {
    DotSmall(Row(m, 0), Column(inv, 0));
    DotSmall(Row(inv, 0), Column(m, 0));
    MulCommutative(Get(m, 0, 0), Get(inv, 0, 0));
    IdentityEntries1(SquareMul(m, inv));
    IdentityEntries1(SquareMul(inv, m));
  }

  /** A `1 x 1` matrix times its inverse, in either order, is the identity. */
  lemma InverseOne(m: Matrix)
    requires IsSquare(m) && m.nRows == 1 && Determinant(m) != 0
    ensures SquareMul(m, Inverse(m)) == Identity(1)
    ensures SquareMul(Inverse(m), m) == Identity(1)
  {
    InverseEntry1(m);
    Reciprocal1(m, Inverse(m));
  }

  /** The `1 x 1` minor of a `2 x 2` matrix is the entry opposite the deleted row and column. */
  lemma MinorDeterminant2(m: Matrix, i: nat, j: nat)
    requires IsSquare(m) && m.nRows == 2 && i < 2 && j < 2
    ensures Determinant(Minor(m, i, j)) == Get(m, 1 - i, 1 - j)
  {
    var mij := Minor(m, i, j);
    assert Determinant(mij) == Get(mij, 0, 0) == Get(m, Skip(0, i), Skip(0, j));
  }

  /**
    `inv` is `[[d, -b], [-c, a]]` scaled by `s`, where `m` is `[[a, b], [c, d]]`:
    the shape of the inverse of a `2 x 2` matrix.
   */
  predicate AdjugateScaled2(m: Matrix, inv: Matrix, s: Fe)
    requires IsSquare(m) && m.nRows == 2
  {
    IsSquare(inv) && inv.nRows == 2 &&
    Get(inv, 0, 0) == Mul(Get(m, 1, 1), s) && Get(inv, 0, 1) == Mul(Neg(Get(m, 0, 1)), s) &&
    Get(inv, 1, 0) == Mul(Neg(Get(m, 1, 0)), s) && Get(inv, 1, 1) == Mul(Get(m, 0, 0), s)
  }

  /** The inverse of `[[a, b], [c, d]]` is `[[d, -b], [-c, a]]` times `1 / (ad - bc)`. */
  lemma InverseAdjugate2(m: Matrix)
    requires IsSquare(m) && m.nRows == 2 && Determinant(m) != 0
    ensures AdjugateScaled2(m, Inverse(m), Div(1, Determinant(m)))
  {
    forall i: nat, j: nat | i < 2 && j < 2
      ensures Get(Inverse(m), i, j) ==
        Mul(Mul(Get(m, 1 - j, 1 - i), Pow(Neg(1), j + i)), Div(1, Determinant(m)))
    {
      InverseEntry(m, i, j);
      MinorDeterminant2(m, j, i);
    }
    var b, c := Get(m, 0, 1), Get(m, 1, 0);
    PowNegOne(0);
    PowNegOne(1);
    PowNegOne(2);
    MulUnits(Get(m, 0, 0));
    MulUnits(Get(m, 1, 1));
    MulUnits(b);
    MulUnits(c);
    MulNeg(b, 1);
    MulNeg(c, 1);
  }

  /** An entry of the product of two `2 x 2` matrices, written out. */
  lemma ProductEntry2(p: Matrix, q: Matrix, i: nat, j: nat)
    requires IsSquare(p) && IsSquare(q) && p.nRows == q.nRows == 2 && i < 2 && j < 2
    ensures Get(SquareMul(p, q), i, j) == Add(Mul(Get(p, i, 0), Get(q, 0, j)), Mul(Get(p, i, 1), Get(q, 1, j)))
  {
    DotSmall(Row(p, i), Column(q, j));
  }

  /** `1 / det` is the inverse of the determinant. */
  lemma ScaleIsInverse(m: Matrix)
    requires IsSquare(m) && m.nRows >= 1 && Determinant(m) != 0
    ensures Mul(Determinant(m), Div(1, Determinant(m))) == 1
  {
    MulUnits(Inv(Determinant(m)));
  }

  /**
    The field identities behind `[[a, b], [c, d]]` times `[[d, -b], [-c, a]] s`,
    when `s` inverts `ad - bc`: ones on the diagonal, zeros off it.
   */
  lemma RightAdjugateIdentities(a: Fe, b: Fe, c: Fe, d: Fe, s: Fe)
    requires Mul(Sub(Mul(a, d), Mul(b, c)), s) == 1
    ensures Add(Mul(a, Mul(d, s)), Mul(b, Mul(Neg(c), s))) == 1
    ensures Add(Mul(a, Mul(Neg(b), s)), Mul(b, Mul(a, s))) == 0
    ensures Add(Mul(c, Mul(d, s)), Mul(d, Mul(Neg(c), s))) == 0
    ensures Add(Mul(c, Mul(Neg(b), s)), Mul(d, Mul(a, s))) == 1
  {
    MulUnits(s);
    CrossTerms(a, d, b, c, s);
    AddCommutative(Mul(a, Mul(Neg(b), s)), Mul(b, Mul(a, s)));
    CrossTerms(b, a, a, b, s);
    MulCommutative(a, b);
    AddUnits(Mul(a, b));
    CrossTerms(c, d, d, c, s);
    MulCommutative(c, d);
    AddUnits(Mul(c, d));
    AddCommutative(Mul(c, Mul(Neg(b), s)), Mul(d, Mul(a, s)));
    CrossTerms(d, a, c, b, s);
    MulCommutative(a, d);
    MulCommutative(b, c);
  }

  /** The same identities with the scaled adjugate on the left. */
  lemma LeftAdjugateIdentities(a: Fe, b: Fe, c: Fe, d: Fe, s: Fe)
    requires Mul(Sub(Mul(a, d), Mul(b, c)), s) == 1
    ensures Add(Mul(Mul(d, s), a), Mul(Mul(Neg(b), s), c)) == 1
    ensures Add(Mul(Mul(d, s), b), Mul(Mul(Neg(b), s), d)) == 0
    ensures Add(Mul(Mul(Neg(c), s), a), Mul(Mul(a, s), c)) == 0
    ensures Add(Mul(Mul(Neg(c), s), b), Mul(Mul(a, s), d)) == 1
  {
    var nb, nc := Mul(Neg(b), s), Mul(Neg(c), s);
    MulUnits(s);
    MulCommutative(Mul(d, s), a);
    MulCommutative(nb, c);
    CrossTerms(a, d, c, b, s);
    MulCommutative(b, c);
    MulCommutative(Mul(d, s), b);
    MulCommutative(nb, d);
    CrossTerms(b, d, d, b, s);
    MulCommutative(b, d);
    AddUnits(Mul(b, d));
    MulCommutative(nc, a);
    MulCommutative(Mul(a, s), c);
    AddCommutative(Mul(a, nc), Mul(c, Mul(a, s)));
    CrossTerms(c, a, a, c, s);
    MulCommutative(a, c);
    AddUnits(Mul(a, c));
    MulCommutative(nc, b);
    MulCommutative(Mul(a, s), d);
    AddCommutative(Mul(b, nc), Mul(d, Mul(a, s)));
    CrossTerms(d, a, b, c, s);
    MulCommutative(a, d);
  }

  /** `m` times its scaled adjugate is the identity when the scale inverts the determinant. */
  lemma RightAdjugate2(m: Matrix, inv: Matrix, s: Fe)
    requires IsSquare(m) && m.nRows == 2 && AdjugateScaled2(m, inv, s)
    requires Mul(Determinant(m), s) == 1
    ensures SquareMul(m, inv) == Identity(2)
  {
    RightAdjugateIdentities(Get(m, 0, 0), Get(m, 0, 1), Get(m, 1, 0), Get(m, 1, 1), s);
    ProductEntry2(m, inv, 0, 0);
    ProductEntry2(m, inv, 0, 1);
    ProductEntry2(m, inv, 1, 0);
    ProductEntry2(m, inv, 1, 1);
    IdentityEntries2(SquareMul(m, inv));
  }

  /** The scaled adjugate times `m` is the identity when the scale inverts the determinant. */
  lemma LeftAdjugate2(m: Matrix, inv: Matrix, s: Fe)
    requires IsSquare(m) && m.nRows == 2 && AdjugateScaled2(m, inv, s)
    requires Mul(Determinant(m), s) == 1
    ensures SquareMul(inv, m) == Identity(2)
  {
    LeftAdjugateIdentities(Get(m, 0, 0), Get(m, 0, 1), Get(m, 1, 0), Get(m, 1, 1), s);
    ProductEntry2(inv, m, 0, 0);
    ProductEntry2(inv, m, 0, 1);
    ProductEntry2(inv, m, 1, 0);
    ProductEntry2(inv, m, 1, 1);
    IdentityEntries2(SquareMul(inv, m));
  }

  /** A `2 x 2` matrix with non-zero determinant times its inverse, in either order, is the identity. */
  lemma InverseTwo(m: Matrix)
    requires IsSquare(m) && m.nRows == 2 && Determinant(m) != 0
    ensures SquareMul(m, Inverse(m)) == Identity(2)
    ensures SquareMul(Inverse(m), m) == Identity(2)
  {
    var inv, s := Inverse(m), Div(1, Determinant(m));
    InverseAdjugate2(m);
    ScaleIsInverse(m);
    RightAdjugate2(m, inv, s);
    LeftAdjugate2(m, inv, s);
  }

  /**
    The determinant of `[[d, -b], [-c, a]] s`, the scaled adjugate of
    `[[a, b], [c, d]]`, is `(ad - bc) s s`.
   */
  lemma AdjugateDeterminant2(a: Fe, b: Fe, c: Fe, d: Fe, s: Fe)
    ensures Sub(Mul(Mul(d, s), Mul(a, s)), Mul(Mul(Neg(b), s), Mul(Neg(c), s))) == Mul(Sub(Mul(a, d), Mul(b, c)), Mul(s, s))
  {
    var t := Mul(s, s);
    MulCommutative(Mul(d, s), Mul(a, s));
    ScaledProduct(a, d, s);
    ScaledProduct(Neg(b), Neg(c), s);
    NegMulLeft(b, Mul(Neg(c), t));
    SubIsAddNeg(Mul(Mul(d, s), Mul(a, s)), Mul(Mul(Neg(b), s), Mul(Neg(c), s)));
    NegNeg(Mul(b, Mul(Neg(c), t)));
    CrossTerms(a, d, b, c, t);
  }

  /** The determinant of the inverse of a `1 x 1` matrix is the reciprocal of its determinant. */
  lemma InverseDeterminant1(m: Matrix)
    requires IsSquare(m) && m.nRows == 1 && Determinant(m) != 0
    ensures Determinant(Inverse(m)) == Div(1, Determinant(m))
  {
    InverseEntry1(m);
    MulUnits(Inv(Determinant(m)));
  }

  /** The determinant of the inverse of a `2 x 2` matrix is the reciprocal of its determinant. */
  lemma InverseDeterminant2(m: Matrix)
    requires IsSquare(m) && m.nRows == 2 && Determinant(m) != 0
    ensures Determinant(Inverse(m)) == Div(1, Determinant(m))
  {
    var det, s := Determinant(m), Div(1, Determinant(m));
    InverseAdjugate2(m);
    ScaleIsInverse(m);
    AdjugateDeterminant2(Get(m, 0, 0), Get(m, 0, 1), Get(m, 1, 0), Get(m, 1, 1), s);
    MulAssociative(det, s, s);
    MulUnits(s);
  }

  /** For sizes 1 and 2, the inverse is invertible and its determinant is the reciprocal of the determinant. */
  lemma InverseDeterminant(m: Matrix)
    requires IsSquare(m) && 1 <= m.nRows <= 2 && Determinant(m) != 0
    ensures Div(1, Determinant(m)) != 0
    ensures Determinant(Inverse(m)) == Div(1, Determinant(m))
  {
    ScaleIsInverse(m);
    MulUnits(Determinant(m));
    if m.nRows == 1 {
      InverseDeterminant1(m);
    } else {
      InverseDeterminant2(m);
    }
  }

  /** `1 / (1 / d) == d` for a non-zero `d`. */
  lemma Reciprocal(d: Fe)
    requires d != 0
    ensures Div(1, d) != 0 && Div(1, Div(1, d)) == d
  {
    var s := Div(1, d);
    MulUnits(Inv(d));
    MulCommutative(d, s);
    MulUnits(d);
    InvUnique(s, d);
  }

  /** Scaling by `s` is undone by scaling by `d` when `ds == 1`, also through two negations. */
  lemma Unscale(x: Fe, s: Fe, d: Fe)
    requires Mul(d, s) == 1
    ensures Mul(Mul(x, s), d) == x
    ensures Mul(Neg(Mul(Neg(x), s)), d) == x
  {
    MulAssociative(x, s, d);
    MulCommutative(s, d);
    MulUnits(x);
    NegMulLeft(x, s);
    NegNeg(Mul(x, s));
  }

  /** Taking the scaled adjugate twice, with scales that multiply to one, gives the matrix back. */
  lemma ScaledAdjugateTwice(m: Matrix, inv: Matrix, back: Matrix, s: Fe, t: Fe)
    requires IsSquare(m) && m.nRows == 2 && AdjugateScaled2(m, inv, s) && AdjugateScaled2(inv, back, t)
    requires Mul(t, s) == 1
    ensures back == m
  {
    Unscale(Get(m, 0, 0), s, t);
    Unscale(Get(m, 0, 1), s, t);
    Unscale(Get(m, 1, 0), s, t);
    Unscale(Get(m, 1, 1), s, t);
    forall i: nat, j: nat | i < 2 && j < 2
      ensures Get(back, i, j) == Get(m, i, j)
    {
    }
    Extensionality(back, m);
  }

  /** The inverse of the inverse of an invertible `1 x 1` matrix is the matrix. */
  lemma InverseInvolution1(m: Matrix)
    requires IsSquare(m) && m.nRows == 1 && Determinant(m) != 0
    ensures Determinant(Inverse(m)) != 0
    ensures Inverse(Inverse(m)) == m
  {
    var inv := Inverse(m);
    InverseDeterminant1(m);
    Reciprocal(Determinant(m));
    InverseEntry1(m);
    InverseEntry1(inv);
    MulUnits(Inv(Determinant(m)));
    var back := Inverse(inv);
    assert Get(back, 0, 0) == Get(m, 0, 0);
    forall i: nat, j: nat | i < 1 && j < 1
      ensures Get(back, i, j) == Get(m, i, j)
    {
    }
    Extensionality(back, m);
  }

  /** The inverse of the inverse of an invertible `2 x 2` matrix is the matrix. */
  lemma InverseInvolution2(m: Matrix)
    requires IsSquare(m) && m.nRows == 2 && Determinant(m) != 0
    ensures Determinant(Inverse(m)) != 0
    ensures Inverse(Inverse(m)) == m
  {
    var det, inv := Determinant(m), Inverse(m);
    var s := Div(1, det);
    InverseDeterminant2(m);
    Reciprocal(det);
    InverseAdjugate2(m);
    InverseAdjugate2(inv);
    ScaleIsInverse(m);
    ScaledAdjugateTwice(m, inv, Inverse(inv), s, det);
  }

  /**
    For sizes 1 and 2, inverting twice gives the matrix back: the inverse is
    invertible, and its inverse is the original matrix.
   */
  lemma InverseInvolution(m: Matrix)
    requires IsSquare(m) && 1 <= m.nRows <= 2 && Determinant(m) != 0
    ensures Determinant(Inverse(m)) != 0
    ensures Inverse(Inverse(m)) == m
  {
    if m.nRows == 1 {
      InverseInvolution1(m);
    } else {
      InverseInvolution2(m);
    }
  }

  /** Deleting row `j` and column `i != j` from an identity matrix leaves a row of zeros. */
  lemma MinorOfIdentityOffDiagonal(n: nat, j: nat, i: nat)
    requires i < n && j < n && i != j
    ensures Determinant(Minor(Identity(n), j, i)) == 0
  {
    var mk := Minor(Identity(n), j, i);
    var r' := if i < j then i else i - 1;
    assert Skip(r', j) == i;
    forall b: nat | b < mk.nRows
      ensures Get(mk, r', b) == 0
    {
      assert Get(mk, r', b) == Get(Identity(n), i, Skip(b, i));
    }
    DeterminantZeroRow(mk, r');
  }

  /** One is its own reciprocal, so dividing by a determinant of one changes nothing. */
  lemma DivByOne()
    ensures Inv(1) == 1 && Div(1, 1) == 1
  {
    MulUnits(1);
    InvUnique(1, 1);
  }

  /** Deleting row and column `i` from an identity of size at least two leaves determinant one. */
  lemma MinorOfIdentityDiagonal(n: nat, j: nat, i: nat)
    requires n >= 2 && i < n && j == i
    ensures Determinant(Minor(Identity(n), j, i)) == 1
  {
    var mi := Minor(Identity(n), j, i);
    MinorOfIdentity(n, i);
    DeterminantIdentity(n - 1);
    calc {
      Determinant(mi);
      { assert mi == Identity(n - 1); }
      Determinant(Identity(n - 1));
    }
  }

  /** An even power of `-1` is one. */
  lemma PowNegOneEven(j: nat, i: nat)
    requires j == i
    ensures Pow(Neg(1), j + i) == 1
  {
    PowNegOne(j + i);
  }

  /** The signed minors of an identity: one on the diagonal, zero off it. */
  lemma SignedMinorOfIdentity(n: nat, i: nat, j: nat)
    requires n >= 2 && i < n && j < n
    ensures Mul(Determinant(Minor(Identity(n), j, i)), Pow(Neg(1), j + i)) == if i == j then 1 else 0
  {
    if i == j {
      MinorOfIdentityDiagonal(n, j, i);
      PowNegOneEven(j, i);
      MulUnits(1);
    } else {
      MinorOfIdentityOffDiagonal(n, j, i);
      MulUnits(Pow(Neg(1), j + i));
    }
  }

  /** Entry `(i, j)` of the inverse of an identity of size at least two is the identity's entry. */
  lemma InverseIdentityEntry(n: nat, i: nat, j: nat)
    requires n >= 2 && i < n && j < n
    requires Determinant(Identity(n)) == 1
    ensures Get(Inverse(Identity(n)), i, j) == Get(Identity(n), i, j)
  {
    var id := Identity(n);
    InverseEntry(id, i, j);
    DivByOne();
    SignedMinorOfIdentity(n, i, j);
    var e: Fe := if i == j then 1 else 0;
    MulUnits(e);
    assert Get(Inverse(id), i, j) == Mul(e, 1);
  }

  /** The identity of size one is its own inverse. */
  lemma InverseIdentityOne()
    requires Determinant(Identity(1)) == 1
    ensures Inverse(Identity(1)) == Identity(1)
  {
    InverseEntry1(Identity(1));
    DivByOne();
    IdentityEntries1(Inverse(Identity(1)));
  }

  /** The identity has determinant one and is its own inverse. */
  lemma InverseIdentity(n: nat)
    requires n >= 1
    ensures Determinant(Identity(n)) == 1
    ensures Inverse(Identity(n)) == Identity(n)
  {
    var id := Identity(n);
    DeterminantIdentity(n);
    if n == 1 {
      InverseIdentityOne();
    } else {
      forall i: nat, j: nat | i < n && j < n
        ensures Get(Inverse(id), i, j) == Get(id, i, j)
      {
        InverseIdentityEntry(n, i, j);
      }
      Extensionality(Inverse(id), id);
    }
  }
}
