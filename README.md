# Poseidon parameter generation: matrices and round constants

This project models the exact matrix algebra behind the parameter generator of the Poseidon permutation
(poseidon377). It covers three pieces of code:

- the matrix algebra of `poseidon-paramgen`: flattening, dot product, the dimension-checked `mat_mul`,
  the square-matrix product and the scalar product. It also covers the matrix behaviour that the file's
  tests pin down: row-major construction, transpose, Hadamard product, identity, determinant, cofactors
  and inverse;
- the `ArcMatrix` and `OptimizedArcMatrix` wrappers of `poseidon-parameters`, which delegate to a
  wrapped matrix and overwrite one element in place;
- the round-constant generation of `poseidon-paramgen`. It draws `total rounds * t` constants from a
  labelled, domain-separated transcript and lays them out one round per row. It also covers the
  conversion of the round constants into nested rows.

## Files

- `field.dfy` (module `Field`): the prime field, as integers modulo the prime `P = 101`. It defines
  addition, subtraction, negation, multiplication, inversion by the extended Euclidean algorithm,
  division and powers. The algebraic laws are lemmas.
- `matrix.dfy` (module `Matrices`): the matrix type, which is `(nRows, nCols, elements)` with
  `|elements| == nRows * nCols`, stored row-major. It defines `Flatten`, `Dot`, `Transpose`,
  `Hadamard`, `ScalarMul`, `MatMul`, `SquareMul` and `Identity`, together with their lemmas.
- `square.dfy` (module `SquareMatrices`): the square-matrix operations. It defines construction from a
  flat vector, minors, the determinant by cofactor expansion along row 0, the sign matrix
  `cofactors`, the inverse and the checked inverse, together with their lemmas.
- `fixtures.dfy` (module `Fixtures`): the concrete matrices of the unit tests and the values they must
  have, proved as lemmas.
- `arc_matrix.dfy` (module `ArcMatrices`): the two wrapper classes, with the in-place `SetElement`.
- `round_constants.dfy` (module `RoundConstants`): the transcript as a class, plus `Generate`, its
  specification `Generated`, the layout lemmas and the nested-loop conversion `IntoRows`.

The field `F` of the source is generic over arkworks' `PrimeField`. Here it is the concrete prime
`P = 101`. That is large enough for every constant of the unit-test fixtures (up to 61) to be
represented without wrap-around.

## Model

| member | source | states |
|---|---|---|
| Matrices.Flatten | poseidon-paramgen/src/matrix.rs:12-15 | no contract of its own: `flatten` concatenates the rows in order; its length is stated by Matrices.FlattenLength, the position of each element by Matrices.FlattenAt and the round trip with `rows()` by Matrices.FlattenRows |
| Matrices.FlattenLength | poseidon-paramgen/src/matrix.rs:12-15 | flattening rows of equal width `w` gives `|rows| * w` elements |
| Matrices.FlattenAt | poseidon-paramgen/src/matrix.rs:12-15 | after flattening, element `j` of row `i` sits at position `i * w + j` |
| Matrices.New | poseidon-paramgen/src/matrix.rs:75 | no contract of its own: requires exactly `n_rows * n_cols` elements and holds them in row-major order; the layout is stated by Matrices.ElementPosition |
| Matrices.Get | poseidon-paramgen/src/matrix.rs:105-112 | no contract of its own: `get_element(i, j)` for `i < n_rows`, `j < n_cols` reads flat element `i * n_cols + j`; that this covers every element exactly once is stated by Matrices.ElementPosition, and the rows and columns it yields by Matrices.Row and Matrices.Column |
| Matrices.Set | poseidon-parameters/src/arc_matrix.rs:45-47 | overwriting `(i, j)` keeps the shape, puts `v` at `(i, j)` and leaves every other element as it was |
| Matrices.ElementPosition | poseidon-paramgen/src/matrix.rs:279-310 | row-major layout: flat element `k` is element `(k / n_cols, k % n_cols)` |
| Matrices.Row | poseidon-paramgen/src/matrix.rs:36-37 | row `i` has `n_cols` entries, entry `j` being element `(i, j)` |
| Matrices.Column | poseidon-paramgen/src/matrix.rs:40-44 | column `j` has `n_rows` entries, entry `i` being element `(i, j)` |
| Matrices.Rows | poseidon-paramgen/src/matrix.rs:62-64 | `rows()` yields `n_rows` sequences, the `i`-th being row `i` |
| Matrices.FlattenRows | poseidon-paramgen/src/round_constants.rs:38-50 | flattening the rows of a matrix gives back its row-major elements, so the nested conversion loses nothing |
| Matrices.Dot | poseidon-paramgen/src/matrix.rs:17-24 | no contract of its own: requires vectors of equal length (the source zips them); its value is stated by Matrices.DotIsSumOfProducts against an independent sum, with Matrices.DotSymmetric and Matrices.DotUnit |
| Matrices.DotIsSumOfProducts | poseidon-paramgen/src/matrix.rs:17-24 | for vectors of equal length the dot product is the sum of the products `a[k] * b[k]` |
| Matrices.DotSymmetric | poseidon-paramgen/src/matrix.rs:17-24 | the dot product does not depend on the order of its arguments |
| Matrices.DotUnit | poseidon-paramgen/src/matrix.rs:17-24 | the dot product with the `k`-th unit vector selects component `k` |
| Matrices.Transpose | poseidon-paramgen/src/matrix.rs:181-219 | the transpose swaps the dimensions, keeps the element count and moves `(i, j)` to `(j, i)` |
| Matrices.TransposeInvolution | poseidon-paramgen/src/matrix.rs:181-219 | transposing twice gives the original matrix |
| Matrices.RowOfTranspose | poseidon-paramgen/src/matrix.rs:40-42 | row `j` of the transpose is column `j` of the original |
| Matrices.Hadamard | poseidon-paramgen/src/matrix.rs:160-179 | fails with a dimension error exactly when the shapes differ; otherwise keeps the shape and multiplies entry by entry |
| Matrices.HadamardCommutative | poseidon-paramgen/src/matrix.rs:160-179 | the Hadamard product (success or error) does not depend on argument order |
| Matrices.ScalarMul | poseidon-paramgen/src/matrix.rs:87-96 | keeps the square shape and multiplies every element by the scalar |
| Matrices.ScalarMulOne | poseidon-paramgen/src/matrix.rs:87-96 | multiplying by 1 leaves the matrix unchanged |
| Matrices.ScalarMulTwice | poseidon-paramgen/src/matrix.rs:87-96 | scaling by `s` then `t` equals scaling by `s * t` |
| Matrices.ProductRowsAt | poseidon-paramgen/src/matrix.rs:60-75 | the flattened rows-times-transposed-columns table has `lhs.n_rows * rhs.n_cols` entries, entry `i * rhs.n_cols + j` being `row i · column j` |
| Matrices.MatMul | poseidon-paramgen/src/matrix.rs:53-76 | fails with a dimension error exactly when `lhs.n_cols != rhs.n_rows`; otherwise returns an `lhs.n_rows x rhs.n_cols` matrix whose `(i, j)` entry is the dot product of lhs row `i` with rhs column `j` |
| Matrices.SquareMul | poseidon-paramgen/src/matrix.rs:26-51 | the square product is infallible, keeps the size and its `(i, j)` entry is row `i` · column `j` |
| Matrices.Identity | poseidon-paramgen/src/matrix.rs:105-112 | the identity is square with ones on the diagonal and zeros elsewhere |
| Matrices.MulIdentityRight | poseidon-paramgen/src/matrix.rs:114-130 | `m * I == m` for every square matrix |
| Matrices.MulIdentityLeft | poseidon-paramgen/src/matrix.rs:114-130 | `I * m == m` for every square matrix |
| SquareMatrices.FromVec | poseidon-paramgen/src/matrix.rs:279-290 | `from_vec` of `n * n` elements is the `n x n` matrix holding exactly those elements |
| SquareMatrices.Minor | poseidon-paramgen/src/matrix.rs:312-337 | the minor drops row `i` and column `j`: an `(n-1) x (n-1)` matrix of the remaining entries in order |
| SquareMatrices.Determinant | poseidon-paramgen/src/matrix.rs:312-337 | no contract of its own: defined for square matrices of size `n >= 1` by expansion along row 0; its values are stated by SquareMatrices.Determinant3 (closed form), SquareMatrices.DeterminantIdentity, SquareMatrices.DeterminantZeroRow, SquareMatrices.DeterminantEqualLastRows and the determinant fixtures |
| SquareMatrices.Expansion | poseidon-paramgen/src/matrix.rs:312-337 | its contract states only that the row-0 expansion of an `n x n` matrix has exactly `n` terms; term `k` (entry `(0, k)` times the determinant of the minor at `(0, k)`) is characterised by SquareMatrices.TermZero, SquareMatrices.Determinant3 and the 4x4 fixture's Fixtures.FourByFourTerm |
| SquareMatrices.AlternatingSum | poseidon-paramgen/src/matrix.rs:324-336 | no contract of its own: `t0 - t1 + t2 - ...`; the 3- and 4-term closed forms are stated by SquareMatrices.AlternatingSum3 and SquareMatrices.AlternatingSum4 |
| SquareMatrices.AlternatingSum3 | poseidon-paramgen/src/matrix.rs:324-330 | the 3-term cofactor expansion is `t0 - t1 + t2` |
| SquareMatrices.AlternatingSum4 | poseidon-paramgen/src/matrix.rs:332-336 | the 4-term cofactor expansion is `t0 - t1 + t2 - t3` |
| SquareMatrices.MinorDeterminant3 | poseidon-paramgen/src/matrix.rs:324-330 | the determinant of any 2x2 minor of a 3x3 matrix is the cross difference of its four remaining entries |
| SquareMatrices.Determinant3 | poseidon-paramgen/src/matrix.rs:324-330 | the recursive determinant of every 3x3 matrix equals the closed six-term formula `a(ei - fh) - b(di - fg) + c(dh - eg)` of its entries |
| SquareMatrices.TermZero | poseidon-paramgen/src/matrix.rs:312-337 | an expansion term vanishes when its row-0 entry or its minor's determinant is zero |
| SquareMatrices.DeterminantZeroRow | poseidon-paramgen/src/matrix.rs:312-337 | a matrix with a zero row has determinant 0 |
| SquareMatrices.DeterminantEqualLastRows | poseidon-tests/tests/parameters.rs:239-285 | a matrix of size 3 or more whose last two rows are equal has determinant 0 |
| SquareMatrices.EqualRowsDeterminant2 | poseidon-tests/tests/parameters.rs:239-285 | a 2x2 matrix with two equal rows has determinant 0 |
| SquareMatrices.MinorOfIdentity | poseidon-paramgen/src/matrix.rs:249-250 | removing row and column `i` from `I(n)` gives `I(n-1)` |
| SquareMatrices.DeterminantIdentity | poseidon-paramgen/src/matrix.rs:249-250 | `det(I(n)) == 1` for every `n >= 1` |
| SquareMatrices.Cofactors | poseidon-paramgen/src/matrix.rs:221-231 | `cofactors` is the sign matrix: entry `(i, j)` is `(-1)^(i+j)`, whatever the matrix's entries |
| SquareMatrices.CofactorsCheckerboard | poseidon-paramgen/src/matrix.rs:221-231 | the sign matrix is 1 where `i + j` is even and `-1` where it is odd |
| SquareMatrices.Minors | poseidon-paramgen/src/matrix.rs:233-277 | the minors matrix holds at `(i, j)` the determinant of the minor at `(i, j)` |
| SquareMatrices.Inverse | poseidon-paramgen/src/matrix.rs:233-277 | for a square matrix of size `n >= 1` with non-zero determinant, a square matrix of the same size; its entries are stated by SquareMatrices.InverseEntry (`n >= 2`) and SquareMatrices.InverseEntry1 (`n == 1`), and `A * A^-1 == I` by SquareMatrices.InverseOne, SquareMatrices.InverseTwo, SquareMatrices.InverseIdentity and the 3x3 fixture |
| SquareMatrices.InverseEntry | poseidon-paramgen/src/matrix.rs:233-277 | for `n >= 2`, inverse entry `(i, j)` is the signed minor at `(j, i)` divided by the determinant (the scaled adjugate) |
| SquareMatrices.CheckedInverse | poseidon-tests/tests/parameters.rs:154-209 | inversion fails with a singular-matrix error exactly when the determinant is 0; otherwise it returns a matrix of the same size |
| SquareMatrices.InverseEntry1 | poseidon-paramgen/src/matrix.rs:235-237 | the inverse of an invertible 1x1 matrix holds the field inverse of its element |
| SquareMatrices.InverseOne | poseidon-paramgen/src/matrix.rs:235-237 | every invertible 1x1 matrix times its inverse (either side) is the identity |
| SquareMatrices.MinorDeterminant2 | poseidon-paramgen/src/matrix.rs:239-247 | the minor of a 2x2 matrix at `(i, j)` is its opposite entry |
| SquareMatrices.InverseAdjugate2 | poseidon-tests/tests/parameters.rs:144-152 | the inverse of an invertible 2x2 matrix `[[a, b], [c, d]]` is `[[d, -b], [-c, a]]` scaled by `1 / det` |
| SquareMatrices.RightAdjugate2 | poseidon-tests/tests/parameters.rs:144-152 | a 2x2 matrix times its adjugate scaled by the inverse determinant is the identity |
| SquareMatrices.LeftAdjugate2 | poseidon-tests/tests/parameters.rs:144-152 | the scaled adjugate times the 2x2 matrix is the identity |
| SquareMatrices.InverseTwo | poseidon-tests/tests/parameters.rs:144-152 | every invertible 2x2 matrix times its inverse (either side) is the identity |
| SquareMatrices.InverseDeterminant | poseidon-paramgen/src/matrix.rs:233-247 | for invertible 1x1 and 2x2 matrices the inverse is invertible, with determinant `1 / det` |
| SquareMatrices.InverseInvolution | poseidon-paramgen/src/matrix.rs:233-247 | for invertible 1x1 and 2x2 matrices, inverting twice gives the matrix back |
| SquareMatrices.InverseIdentity | poseidon-paramgen/src/matrix.rs:249-250 | `I(n)` has determinant 1 and is its own inverse, for every `n >= 1` |
| Fixtures.ThreeByTwoEntries | poseidon-paramgen/src/matrix.rs:181-199 | the 3x2 fixture built from `1..6` holds `2i + k + 1` at `(i, k)` |
| Fixtures.TwoByTwoEntries | poseidon-paramgen/src/matrix.rs:281-290 | the 2x2 fixture built from `1..4` holds `1, 2, 3, 4` in row-major order |
| Fixtures.RowMajorFixture | poseidon-paramgen/src/matrix.rs:292-309 | the 2x3 matrix built from `1..6` holds `1 2 3 / 4 5 6` |
| Fixtures.TransposeFixture | poseidon-paramgen/src/matrix.rs:181-206 | the transpose of the 3x2 fixture is the 2x3 matrix `1 3 5 / 2 4 6` |
| Fixtures.TransposeSquareFixture | poseidon-paramgen/src/matrix.rs:207-219 | the transpose of `1 2 / 3 4` is `1 3 / 2 4` |
| Fixtures.HadamardFixture | poseidon-paramgen/src/matrix.rs:160-179 | the Hadamard square of the 3x2 fixture is `1 4 / 9 16 / 25 36` |
| Fixtures.IdentityFixture | poseidon-paramgen/src/matrix.rs:105-112 | `identity(2)` is `1 0 / 0 1` |
| Fixtures.SquareMatMulFixture | poseidon-paramgen/src/matrix.rs:114-130 | `1 2 / 3 4` times `identity(2)` is `1 2 / 3 4` |
| Fixtures.MatMulMismatchFixture | poseidon-paramgen/src/matrix.rs:132-145 | the 3x2 fixture times itself fails with a dimension error |
| Fixtures.GramEntry | poseidon-paramgen/src/matrix.rs:146-157 | entry `(i, j)` of `M * M^T` is the dot product of rows `i` and `j` of the 3x2 fixture |
| Fixtures.MatMulTransposeFixture | poseidon-paramgen/src/matrix.rs:146-157 | `M * M^T` is the 3x3 matrix `5 11 17 / 11 25 39 / 17 39 61` |
| Fixtures.DeterminantSmallFixture | poseidon-paramgen/src/matrix.rs:312-322 | `det([1]) == 1` and `det(1 2 / 3 4) == -2` |
| Fixtures.TwoByTwoDeterminant | poseidon-paramgen/src/matrix.rs:317-322 | `det(1 2 / 3 4) == -2` |
| Fixtures.DeterminantThreeFixture | poseidon-paramgen/src/matrix.rs:324-330 | the determinant of the 3x3 matrix of `1..9` is 0 |
| Fixtures.FourByFourMinor | poseidon-paramgen/src/matrix.rs:332-336 | each row-0 minor of the 4x4 fixture has the determinant computed by hand |
| Fixtures.FourByFourTerm | poseidon-paramgen/src/matrix.rs:332-336 | each row-0 expansion term of the 4x4 fixture is its entry times its minor's determinant, with the value computed by hand |
| Fixtures.DeterminantFourFixture | poseidon-paramgen/src/matrix.rs:332-336 | the 4x4 fixture `1..9` followed by tens has determinant 0 |
| Fixtures.DeterminantTensFixture | poseidon-tests/tests/parameters.rs:265-284 | every `n x n` fixture with `n >= 5`, made of `1..9` followed by tens, has determinant 0 |
| Fixtures.CofactorsOneFixture | poseidon-paramgen/src/matrix.rs:222-225 | `cofactors(identity(1))` is `[1]` |
| Fixtures.CofactorsTwoFixture | poseidon-paramgen/src/matrix.rs:227-230 | `cofactors(identity(2))` is `1 -1 / -1 1` |
| Fixtures.InverseOneFixture | poseidon-paramgen/src/matrix.rs:235-237 | `[2]` is invertible and `[2] * inverse([2])` is `identity(1)` |
| Fixtures.InverseTwoFixture | poseidon-paramgen/src/matrix.rs:239-247 | `1 2 / 3 4` has determinant -2 and times its inverse gives `identity(2)` |
| Fixtures.ThreeByThreeDeterminant | poseidon-paramgen/src/matrix.rs:252-263 | the 3x3 inverse fixture has determinant 10 |
| Fixtures.MinorEntry3 | poseidon-paramgen/src/matrix.rs:252-276 | each of the nine minors of the 3x3 inverse fixture has the determinant computed by hand |
| Fixtures.AdjugateEntry3 | poseidon-paramgen/src/matrix.rs:265-276 | each signed, transposed minor of the 3x3 fixture is the corresponding entry of `2 2 0 / -2 3 10 / 2 -3 0` |
| Fixtures.InverseThreeFixture | poseidon-paramgen/src/matrix.rs:252-276 | the inverse of the 3x3 fixture is `2 2 0 / -2 3 10 / 2 -3 0` times `1/10`, entry by entry |
| Fixtures.ScaledAdjugate3 | poseidon-paramgen/src/matrix.rs:265-276 | `1/10` is 91 modulo 101, and the adjugate times 91 is the table of inverse entries |
| Fixtures.InverseEntries3 | poseidon-paramgen/src/matrix.rs:252-276 | the inverse of the 3x3 fixture is that table of concrete field elements |
| Fixtures.ProductEntry3 | poseidon-paramgen/src/matrix.rs:264 | each entry of the 3x3 fixture times that table is the corresponding identity entry |
| Fixtures.ProductIsIdentity3 | poseidon-paramgen/src/matrix.rs:264 | the 3x3 fixture times that table is `identity(3)` |
| Fixtures.InverseThreeProductFixture | poseidon-paramgen/src/matrix.rs:252-264 | the 3x3 fixture has determinant 10 and times its inverse gives `identity(3)` |
| ArcMatrices.ArcMatrix.New | poseidon-parameters/src/arc_matrix.rs:24-35 | a new wrapper has the requested shape, and its inner elements are exactly the given elements |
| ArcMatrices.ArcMatrix.Wrap | poseidon-parameters/src/arc_matrix.rs:9-11 | the tuple constructor wraps exactly the given matrix |
| ArcMatrices.ArcMatrix.Elements | poseidon-parameters/src/arc_matrix.rs:20-22 | the elements are the wrapped matrix's, one per position of the shape |
| ArcMatrices.ArcMatrix.GetElement | poseidon-parameters/src/arc_matrix.rs:41-43 | reading `(i, j)` returns the wrapped matrix's element `(i, j)` |
| ArcMatrices.ArcMatrix.SetElement | poseidon-parameters/src/arc_matrix.rs:45-47 | after writing `v` at `(i, j)`, reading `(i, j)` gives `v`; every other element and both dimensions are unchanged |
| ArcMatrices.ArcMatrix.Transpose | poseidon-parameters/src/arc_matrix.rs:16-18 | returns a fresh `C x R` wrapper around the inner transpose, with the same element count and `(i, j)` taken from `(j, i)` |
| ArcMatrices.ArcMatrix.HadamardProduct | poseidon-parameters/src/arc_matrix.rs:57-62 | fails exactly when the inner Hadamard product fails (dimension error); on success wraps that product, of the same shape with element-wise products |
| ArcMatrices.OptimizedArcMatrix.New | poseidon-parameters/src/arc_matrix.rs:85-97 | a new wrapper holds a fresh `ArcMatrix` of the requested shape and elements |
| ArcMatrices.OptimizedArcMatrix.Wrap | poseidon-parameters/src/arc_matrix.rs:74-76 | the tuple constructor wraps a fresh `ArcMatrix` holding the given one's matrix, so that, as with the source's move, no other reference aliases the wrapped object |
| ArcMatrices.OptimizedArcMatrix.NRows | poseidon-parameters/src/arc_matrix.rs:111-113 | the row count is that of the wrapped `ArcMatrix` |
| ArcMatrices.OptimizedArcMatrix.NCols | poseidon-parameters/src/arc_matrix.rs:115-117 | the column count is that of the wrapped `ArcMatrix` |
| ArcMatrices.OptimizedArcMatrix.Elements | poseidon-parameters/src/arc_matrix.rs:99-101 | the elements are those of the wrapped `ArcMatrix` |
| ArcMatrices.OptimizedArcMatrix.GetElement | poseidon-parameters/src/arc_matrix.rs:103-105 | reading `(i, j)` returns element `(i, j)` of the wrapped `ArcMatrix`'s matrix |
| ArcMatrices.OptimizedArcMatrix.SetElement | poseidon-parameters/src/arc_matrix.rs:107-109 | overwrites the wrapped matrix's `(i, j)` in place; the other elements and the dimensions are unchanged |
| ArcMatrices.OptimizedArcMatrix.Transpose | poseidon-parameters/src/arc_matrix.rs:81-83 | returns a fresh wrapper around a fresh `ArcMatrix` holding the wrapped matrix's transpose |
| ArcMatrices.OptimizedArcMatrix.HadamardProduct | poseidon-parameters/src/arc_matrix.rs:119-124 | fails exactly when the inner product fails; on success wraps the element-wise product |
| RoundConstants.RoundNumbers.Total | poseidon-paramgen/src/round_constants.rs:22 | the total round count is at least the full and at least the partial round count |
| RoundConstants.Transcript.New | poseidon-paramgen/src/round_constants.rs:19 | a new transcript carries its label, has absorbed nothing and has drawn nothing |
| RoundConstants.Transcript.DomainSep | poseidon-paramgen/src/round_constants.rs:20 | domain separation appends the triple `(input, round_numbers, alpha)` to the absorbed inputs and keeps the label |
| RoundConstants.Transcript.RoundConstant | poseidon-paramgen/src/round_constants.rs:24 | each draw returns the next element of the stream for the current history and advances the draw count by one |
| RoundConstants.Seeded | poseidon-paramgen/src/round_constants.rs:19-20 | before any draw, the transcript is labelled `round-constants` and holds exactly one absorbed triple |
| RoundConstants.Drawn | poseidon-paramgen/src/round_constants.rs:23-25 | `n` draws yield `n` constants, the `k`-th being stream element `k` of the seeded history |
| RoundConstants.ArcMatrix.NRows | poseidon-paramgen/src/round_constants.rs:29-31 | `n_rows` times `n_cols` is the number of stored elements |
| RoundConstants.ArcMatrix.NCols | poseidon-paramgen/src/round_constants.rs:33-35 | the row count times `n_cols` is the number of stored elements |
| RoundConstants.Generated | poseidon-paramgen/src/round_constants.rs:14-27 | the generated matrix is well formed, with `total()` rows and `t` columns |
| RoundConstants.Generate | poseidon-paramgen/src/round_constants.rs:14-27 | `generate` returns `total()` rows by `t` columns, `(full + partial) * t` elements in all, holding exactly the first `total() * t` constants of the seeded stream in order, equal to `Generated` for the same arguments |
| RoundConstants.GeneratedLayout | poseidon-paramgen/src/round_constants.rs:22-26 | the `k`-th constant drawn lands in row `k / t`, column `k % t` |
| RoundConstants.GeneratedRows | poseidon-paramgen/src/round_constants.rs:23-26 | element `(i, j)` is constant number `i * t + j`: row `i` holds round `i`'s constants |
| RoundConstants.SeededInjective | poseidon-paramgen/src/round_constants.rs:19-20 | distinct `(input, round_numbers, alpha)` triples give distinct seeded histories (equal histories imply equal triples) |
| RoundConstants.IntoRows | poseidon-paramgen/src/round_constants.rs:38-50 | the nested loops produce `n_rows` rows of `n_cols` entries, with `rows[i][j]` being element `(i, j)`, i.e. the matrix's rows |
| RoundConstants.ConversionFixtureRows | poseidon-paramgen/src/round_constants.rs:58-79 | the 2x3 fixture converts to `[[1, 2, 0], [4, 5, 6]]` |

## Left out

- The transcript's internals (merlin, STROBE/Keccak) and the encoding of `domain_sep` in `transcript.rs`
  are not part of this model. The transcript is a class whose output stream is a caller-supplied
  deterministic function `prf(history, k)` of its label, its absorbed inputs and the draw count. Given
  the same stream, `Generate` returns the same matrix for the same arguments, because its result equals
  the function `Generated`.
- The optimized-constants transform behind `OptimizedArcMatrix` is not in the modelled code. Only the
  wrapper is modelled.
- Concrete field arithmetic: the BLS12-377 and ed_on_bls12_381 moduli and Montgomery form are replaced
  by the prime 101. Conversion from little-endian bytes (used only by the random 2x2 inverse property) is
  left out.
- Const-generic shapes (`Matrix<R, C, N>`) become a runtime shape invariant `Valid()`. The owned and
  by-reference `Mul` variants (poseidon-paramgen/src/matrix.rs:78-85) are the same operation and are
  modelled once, as `SquareMul`.
- `poseidon-paramgen/src/matrix/square.rs` and `base.rs` are not part of this model. `Determinant`,
  `Minor`, `Cofactors`, `Minors`, `Inverse` and `FromVec` follow the behaviour that the unit tests of
  poseidon-paramgen/src/matrix.rs and poseidon-tests/tests/parameters.rs fix.
- Determinant and Inverse: the 0x0 matrix is excluded (`n >= 1`), because its behaviour is not visible
  in the modelled code.
- SquareMatrices.Cofactors: the classical cofactor matrix holds `(-1)^(i+j)` times the minor's
  determinant at `(i, j)`. The code's tests (poseidon-paramgen/src/matrix.rs:221-231,
  poseidon-tests/tests/parameters.rs:121-135) fix `cofactors` to the checkerboard sign matrix, and the
  model follows the code.
- SquareMatrices.FromVec takes the side length `n` explicitly, and a length of exactly `n * n` is a
  precondition. What `from_vec` does with a length that is not a perfect square is decided in
  `square.rs`, which is not part of this model.
- Matrices.New and ArcMatrices.ArcMatrix.New: the number of elements must match the shape, and this is
  modelled as a precondition. Paramgen's `Matrix::new` returns no `Result`
  (poseidon-paramgen/src/matrix.rs:75). The parameters crate fixes the length through its const generics:
  `new_from_known` takes an array of exactly `N_ELEMENTS` (poseidon-parameters/src/arc_matrix.rs:25-26),
  and `new` hands its slice to a matrix of that const size (poseidon-parameters/src/arc_matrix.rs:33-34).
  What either constructor does with a wrong length is decided in `base.rs`, which is not part of this
  model.
- SquareMatrices.DeterminantEqualLastRows covers only matrices whose last two rows are equal. That is
  the shape of the singular fixtures; the general alternating property for any two equal rows is not
  proved.
- SquareMatrices.Inverse and SquareMatrices.CheckedInverse: `A * inverse(A) == identity(n) ==
  inverse(A) * A` is proved for every invertible matrix of size 1 (SquareMatrices.InverseOne) and 2
  (SquareMatrices.InverseTwo), for the identity of every size (SquareMatrices.InverseIdentity) and for
  the 3x3 fixture, not for general sizes of 3 and above, because the general adjugate identity
  `A * adj(A) == det(A) * I` is not proved for `n >= 3`. `Inverse` itself promises the shape, and
  SquareMatrices.InverseEntry its entries for every size. `CheckedInverse` states the error case and the
  shape; its value on success is the one `Inverse` returns.
- SquareMatrices.InverseInvolution: `inverse(inverse(A)) == A` is proved for sizes 1 and 2 (and
  SquareMatrices.InverseIdentity gives it for the identity of every size), not for general sizes of 3
  and above, because the general adjugate identity `A * adj(A) == det(A) * I` is not proved for `n >= 3`.
- ArcMatrices.ArcMatrix.NRows and ArcMatrices.ArcMatrix.NCols return the wrapped matrix's fields
  directly and carry no contract of their own; the row-count properties are stated on the
  `OptimizedArcMatrix` accessors and on `RoundConstants.ArcMatrix`.
- ArcMatrices.ArcMatrix.SetElement states that the new inner matrix is the functional update `Set` of
  the old one. It does not restate the flat element sequence position by position.
- `poseidon377/src/lib.rs` holds re-exports, hash wrappers and circuit gadgets only, and is not part of
  this model.
