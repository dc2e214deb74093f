/**
  The round-constant matrices of `poseidon-parameters`: `ArcMatrix` ("Arc" for
  the AddRoundConstant step of the permutation) and `OptimizedArcMatrix`, the
  constants of the optimized partial rounds. Both are thin wrappers around a
  matrix; every accessor delegates to the wrapped matrix, and `SetElement`
  overwrites one element in place.
 */
module ArcMatrices {
  import opened Field
  import opened Matrices

  class ArcMatrix {
    /** The wrapped matrix (the tuple field `.0`). */
    var inner: Matrix

    /** The shape invariant of the wrapped matrix. */
    predicate Valid()
      reads this
    {
      inner.Valid()
    }

    /** `new` / `new_from_known`: wrap the matrix holding `elements` in row-major order. */
    constructor New(nRows: nat, nCols: nat, elements: seq<Fe>)
      requires |elements| == nRows * nCols
      ensures Valid() && NRows() == nRows && NCols() == nCols
      ensures Elements() == elements
    {
      inner := Matrices.New(nRows, nCols, elements);
    }

    /** The tuple constructor `ArcMatrix(m)`. */
    constructor Wrap(m: Matrix)
      requires m.Valid()
      ensures Valid() && inner == m
    {
      inner := m;
    }

    function NRows(): nat
      reads this
    {
      inner.nRows
    }

    function NCols(): nat
      reads this
    {
      inner.nCols
    }

    /** `elements` / `inner_elements`: the flat row-major elements, one per position of the shape. */
    function Elements(): (e: seq<Fe>)
      reads this
      requires Valid()
      ensures |e| == NRows() * NCols()
    {
      inner.elements
    }

    /**
      `get_element(i, j)`: the element at linear position `i * n_cols + j` of
      `elements`, which is element `(i, j)` of the wrapped matrix.
     */
    function GetElement(i: nat, j: nat): (v: Fe)
      reads this
      requires Valid() && i < NRows() && j < NCols()
      ensures v == Get(inner, i, j)
    {
      RowEnd(i, NRows(), NCols());
      Elements()[i * NCols() + j]
    }

    /**
      `set_element(i, j, v)`: afterwards element `(i, j)` is `v`, every other
      element and both dimensions are as before.
     */
    method SetElement(i: nat, j: nat, v: Fe)
      requires Valid() && i < NRows() && j < NCols()
      modifies this
      ensures Valid() && inner == Set(old(inner), i, j, v)
      ensures NRows() == old(NRows()) && NCols() == old(NCols())
      ensures GetElement(i, j) == v
      ensures forall a: nat, b: nat :: a < NRows() && b < NCols() && (a, b) != (i, j) ==> GetElement(a, b) == old(GetElement(a, b))
    {
      inner := Set(inner, i, j, v);
    }

    /** `transpose`: a new `C x R` wrapper around the transpose, with the same number of elements. */
    method Transpose() returns (t: ArcMatrix)
      requires Valid()
      ensures fresh(t) && t.Valid() && t.inner == Matrices.Transpose(inner)
      ensures t.NRows() == NCols() && t.NCols() == NRows() && |t.Elements()| == |Elements()|
      ensures forall i: nat, j: nat :: i < NCols() && j < NRows() ==> t.GetElement(i, j) == GetElement(j, i)
    {
      t := new ArcMatrix.Wrap(Matrices.Transpose(inner));
    }

    /**
      `hadamard_product`: fails exactly when the wrapped product does (the
      shapes differ), and otherwise wraps the element-wise product.
     */
    method HadamardProduct(rhs: ArcMatrix) returns (r: Result<ArcMatrix>)
      requires Valid() && rhs.Valid()
      ensures r.Err? <==> Hadamard(inner, rhs.inner).Err?
      ensures r.Err? ==> r.error == DimensionMismatch
      ensures r.Ok? ==> fresh(r.value) && r.value.Valid() && r.value.inner == Hadamard(inner, rhs.inner).value
      ensures r.Ok? ==> r.value.NRows() == NRows() && r.value.NCols() == NCols()
      ensures r.Ok? ==> forall i: nat, j: nat :: i < NRows() && j < NCols() ==>
        r.value.GetElement(i, j) == Mul(GetElement(i, j), rhs.GetElement(i, j))
    {
      var h := Hadamard(inner, rhs.inner);
      if h.Err? {
        return Err(h.error);
      }
      var w := new ArcMatrix.Wrap(h.value);
      return Ok(w);
    }
  }

  /**
    The round constants of the optimized partial rounds. Only the wrapper is
    modelled: it has the shape and elements of the `ArcMatrix` it holds.
   */
  class OptimizedArcMatrix {
    /** The wrapped `ArcMatrix` (the tuple field `.0`); the wrapper never replaces it. */
    const arc: ArcMatrix

    predicate Valid()
      reads this, arc
    {
      arc.Valid()
    }

    /** `new` / `new_from_known`: wrap a fresh `ArcMatrix` holding `elements`. */
    constructor New(nRows: nat, nCols: nat, elements: seq<Fe>)
      requires |elements| == nRows * nCols
      ensures fresh(arc) && Valid() && NRows() == nRows && NCols() == nCols
      ensures Elements() == elements
    {
      arc := new ArcMatrix.New(nRows, nCols, elements);
    }

    /**
      The tuple constructor `OptimizedArcMatrix(a)`. The source moves `a` into
      the wrapper, so no one else can reach it afterwards; here the wrapper
      holds a fresh copy, which no other reference can alias.
     */
    constructor Wrap(a: ArcMatrix)
      requires a.Valid()
      ensures fresh(arc) && Valid() && arc.inner == a.inner
    {
      arc := new ArcMatrix.Wrap(a.inner);
    }

    function NRows(): (n: nat)
      reads this, arc
      ensures n == arc.NRows()
    {
      arc.inner.nRows
    }

    function NCols(): (n: nat)
      reads this, arc
      ensures n == arc.NCols()
    {
      arc.inner.nCols
    }

    /** The elements are those of the wrapped `ArcMatrix`, one per position of the shape. */
    function Elements(): (e: seq<Fe>)
      reads this, arc
      requires Valid()
      ensures e == arc.Elements() && |e| == NRows() * NCols()
    {
      arc.inner.elements
    }

    /** `get_element(i, j)`: element `(i, j)` of the matrix the wrapped `ArcMatrix` holds. */
    function GetElement(i: nat, j: nat): (v: Fe)
      reads this, arc
      requires Valid() && i < NRows() && j < NCols()
      ensures v == Get(arc.inner, i, j)
    {
      arc.GetElement(i, j)
    }

    /** `set_element(i, j, v)`: overwrites the wrapped matrix's element in place. */
    method SetElement(i: nat, j: nat, v: Fe)
      requires Valid() && i < NRows() && j < NCols()
      modifies arc
      ensures Valid() && arc.inner == Set(old(arc.inner), i, j, v)
      ensures NRows() == old(NRows()) && NCols() == old(NCols())
      ensures GetElement(i, j) == v
      ensures forall a: nat, b: nat :: a < NRows() && b < NCols() && (a, b) != (i, j) ==> GetElement(a, b) == old(GetElement(a, b))
    {
      arc.SetElement(i, j, v);
    }

    /** `transpose`: a new wrapper around the transpose of the wrapped `ArcMatrix`. */
    method Transpose() returns (t: OptimizedArcMatrix)
      requires Valid()
      ensures fresh(t) && fresh(t.arc) && t.Valid() && t.arc.inner == Matrices.Transpose(arc.inner)
      ensures t.NRows() == NCols() && t.NCols() == NRows()
      ensures forall i: nat, j: nat :: i < NCols() && j < NRows() ==> t.GetElement(i, j) == GetElement(j, i)
    {
      var a := arc.Transpose();
      t := new OptimizedArcMatrix.Wrap(a);
    }

    /** `hadamard_product`: the wrapped product, re-wrapped on success. */
    method HadamardProduct(rhs: OptimizedArcMatrix) returns (r: Result<OptimizedArcMatrix>)
      requires Valid() && rhs.Valid()
      ensures r.Err? <==> Hadamard(arc.inner, rhs.arc.inner).Err?
      ensures r.Err? ==> r.error == DimensionMismatch
      ensures r.Ok? ==> fresh(r.value) && fresh(r.value.arc) && r.value.Valid()
      ensures r.Ok? ==> r.value.arc.inner == Hadamard(arc.inner, rhs.arc.inner).value
      ensures r.Ok? ==> forall i: nat, j: nat :: i < NRows() && j < NCols() ==>
        r.value.GetElement(i, j) == Mul(GetElement(i, j), rhs.GetElement(i, j))
    {
      var h := arc.HadamardProduct(rhs.arc);
      if h.Err? {
        return Err(h.error);
      }
      var w := new OptimizedArcMatrix.Wrap(h.value);
      return Ok(w);
    }
  }
}
