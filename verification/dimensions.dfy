/** `CellGroupDimensions`: the size of every axis of a cell group and the
    element count derived from them. */
module Dimensions {

  import opened Options
  import opened RowMajor

  datatype Dimensions = Dimensions(sizes: seq<int>, numElements: int)
  {
    /** What the constructor establishes for every descriptor it returns. */
    predicate Valid()
    {
      AllPositive(sizes) && numElements == Product(sizes)
    }

    /** `getNumDimensions`. */
    function NumDimensions(): nat
    {
      |sizes|
    }

    /** `getDimensionSize`: reading an axis that does not exist throws. */
    function DimensionSize(dim: int): Option<int>
    {
      if 0 <= dim < |sizes| then Some(sizes[dim]) else None
    }
  }

  /** The constructor and `setup`: walks the sizes, failing on the first one
      below 1 and multiplying the rest into the element count. */
  method NewDimensions(sizes: seq<int>) returns (r: Option<Dimensions>)
    ensures r.Some? <==> forall i :: 0 <= i < |sizes| ==> sizes[i] >= 1
    ensures r.Some? ==> r.value.Valid()
    ensures r.Some? ==> r.value.numElements == Product(sizes) >= 1
    ensures r.Some? ==> r.value.NumDimensions() == |sizes|
    ensures r.Some? ==> forall i :: 0 <= i < |sizes| ==> r.value.DimensionSize(i) == Some(sizes[i])
  {
    var numElements := 1;
    var i := 0;
    while i < |sizes|
      invariant 0 <= i <= |sizes|
      invariant AllPositive(sizes[..i])
      invariant numElements == Product(sizes[..i])
    {
      var size := sizes[i];
      if size < 1 {
        return None;
      }
      ProductSnoc(sizes[..i], size);
      assert sizes[..i + 1] == sizes[..i] + [size];
      numElements := numElements * size;
      i := i + 1;
    }
    assert sizes[..i] == sizes;
    ProductPositive(sizes);
    return Some(Dimensions(sizes, numElements));
  }
}
