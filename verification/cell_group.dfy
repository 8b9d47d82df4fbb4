/** `CellGroup` and its read-only variant `ImmutableCellGroup`: one
    generation of cells stored flat in row-major order. */
module CellGroups {

  import opened Options
  import opened RowMajor
  import opened Dimensions

  /** `immutable` marks an `ImmutableCellGroup`, whose writes are refused.
      Groups are values, so a copy never shares storage with its source. */
  datatype CellGroup = CellGroup(dims: Dimensions, cells: seq<int>, immutable: bool)
  {
    /** The cell array always has exactly `numElements` slots. */
    predicate Valid()
    {
      dims.Valid() && |cells| == dims.numElements
    }

    /** `getNumDimensions`. */
    function NumDimensions(): nat
    {
      dims.NumDimensions()
    }

    /** `getNumElements`. */
    function NumElements(): int
    {
      dims.numElements
    }
  }

  /** The constructor: zero-filled storage of `numElements` cells. */
  function NewCellGroup(dims: Dimensions): (g: CellGroup)
    requires dims.Valid()
    ensures g.Valid() && g.dims == dims && !g.immutable
    ensures g.NumElements() == Product(dims.sizes) >= 1
    ensures g.NumDimensions() == |dims.sizes|
    ensures forall k :: 0 <= k < |g.cells| ==> g.cells[k] == 0
  {
    ProductPositive(dims.sizes);
    CellGroup(dims, seq(dims.numElements, _ => 0), false)
  }

  /** `convertTo1DIndex`.  It switches on the number of components given,
      not on the group's axis count: one component is taken as the flat
      position itself, two use the size of axis 1 (throwing when there is
      none), and any other count runs the general sum over the group's axes,
      throwing when it reads past the end of the index and ignoring any
      extra components.  No component is checked against its axis size. */
  function ConvertTo1DIndex(dims: Dimensions, index: seq<int>): (r: Option<int>)
    ensures |index| == |dims.sizes| ==> r == Some(Flatten(dims.sizes, index))
    ensures InBounds(dims.sizes, index) ==> r.Some? && 0 <= r.value < Product(dims.sizes)
    ensures r.None? <==> ((|index| == 2 && |dims.sizes| < 2)
                          || (|index| != 1 && |index| != 2 && |index| < |dims.sizes|))
    ensures |index| == 1 ==> r == Some(index[0])
    ensures |index| == 2 && |dims.sizes| >= 2 ==> r == Some(index[1] + index[0] * dims.sizes[1])
    ensures |index| != 1 && |index| != 2 && |index| >= |dims.sizes| ==>
      r == Some(Flatten(dims.sizes, index[..|dims.sizes|]))
  {
    if |index| == 1 then
      assert |dims.sizes| == 1 ==> Flatten(dims.sizes, index) == index[0] by {
        if |dims.sizes| == 1 { FlattenOneAxis(dims.sizes, index); }
      }
      Some(index[0])
    else if |index| == 2 then
      assert |dims.sizes| == 2 ==> Flatten(dims.sizes, index) == index[1] + index[0] * dims.sizes[1] by {
        if |dims.sizes| == 2 { FlattenTwoAxes(dims.sizes, index); }
      }
      match dims.DimensionSize(1)
      case Some(size1) =>
        Some(index[1] + index[0] * size1)
      case None => None
    else if |index| < |dims.sizes| then None
    else
      assert |index| == |dims.sizes| ==> index[..|dims.sizes|] == index;
      Some(Flatten(dims.sizes, index[..|dims.sizes|]))
  }

  /** The inner loop of the general branch of `convertTo1DIndex`: the
      product of the sizes of the axes after `i`, i.e. the weight of axis `i`. */
  method SubSize(sizes: seq<int>, i: int) returns (subsize: int)
    requires 0 <= i < |sizes|
    ensures subsize == Product(sizes[i + 1..])
  {
    subsize := 1;
    var j := i + 1;
    while j < |sizes|
      invariant i + 1 <= j <= |sizes|
      invariant subsize == Product(sizes[i + 1..j])
    {
      ProductSnoc(sizes[i + 1..j], sizes[j]);
      assert sizes[i + 1..j + 1] == sizes[i + 1..j] + [sizes[j]];
      subsize := subsize * sizes[j];
      j := j + 1;
    }
    assert sizes[i + 1..j] == sizes[i + 1..];
  }

  /** The general branch of `convertTo1DIndex` as written: for each axis `i`
      an inner loop multiplies the sizes of the later axes into `subsize`,
      then `subsize * index[i]` is added.  Reading `index[i]` past its end
      throws. */
  method GeneralFlatIndex(sizes: seq<int>, index: seq<int>) returns (r: Option<int>)
    ensures r.Some? <==> |index| >= |sizes|
    ensures r.Some? ==> r.value == Flatten(sizes, index[..|sizes|])
  {
    var numDims := |sizes|;
    // The components the loop reads, padded so the invariant can speak of
    // the whole sum even when the index is too short.
    ghost var full := seq(numDims, k => if 0 <= k < |index| then index[k] else 0);
    var ret := 0;
    var i := 0;
    while i < numDims
      invariant 0 <= i <= numDims
      invariant i <= |index|
      invariant ret + Flatten(sizes[i..], full[i..]) == Flatten(sizes, full)
    {
      var subsize := SubSize(sizes, i);
      if i >= |index| {
        return None;
      }
      FlattenSuffix(sizes, full, i);
      assert full[i] == index[i];
      assert subsize * index[i] == full[i] * Product(sizes[i + 1..]);
      ret := ret + subsize * index[i];
      i := i + 1;
    }
    assert full == index[..numDims];
    return Some(ret);
  }

  /** `getValue`: fails when the index cannot be converted or its flat
      position falls outside the cell array. */
  function GetValue(g: CellGroup, index: seq<int>): (r: Option<int>)
    ensures g.Valid() && InBounds(g.dims.sizes, index) ==>
      r == Some(g.cells[Flatten(g.dims.sizes, index)])
    ensures g.Valid() && |g.dims.sizes| == 1 && |index| == 1 ==>
      (r.Some? <==> 0 <= index[0] < g.dims.sizes[0])
    ensures |index| == |g.dims.sizes| ==>
      (r.Some? <==> 0 <= Flatten(g.dims.sizes, index) < |g.cells|)
    ensures g.Valid() && |index| == 1 ==>
      (r.Some? <==> 0 <= index[0] < |g.cells|) && (r.Some? ==> r.value == g.cells[index[0]])
  {
    match ConvertTo1DIndex(g.dims, index)
    case Some(k) => if 0 <= k < |g.cells| then Some(g.cells[k]) else None
    case None => None
  }

  /** `setValue`, and its `ImmutableCellGroup` override that always throws. */
  function SetValue(g: CellGroup, value: int, index: seq<int>): (r: Option<CellGroup>)
    ensures g.immutable ==> r.None?
    ensures !g.immutable ==> (r.Some? <==> GetValue(g, index).Some?)
    ensures r.Some? ==> r.value.dims == g.dims && r.value.immutable == g.immutable
    ensures r.Some? ==> |r.value.cells| == |g.cells| && (g.Valid() ==> r.value.Valid())
    ensures r.Some? ==> GetValue(r.value, index) == Some(value)
    ensures r.Some? ==> forall j :: 0 <= j < |g.cells| && Some(j) != ConvertTo1DIndex(g.dims, index) ==>
      r.value.cells[j] == g.cells[j]
  {
    if g.immutable then None
    else
      match ConvertTo1DIndex(g.dims, index)
      case Some(k) =>
        if 0 <= k < |g.cells| then Some(g.(cells := g.cells[k := value])) else None
      case None => None
  }

  /** `fill`, and its `ImmutableCellGroup` override that always throws. */
  function Fill(g: CellGroup, value: int): (r: Option<CellGroup>)
    ensures r.None? <==> g.immutable
    ensures r.Some? ==> r.value.dims == g.dims && !r.value.immutable
    ensures r.Some? ==> |r.value.cells| == |g.cells| && (g.Valid() ==> r.value.Valid())
    ensures r.Some? ==> forall k :: 0 <= k < |r.value.cells| ==> r.value.cells[k] == value
  {
    if g.immutable then None
    else Some(g.(cells := seq(|g.cells|, _ => value)))
  }

  /** Writing one in-bounds index leaves every other in-bounds index reading
      what it read before. */
  lemma SetValueKeepsOtherIndices(g: CellGroup, value: int, index: seq<int>, other: seq<int>)
    requires g.Valid() && !g.immutable
    requires InBounds(g.dims.sizes, index) && InBounds(g.dims.sizes, other)
    requires other != index
    ensures SetValue(g, value, index).Some?
    ensures GetValue(SetValue(g, value, index).value, other) == GetValue(g, other)
  {
    if Flatten(g.dims.sizes, index) == Flatten(g.dims.sizes, other) {
      FlattenInjective(g.dims.sizes, index, other);
    }
  }

  /** Components are not checked one by one: in a 2 x 3 group the index
      (1, -1) is flattened to 1 * 3 - 1 = 2 and silently reads the cell
      at (0, 2). */
  lemma NoPerComponentCheck(g: CellGroup)
    requires g.Valid() && g.dims.sizes == [2, 3]
    ensures |g.cells| == 6
    ensures GetValue(g, [1, -1]) == Some(g.cells[2])
    ensures GetValue(g, [1, -1]) == GetValue(g, [0, 2])
  {
    assert InBounds(g.dims.sizes, [0, 2]);
    FlattenTwoAxes(g.dims.sizes, [0, 2]);
  }

  /** `copyCellValues`: the loop copying the source's cells one by one into
      the new group's storage. */
  method CopyCellValues(target: seq<int>, group: CellGroup) returns (cells: seq<int>)
    requires |target| == |group.cells| == group.NumElements()
    ensures cells == group.cells
  {
    cells := target;
    var i := 0;
    while i < group.NumElements()
      invariant 0 <= i <= |group.cells|
      invariant |cells| == |group.cells|
      invariant cells[..i] == group.cells[..i]
    {
      cells := cells[i := group.cells[i]];
      i := i + 1;
    }
    assert cells[..i] == cells;
  }

  /** `CellularAutomaton.immutableCopy`, i.e. the `ImmutableCellGroup`
      constructor: a new group over the same dimensions, filled by
      `copyCellValues`, that refuses every later write. */
  method ImmutableCopy(group: CellGroup) returns (copy: CellGroup)
    requires group.Valid()
    ensures copy.Valid() && copy.dims == group.dims && copy.immutable
    ensures copy.cells == group.cells
    ensures forall index :: GetValue(copy, index) == GetValue(group, index)
    ensures forall v, index :: SetValue(copy, v, index).None?
    ensures forall v :: Fill(copy, v).None?
  {
    var blank := NewCellGroup(group.dims);
    var cells := CopyCellValues(blank.cells, group);
    copy := CellGroup(group.dims, cells, true);
  }
}
