/** Row-major flattening of n-dimensional cell indices: axis 0 varies
    slowest, the last axis fastest.  `Flatten` is the sum
    `index[0] * P(1) + index[1] * P(2) + ...`, where `P(i)` is the product
    of the sizes of axes `i` and later; `Unflatten` is its inverse on
    in-bounds indices. */
module RowMajor {

  import opened Arith

  /** Number of cells of a grid with these axis sizes (1 when there are none). */
  function Product(sizes: seq<int>): int
  {
    if |sizes| == 0 then 1 else sizes[0] * Product(sizes[1..])
  }

  predicate AllPositive(sizes: seq<int>)
  {
    forall i :: 0 <= i < |sizes| ==> sizes[i] >= 1
  }

  /** One component per axis, each within `[0, size)` of its axis. */
  predicate InBounds(sizes: seq<int>, index: seq<int>)
  {
    |index| == |sizes| && forall i :: 0 <= i < |sizes| ==> 0 <= index[i] < sizes[i]
  }

  /** The row-major sum: each component weighted by the product of the sizes
      of all later axes.  Defined for any components, in range or not. */
  function Flatten(sizes: seq<int>, index: seq<int>): (k: int)
    requires |index| == |sizes|
    ensures InBounds(sizes, index) ==> 0 <= k < Product(sizes)
  {
    if |sizes| == 0 then 0
    else
      var rest := Flatten(sizes[1..], index[1..]);
      assert InBounds(sizes, index) ==> 0 <= index[0] * Product(sizes[1..]) + rest < Product(sizes) by {
        if InBounds(sizes, index) {
          DigitInRange(index[0], sizes[0], rest, Product(sizes[1..]));
        }
      }
      index[0] * Product(sizes[1..]) + rest
  }

  lemma {:induction false} ProductPositive(sizes: seq<int>)
    requires AllPositive(sizes)
    ensures Product(sizes) >= 1
  {
    if |sizes| > 0 {
      ProductPositive(sizes[1..]);
      MulSign(sizes[0], Product(sizes[1..]));
    }
  }

  /** The in-bounds index whose flat position is `k`. */
  function Unflatten(sizes: seq<int>, k: int): (index: seq<int>)
    requires AllPositive(sizes)
    requires 0 <= k < Product(sizes)
    ensures InBounds(sizes, index)
  {
    if |sizes| == 0 then []
    else
      ProductPositive(sizes[1..]);
      var sub := Product(sizes[1..]);
      DivBelow(k, sizes[0], sub);
      [k / sub] + Unflatten(sizes[1..], k % sub)
  }

  /** Appending an axis multiplies the element count by its size. */
  lemma {:induction false} ProductSnoc(sizes: seq<int>, size: int)
    ensures Product(sizes + [size]) == Product(sizes) * size
  {
    if |sizes| > 0 {
      assert (sizes + [size])[1..] == sizes[1..] + [size];
      ProductSnoc(sizes[1..], size);
    }
  }

  /** The weight of axis `i - 1` is the size of axis `i` times the weight of axis `i`. */
  lemma ProductCons(sizes: seq<int>, i: int)
    requires 0 <= i < |sizes|
    ensures Product(sizes[i..]) == sizes[i] * Product(sizes[i + 1..])
  {
    assert sizes[i..][1..] == sizes[i + 1..];
  }

  lemma {:induction false} FlattenUnflatten(sizes: seq<int>, k: int)
    requires AllPositive(sizes)
    requires 0 <= k < Product(sizes)
    ensures Flatten(sizes, Unflatten(sizes, k)) == k
  {
    if |sizes| > 0 {
      ProductPositive(sizes[1..]);
      var sub := Product(sizes[1..]);
      DivBelow(k, sizes[0], sub);
      FlattenUnflatten(sizes[1..], k % sub);
      var u := Unflatten(sizes, k);
      assert u[0] == k / sub;
      assert u[1..] == Unflatten(sizes[1..], k % sub);
    }
  }

  lemma {:induction false} UnflattenFlatten(sizes: seq<int>, index: seq<int>)
    requires InBounds(sizes, index)
    ensures AllPositive(sizes)
    ensures 0 <= Flatten(sizes, index) < Product(sizes)
    ensures Unflatten(sizes, Flatten(sizes, index)) == index
  {
    if |sizes| > 0 {
      var sub := Product(sizes[1..]);
      var rest := Flatten(sizes[1..], index[1..]);
      UnflattenFlatten(sizes[1..], index[1..]);
      var k := Flatten(sizes, index);
      assert k == index[0] * sub + rest;
      DivOfSum(index[0], rest, sub);
      assert k / sub == index[0] && k % sub == rest;
      assert Unflatten(sizes, k) == [index[0]] + Unflatten(sizes[1..], rest);
      assert index == [index[0]] + index[1..];
    }
  }

  /** Distinct in-bounds indices occupy distinct flat positions. */
  lemma FlattenInjective(sizes: seq<int>, a: seq<int>, b: seq<int>)
    requires InBounds(sizes, a) && InBounds(sizes, b)
    requires Flatten(sizes, a) == Flatten(sizes, b)
    ensures a == b
  {
    UnflattenFlatten(sizes, a);
    UnflattenFlatten(sizes, b);
  }

  /** Changing component `i` by `v - index[i]` moves the flat position by that
      many times the weight of axis `i`. */
  lemma {:induction false} FlattenUpdate(sizes: seq<int>, index: seq<int>, i: int, v: int)
    requires |index| == |sizes| && 0 <= i < |sizes|
    ensures Flatten(sizes, index[i := v])
         == Flatten(sizes, index) + (v - index[i]) * Product(sizes[i + 1..])
  {
    if i == 0 {
      assert index[i := v][1..] == index[1..];
      assert v * Product(sizes[1..]) - index[0] * Product(sizes[1..])
          == (v - index[0]) * Product(sizes[1..]);
    } else {
      assert index[i := v][1..] == index[1..][i - 1 := v];
      assert sizes[1..][i - 1 + 1..] == sizes[i + 1..];
      FlattenUpdate(sizes[1..], index[1..], i - 1, v);
    }
  }

  /** The all-zero index is in bounds and sits at flat position 0. */
  lemma {:induction false} FlattenZeros(sizes: seq<int>)
    requires AllPositive(sizes)
    ensures InBounds(sizes, seq(|sizes|, _ => 0))
    ensures Flatten(sizes, seq(|sizes|, _ => 0)) == 0
  {
    if |sizes| > 0 {
      assert seq(|sizes|, _ => 0)[1..] == seq(|sizes| - 1, _ => 0);
      FlattenZeros(sizes[1..]);
    }
  }

  /** With a single axis the flat position is the component itself. */
  lemma FlattenOneAxis(sizes: seq<int>, index: seq<int>)
    requires |sizes| == |index| == 1
    ensures Flatten(sizes, index) == index[0]
  {
    assert Flatten(sizes[1..], index[1..]) == 0;
  }

  /** With two axes the flat position is `index[1] + index[0] * sizes[1]`. */
  lemma FlattenTwoAxes(sizes: seq<int>, index: seq<int>)
    requires |sizes| == |index| == 2
    ensures Flatten(sizes, index) == index[1] + index[0] * sizes[1]
  {
    FlattenOneAxis(sizes[1..], index[1..]);
    assert Product(sizes[1..]) == sizes[1] * Product(sizes[2..]);
  }

  /** Peeling axis `i` off the suffix of the sum that starts there. */
  lemma FlattenSuffix(sizes: seq<int>, index: seq<int>, i: int)
    requires |index| == |sizes| && 0 <= i < |sizes|
    ensures Flatten(sizes[i..], index[i..])
         == index[i] * Product(sizes[i + 1..]) + Flatten(sizes[i + 1..], index[i + 1..])
  {
    assert sizes[i..][1..] == sizes[i + 1..];
    assert index[i..][1..] == index[i + 1..];
  }
}
