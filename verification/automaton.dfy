/** `DefaultCellularAutomaton`: the driver that turns an initial group and a
    rule into iterations, keeping a forward-only cache of at most 256
    consecutive generations described by the pair (cacheOffset, cache). */
module Automaton {

  import opened Arith
  import opened Options
  import opened RowMajor
  import opened Dimensions
  import opened CellGroups
  import opened Rules

  /** `MAX_CACHE_CAPACITY`. */
  const MaxCacheCapacity: nat := 256

  /** One generation step as a function: cell `x` of the result combines
      cell `x` of `g` with its two neighbours, read as 0 outside. */
  function Step(rule: Rule, g: CellGroup): (next: CellGroup)
    requires rule.Valid() && g.Valid() && g.NumDimensions() == rule.RequiredNumDimensions()
    ensures next.Valid() && next.dims == g.dims && !next.immutable
  {
    var n := g.dims.numElements;
    CellGroup(g.dims, seq(n, x requires 0 <= x < n => StepCell(rule, g, x)), false)
  }

  function StepCell(rule: Rule, g: CellGroup, x: int): int
    requires rule.Valid() && g.Valid() && g.NumDimensions() == rule.RequiredNumDimensions()
  {
    Combine(rule, Neighbour(g, x - 1), Neighbour(g, x), Neighbour(g, x + 1))
  }

  /** Every in-bounds cell of a step holds the rule's next value for it. */
  lemma StepComputesEveryCell(rule: Rule, g: CellGroup)
    requires rule.Valid() && g.Valid() && g.NumDimensions() == rule.RequiredNumDimensions()
    ensures forall index :: InBounds(g.dims.sizes, index) ==>
      GetValue(Step(rule, g), index) == NextCellValue(rule, g, index)
  {
    forall index | InBounds(g.dims.sizes, index)
      ensures GetValue(Step(rule, g), index) == NextCellValue(rule, g, index)
    {
      StepCellIsNextValue(rule, g, index);
    }
  }

  /** The step's cell at an in-bounds index is the rule's next value there. */
  lemma StepCellIsNextValue(rule: Rule, g: CellGroup, index: seq<int>)
    requires rule.Valid() && g.Valid() && g.NumDimensions() == rule.RequiredNumDimensions()
    requires InBounds(g.dims.sizes, index)
    ensures 0 <= Flatten(g.dims.sizes, index) < |Step(rule, g).cells|
    ensures Step(rule, g).cells[Flatten(g.dims.sizes, index)] == NextCellValue(rule, g, index).value
    ensures GetValue(Step(rule, g), index) == NextCellValue(rule, g, index)
  {
    var x := index[0];
    FlattenOneAxis(g.dims.sizes, index);
    assert index == [x];
    NextCellValueOneAxis(rule, g, x);
    var next := Step(rule, g);
    assert next.cells[x] == StepCell(rule, g, x);
  }

  /** The `n`-th iterate of the rule from `initial`. */
  function Iterate(rule: Rule, initial: CellGroup, n: nat): (g: CellGroup)
    requires rule.Valid() && initial.Valid() && initial.NumDimensions() == rule.RequiredNumDimensions()
    ensures g.Valid() && g.dims == initial.dims
    ensures n > 0 ==> !g.immutable
  {
    if n == 0 then initial else Step(rule, Iterate(rule, initial, n - 1))
  }

  /** `incrementIndex`: an odometer over the axes, the last axis turning
      fastest and a full axis carrying into the one before it.  The result
      is the in-bounds index that follows in row-major order, wrapping from
      the last index back to all zeros. */
  method IncrementIndex(currIndex: seq<int>, dimSizes: seq<int>) returns (next: seq<int>)
    requires InBounds(dimSizes, currIndex)
    ensures InBounds(dimSizes, next)
    ensures Flatten(dimSizes, next)
         == if Flatten(dimSizes, currIndex) + 1 < Product(dimSizes) then Flatten(dimSizes, currIndex) + 1 else 0
  {
    next := currIndex;
    var carry := true;
    var i := |next| - 1;
    while i >= 0 && carry
      invariant -1 <= i < |next|
      invariant InBounds(dimSizes, next)
      invariant Flatten(dimSizes, next) + (if carry then Product(dimSizes[i + 1..]) else 0)
             == Flatten(dimSizes, currIndex) + 1
      decreases i + 1
    {
      carry := false;
      BumpComponent(dimSizes, next, i);
      next := next[i := next[i] + 1];
      if next[i] == dimSizes[i] {
        ResetComponent(dimSizes, next, i);
        next := next[i := 0];
        carry := true;
      }
      i := i - 1;
    }
    assert dimSizes[0..] == dimSizes;
  }

  /** The order in which `generateIteration` visits indices: starting from
      all zeros and applying `incrementIndex` once per cell, the `k`-th
      index visited is the one at flat position `k`, so every in-bounds index
      is visited exactly once. */
  method OdometerOrder(dimSizes: seq<int>) returns (visited: seq<seq<int>>)
    requires AllPositive(dimSizes)
    ensures |visited| == Product(dimSizes)
    ensures forall k :: 0 <= k < |visited| ==>
      InBounds(dimSizes, visited[k]) && Flatten(dimSizes, visited[k]) == k
    ensures forall index :: InBounds(dimSizes, index) ==> visited[Flatten(dimSizes, index)] == index
  {
    ProductPositive(dimSizes);
    var totalElements := Product(dimSizes);
    var currIndex := seq(|dimSizes|, _ => 0);
    FlattenZeros(dimSizes);
    visited := [];
    while |visited| < totalElements
      invariant |visited| <= totalElements
      invariant InBounds(dimSizes, currIndex)
      invariant |visited| < totalElements ==> Flatten(dimSizes, currIndex) == |visited|
      invariant forall k :: 0 <= k < |visited| ==>
        InBounds(dimSizes, visited[k]) && Flatten(dimSizes, visited[k]) == k
    {
      visited := visited + [currIndex];
      currIndex := IncrementIndex(currIndex, dimSizes);
    }
    forall index | InBounds(dimSizes, index)
      ensures visited[Flatten(dimSizes, index)] == index
    {
      FlattenInjective(dimSizes, visited[Flatten(dimSizes, index)], index);
    }
  }

  /** Adding one to component `i` adds the weight of axis `i`. */
  lemma BumpComponent(sizes: seq<int>, index: seq<int>, i: int)
    requires |index| == |sizes| && 0 <= i < |sizes|
    ensures Flatten(sizes, index[i := index[i] + 1]) == Flatten(sizes, index) + Product(sizes[i + 1..])
  {
    FlattenUpdate(sizes, index, i, index[i] + 1);
    assert (index[i] + 1 - index[i]) * Product(sizes[i + 1..]) == Product(sizes[i + 1..]);
  }

  /** Resetting a component that reached its axis size to 0 removes one
      full turn of that axis, the weight of axis `i - 1`. */
  lemma ResetComponent(sizes: seq<int>, index: seq<int>, i: int)
    requires |index| == |sizes| && 0 <= i < |sizes| && index[i] == sizes[i]
    ensures Flatten(sizes, index[i := 0]) + Product(sizes[i..]) == Flatten(sizes, index)
  {
    var weight := Product(sizes[i + 1..]);
    FlattenUpdate(sizes, index, i, 0);
    ProductCons(sizes, i);
    MulNegate(index[i], weight);
  }

  /** `generateIteration`: walks every index with the odometer, starting
      from all zeros, storing the rule's next value for each one. */
  method GenerateIteration(rule: Rule, prev: CellGroup) returns (next: CellGroup)
    requires rule.Valid() && prev.Valid() && prev.NumDimensions() == rule.RequiredNumDimensions()
    ensures next.Valid() && next.dims == prev.dims && !next.immutable
    ensures forall index :: InBounds(prev.dims.sizes, index) ==>
      GetValue(next, index) == NextCellValue(rule, prev, index)
    ensures next == Step(rule, prev)
  {
    var dims := prev.dims;
    next := NewCellGroup(dims);
    var numDims := |dims.sizes|;
    var totalElements := dims.numElements;
    var dimSizes := dims.sizes;
    var currIndex := seq(numDims, _ => 0);
    FlattenZeros(dimSizes);
    var elementsUpdated := 0;
    while elementsUpdated < totalElements
      invariant 0 <= elementsUpdated <= totalElements
      invariant InBounds(dimSizes, currIndex)
      invariant elementsUpdated < totalElements ==> Flatten(dimSizes, currIndex) == elementsUpdated
      invariant next.Valid() && next.dims == dims && !next.immutable
      invariant forall k :: 0 <= k < elementsUpdated ==> next.cells[k] == Step(rule, prev).cells[k]
    {
      var newValue := NextCellValue(rule, prev, currIndex).value;
      StoreStepCell(rule, prev, next, currIndex, elementsUpdated);
      next := SetValue(next, newValue, currIndex).value;
      elementsUpdated := elementsUpdated + 1;
      currIndex := IncrementIndex(currIndex, dimSizes);
    }
    assert next.cells == Step(rule, prev).cells;
    StepComputesEveryCell(rule, prev);
  }

  /** One turn of the generation loop: storing the next value at the index
      whose flat position is `k` extends the agreeing prefix by one cell. */
  lemma StoreStepCell(rule: Rule, prev: CellGroup, next: CellGroup, index: seq<int>, k: int)
    requires rule.Valid() && prev.Valid() && prev.NumDimensions() == rule.RequiredNumDimensions()
    requires next.Valid() && next.dims == prev.dims && !next.immutable
    requires InBounds(prev.dims.sizes, index) && Flatten(prev.dims.sizes, index) == k
    requires forall j :: 0 <= j < k ==> next.cells[j] == Step(rule, prev).cells[j]
    ensures SetValue(next, NextCellValue(rule, prev, index).value, index).Some?
    ensures var stored := SetValue(next, NextCellValue(rule, prev, index).value, index).value;
      && stored.Valid() && stored.dims == prev.dims && !stored.immutable
      && forall j :: 0 <= j <= k ==> stored.cells[j] == Step(rule, prev).cells[j]
  {
    StepCellIsNextValue(rule, prev, index);
    var stored := SetValue(next, NextCellValue(rule, prev, index).value, index).value;
    assert stored.cells[k] == Step(rule, prev).cells[k];
  }

  /** One step further: iteration `n + 1` is the step applied to iteration `n`. */
  lemma IterateNext(rule: Rule, initial: CellGroup, n: nat, m: nat)
    requires rule.Valid() && initial.Valid() && initial.NumDimensions() == rule.RequiredNumDimensions()
    requires m == n + 1
    ensures Iterate(rule, initial, m) == Step(rule, Iterate(rule, initial, n))
  {
  }

  /** Iteration numbers mapped to their groups. */
  function IterateFrom(rule: Rule, initial: CellGroup): (f: nat -> CellGroup)
    requires rule.Valid() && initial.Valid() && initial.NumDimensions() == rule.RequiredNumDimensions()
  {
    (n: nat) => Iterate(rule, initial, n)
  }

  /** The `count` consecutive values `f(first)`, `f(first + 1)`, ... */
  function Window(f: nat -> CellGroup, first: nat, count: nat): (gs: seq<CellGroup>)
    ensures |gs| == count
  {
    seq(count, k requires 0 <= k < count => f(first + k))
  }

  /** A window grows at its end by the next value. */
  lemma WindowSnoc(f: nat -> CellGroup, first: nat, count: nat, next: nat)
    requires next == first + count
    ensures Window(f, first, count + 1) == Window(f, first, count) + [f(next)]
  {
    assert Window(f, first, count + 1)[count] == f(next);
  }

  /** Two adjacent windows join into one. */
  lemma WindowAppend(f: nat -> CellGroup, first: nat, c1: nat, c2: nat)
    ensures Window(f, first, c1) + Window(f, first + c1, c2) == Window(f, first, c1 + c2)
  {
    var joined := Window(f, first, c1) + Window(f, first + c1, c2);
    forall k | c1 <= k < c1 + c2
      ensures joined[k] == Window(f, first, c1 + c2)[k]
    {
      assert first + c1 + (k - c1) == first + k;
    }
  }

  /** Dropping the first `d` entries of a window leaves the window that
      starts `d` later. */
  lemma WindowDrop(f: nat -> CellGroup, first: nat, count: nat, d: nat)
    requires d <= count
    ensures Window(f, first, count)[d..] == Window(f, first + d, count - d)
  {
    WindowAppend(f, first, d, count - d);
  }

  /** The driver state.  `initial` is iteration 0; `cache[k]` is meant to
      hold iteration `cacheOffset + k`. */
  datatype Automaton = Automaton(initial: CellGroup, rule: Rule, cacheOffset: int, cache: seq<CellGroup>)
  {
    /** The cache-window invariant every operation keeps: the cache is a
        non-empty run of at most 256 consecutive iterations. */
    predicate Valid()
    {
      && rule.Valid()
      && initial.Valid()
      && initial.NumDimensions() == rule.RequiredNumDimensions()
      && 1 <= |cache| <= MaxCacheCapacity
      && cacheOffset >= 0
      && cache == Window(IterateFrom(rule, initial), cacheOffset, |cache|)
    }

    /** The highest iteration held in the cache. */
    function Newest(): int
    {
      cacheOffset + |cache| - 1
    }

    /** `getDimensions`. */
    function GetDimensions(): Dimensions
    {
      initial.dims
    }
  }

  /** Every cached entry is the iteration its position names. */
  lemma CachedEntry(a: Automaton, k: int, n: nat)
    requires a.Valid() && 0 <= k < |a.cache| && n == a.cacheOffset + k
    ensures a.cache[k] == Iterate(a.rule, a.initial, n)
  {
    assert a.cache[k] == IterateFrom(a.rule, a.initial)(n);
  }

  /** The constructor and `setup`: the rule must want as many axes as the
      initial group has; the cache starts as just the initial group. */
  function NewAutomaton(initial: CellGroup, rule: Rule): (r: Option<Automaton>)
    requires initial.Valid() && rule.Valid()
    ensures r.Some? <==> initial.NumDimensions() == rule.RequiredNumDimensions()
    ensures r.Some? ==> r.value.Valid() && r.value.initial == initial && r.value.rule == rule
    ensures r.Some? ==> r.value.cacheOffset == 0 && r.value.cache == [initial]
  {
    if initial.NumDimensions() != rule.RequiredNumDimensions() then None
    else
      assert Window(IterateFrom(rule, initial), 0, 1) == [initial];
      Some(Automaton(initial, rule, 0, [initial]))
  }

  /** The generation loop of `fillCacheToIteration`: starting from the
      group of iteration `from`, produce the next `count` iterations. */
  method GenerateForward(rule: Rule, initial: CellGroup, from: nat, latest: CellGroup, count: nat)
    returns (generated: seq<CellGroup>)
    requires rule.Valid() && initial.Valid() && initial.NumDimensions() == rule.RequiredNumDimensions()
    requires latest == Iterate(rule, initial, from)
    ensures generated == Window(IterateFrom(rule, initial), from + 1, count)
  {
    var latestGroup := latest;
    generated := [];
    var i := 0;
    ghost var n: nat := from;
    while i < count
      invariant 0 <= i <= count && n == from + i
      invariant latestGroup == Iterate(rule, initial, n)
      invariant generated == Window(IterateFrom(rule, initial), from + 1, i)
    {
      var next := GenerateIteration(rule, latestGroup);
      ghost var m: nat := n + 1;
      IterateNext(rule, initial, n, m);
      WindowSnoc(IterateFrom(rule, initial), from + 1, i, m);
      generated := generated + [next];
      latestGroup := next;
      i := i + 1;
      n := m;
    }
  }

  /** The branch of `fillCacheToIteration` above the window: generate
      exactly the missing iterations from the newest cached group, append
      them, and drop the oldest entries beyond 256. */
  method ExtendCache(a: Automaton, iteration: int) returns (b: Automaton)
    requires a.Valid() && iteration > a.Newest()
    ensures b.Valid() && b.initial == a.initial && b.rule == a.rule
    ensures b.Newest() == iteration
    ensures |a.cache| + (iteration - a.Newest()) <= MaxCacheCapacity ==> b.cacheOffset == a.cacheOffset
    ensures |a.cache| + (iteration - a.Newest()) > MaxCacheCapacity ==>
      |b.cache| == MaxCacheCapacity && b.cacheOffset == iteration - MaxCacheCapacity + 1
  {
    var maxCacheIteration := a.cacheOffset + |a.cache| - 1;
    var groupsToGenerate := iteration - maxCacheIteration;
    var latestGroup := a.cache[|a.cache| - 1];
    CachedEntry(a, |a.cache| - 1, maxCacheIteration);
    var generated := GenerateForward(a.rule, a.initial, maxCacheIteration, latestGroup, groupsToGenerate);
    ghost var f := IterateFrom(a.rule, a.initial);
    WindowAppend(f, a.cacheOffset, |a.cache|, groupsToGenerate);
    var cache := a.cache + generated;
    var cacheOffset := a.cacheOffset;
    if |cache| > MaxCacheCapacity {
      var minCacheIteration := iteration - MaxCacheCapacity + 1;
      WindowDrop(f, cacheOffset, |cache|, minCacheIteration - cacheOffset);
      cache := cache[minCacheIteration - cacheOffset..];
      cacheOffset := minCacheIteration;
    }
    b := a.(cacheOffset := cacheOffset, cache := cache);
  }

  /** `fillCacheToIteration`.  Iterations below 1 fail.  Above the window
      the cache is extended; inside the window, and below it, nothing
      changes. */
  method FillCacheToIteration(a: Automaton, iteration: int) returns (r: Option<Automaton>)
    requires a.Valid()
    ensures r.None? <==> iteration <= 0
    ensures r.Some? ==> r.value.Valid() && r.value.initial == a.initial && r.value.rule == a.rule
    ensures r.Some? && iteration <= a.Newest() ==> r.value == a
    ensures r.Some? && iteration > a.Newest() ==> r.value.Newest() == iteration
    ensures r.Some? && iteration > a.Newest() && |a.cache| + (iteration - a.Newest()) <= MaxCacheCapacity ==>
      r.value.cacheOffset == a.cacheOffset
    ensures r.Some? && iteration > a.Newest() && |a.cache| + (iteration - a.Newest()) > MaxCacheCapacity ==>
      |r.value.cache| == MaxCacheCapacity && r.value.cacheOffset == iteration - MaxCacheCapacity + 1
  {
    if iteration <= 0 {
      return None;
    }
    var minCacheIteration := a.cacheOffset;
    var maxCacheIteration :=
      a.cacheOffset + (if |a.cache| <= MaxCacheCapacity then |a.cache| else MaxCacheCapacity) - 1;
    if iteration > maxCacheIteration {
      var b := ExtendCache(a, iteration);
      return Some(b);
    } else if iteration <= maxCacheIteration && iteration >= minCacheIteration {
      // The iteration is cached already.
      return Some(a);
    } else {
      // Below the window: left unimplemented, so nothing changes.
      return Some(a);
    }
  }

  /** `getIteration`.  Negative iterations fail, iteration 0 is the initial
      group, and any other request fills the cache and returns its LAST
      entry, which is the requested iteration only when the request was at
      or above the newest cached one. */
  method GetIteration(a: Automaton, iteration: int) returns (b: Automaton, r: Option<CellGroup>)
    requires a.Valid()
    ensures b.Valid() && b.initial == a.initial && b.rule == a.rule
    ensures r.None? <==> iteration < 0
    ensures iteration <= 0 ==> b == a
    ensures iteration == 0 ==> r == Some(a.initial)
    ensures iteration > 0 ==> r == Some(b.cache[|b.cache| - 1]) && b.Newest() >= iteration
    ensures iteration > 0 ==> r == Some(Iterate(a.rule, a.initial, b.Newest()))
    ensures iteration >= a.Newest() && iteration > 0 ==>
      r == Some(Iterate(a.rule, a.initial, iteration)) && b.Newest() == iteration
    ensures 0 < iteration <= a.Newest() ==>
      b == a && r == Some(Iterate(a.rule, a.initial, a.Newest()))
    ensures iteration > a.Newest() && |a.cache| + (iteration - a.Newest()) <= MaxCacheCapacity ==>
      b.cacheOffset == a.cacheOffset
    ensures iteration > a.Newest() && |a.cache| + (iteration - a.Newest()) > MaxCacheCapacity ==>
      |b.cache| == MaxCacheCapacity && b.cacheOffset == iteration - MaxCacheCapacity + 1
  {
    if iteration < 0 {
      return a, None;
    } else if iteration == 0 {
      return a, Some(a.initial);
    } else {
      var filled := FillCacheToIteration(a, iteration);
      b := filled.value;
      r := Some(b.cache[|b.cache| - 1]);
      ghost var newest: nat := b.Newest();
      CachedEntry(b, |b.cache| - 1, newest);
      if iteration >= a.Newest() {
        assert newest == iteration;
      } else {
        assert newest == a.Newest();
      }
    }
  }
}
