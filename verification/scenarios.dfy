/** Whole-step facts for particular rules and worked examples of the
    driver's cache on concrete automata. */
module Scenarios {

  import opened Options
  import opened RowMajor
  import opened Dimensions
  import opened CellGroups
  import opened Rules
  import opened ElementaryTable
  import opened Automaton

  /** A mutable one-axis group holding `cells`. */
  function Row(cells: seq<int>): (g: CellGroup)
    requires |cells| >= 1
    ensures g.Valid() && g.NumDimensions() == 1 && !g.immutable && g.cells == cells
  {
    assert [|cells|][1..] == [];
    assert Product([|cells|]) == |cells| * Product([]);
    CellGroup(Dimensions([|cells|], |cells|), cells, false)
  }

  /** Cell `x` of an elementary step, spelled out. */
  lemma BinaryStepCell(ruleNo: int, g: CellGroup, x: int)
    requires 0 <= ruleNo <= 255 && g.Valid() && g.NumDimensions() == 1 && 0 <= x < |g.cells|
    ensures Step(Binary1D(ruleNo), g).cells[x]
         == BinaryNext(ruleNo, Neighbour(g, x - 1), Neighbour(g, x), Neighbour(g, x + 1))
  {
  }

  /** Rule 0 clears every cell, whatever the group holds. */
  lemma RuleZeroStep(g: CellGroup)
    requires g.Valid() && g.NumDimensions() == 1
    ensures forall x :: 0 <= x < |g.cells| ==> Step(Binary1D(0), g).cells[x] == 0
  {
    forall x | 0 <= x < |g.cells|
      ensures Step(Binary1D(0), g).cells[x] == 0
    {
      BinaryStepCell(0, g, x);
      RuleZero(Neighbour(g, x - 1), Neighbour(g, x), Neighbour(g, x + 1));
    }
  }

  /** Rule 255 sets every cell of a group of 0/1 cells. */
  lemma RuleAllOnesStep(g: CellGroup)
    requires g.Valid() && g.NumDimensions() == 1
    requires forall x :: 0 <= x < |g.cells| ==> g.cells[x] == 0 || g.cells[x] == 1
    ensures forall x :: 0 <= x < |g.cells| ==> Step(Binary1D(255), g).cells[x] == 1
  {
    forall x | 0 <= x < |g.cells|
      ensures Step(Binary1D(255), g).cells[x] == 1
    {
      var left, center, right := Neighbour(g, x - 1), Neighbour(g, x), Neighbour(g, x + 1);
      assert 0 <= left <= 1 && 0 <= center <= 1 && 0 <= right <= 1;
      BinaryStepCell(255, g, x);
      RuleAllOnes(left, center, right);
    }
  }

  /** Under rule 90 a cell of a 0/1 group becomes the exclusive or of its
      two neighbours. */
  lemma RuleNinetyCell(g: CellGroup, x: int)
    requires g.Valid() && g.NumDimensions() == 1 && 0 <= x < |g.cells|
    requires forall y :: 0 <= y < |g.cells| ==> g.cells[y] == 0 || g.cells[y] == 1
    ensures Step(Binary1D(90), g).cells[x] == (if Neighbour(g, x - 1) == Neighbour(g, x + 1) then 0 else 1)
  {
    var left, center, right := Neighbour(g, x - 1), Neighbour(g, x), Neighbour(g, x + 1);
    assert 0 <= left <= 1 && 0 <= center <= 1 && 0 <= right <= 1;
    BinaryStepCell(90, g, x);
    RuleNinety(left, center, right);
  }

  /** Rule 90 over a whole 0/1 group. */
  lemma RuleNinetyStep(g: CellGroup)
    requires g.Valid() && g.NumDimensions() == 1
    requires forall x :: 0 <= x < |g.cells| ==> g.cells[x] == 0 || g.cells[x] == 1
    ensures forall x :: 0 <= x < |g.cells| ==>
      Step(Binary1D(90), g).cells[x] == (if Neighbour(g, x - 1) == Neighbour(g, x + 1) then 0 else 1)
  {
    forall x | 0 <= x < |g.cells|
      ensures Step(Binary1D(90), g).cells[x]
           == (if Neighbour(g, x - 1) == Neighbour(g, x + 1) then 0 else 1)
    {
      RuleNinetyCell(g, x);
    }
  }

  /** Rule 90 turns a single live cell into its two neighbours. */
  lemma RuleNinetyExample(g: CellGroup)
    requires g.Valid() && g.NumDimensions() == 1 && g.cells == [0, 0, 1, 0, 0]
    ensures Step(Binary1D(90), g).cells == [0, 1, 0, 1, 0]
  {
    RuleNinetyStep(g);
    SeedNeighbours(g, Step(Binary1D(90), g).cells);
  }

  /** The cell-by-cell reading of rule 90 on the seed (0, 0, 1, 0, 0), over
      an arbitrary sequence so that no step is unfolded. */
  lemma SeedNeighbours(g: CellGroup, s: seq<int>)
    requires g.Valid() && g.NumDimensions() == 1 && g.cells == [0, 0, 1, 0, 0] && |s| == 5
    requires forall x :: 0 <= x < |s| ==> s[x] == (if Neighbour(g, x - 1) == Neighbour(g, x + 1) then 0 else 1)
    ensures s == [0, 1, 0, 1, 0]
  {
    assert s[0] == 0 && s[1] == 1 && s[2] == 0 && s[3] == 1 && s[4] == 0;
  }

  /** The additive rule with min 0, max 9, no scaling and WRAP steps
      (1, 2, 3) to (3, 6, 5). */
  lemma AdditiveExample(rule: Rule, g: CellGroup)
    requires rule == NewAdditive1DRuleWithModes(0, 9, 2, 0).value
    requires g.Valid() && g.NumDimensions() == 1 && g.cells == [1, 2, 3]
    ensures NewAdditive1DRuleWithModes(0, 9, 2, 0).Some?
    ensures Step(rule, g).cells == [3, 6, 5]
  {
    var next := Step(rule, g);
    assert rule.scale(2) == 2 && rule.scale(4) == 4;
    assert next.cells[0] == WrapOrClamp(Wrap, 0, 10, 3) == 3;
    assert next.cells[1] == WrapOrClamp(Wrap, 0, 10, 6) == 6;
    assert next.cells[2] == WrapOrClamp(Wrap, 0, 10, 5) == 5;
  }

  /** Asking for the same iteration twice returns the same group, and the
      second request leaves the state alone. */
  method GetIterationTwice(a: Automaton, iteration: int)
    returns (b: Automaton, first: Option<CellGroup>, c: Automaton, second: Option<CellGroup>)
    requires a.Valid()
    ensures first == second && c == b
  {
    b, first := GetIteration(a, iteration);
    c, second := GetIteration(b, iteration);
  }

  /** Iterations 1 and 2 of rule 1 on the single cell 0: the cell turns on,
      then off again. */
  lemma RuleOneIterations(g0: CellGroup)
    requires g0.Valid() && g0.NumDimensions() == 1 && g0.cells == [0]
    ensures Iterate(Binary1D(1), g0, 1).cells == [1]
    ensures Iterate(Binary1D(1), g0, 2).cells == [0]
  {
    var rule := Binary1D(1);
    IterateNext(rule, g0, 0, 1);
    LoneCellStep(1, g0);
    IterateNext(rule, g0, 1, 2);
    LoneCellStep(1, Iterate(rule, g0, 1));
  }

  /** An elementary step of a one-cell group sees 0 on both sides. */
  lemma LoneCellStep(ruleNo: int, g: CellGroup)
    requires 0 <= ruleNo <= 255 && g.Valid() && g.NumDimensions() == 1 && |g.cells| == 1
    ensures Step(Binary1D(ruleNo), g).cells == [BinaryNext(ruleNo, 0, g.cells[0], 0)]
  {
    BinaryStepCell(ruleNo, g, 0);
  }

  /** Requesting iteration 2 and then iteration 1 returns iteration 2 again:
      a request below the newest cached iteration returns the newest one,
      not the one asked for. */
  method StaleIterationExample() returns (r: Option<CellGroup>)
    ensures r.Some? && r.value.cells == [0]
    ensures r != Some(Iterate(Binary1D(1), Row([0]), 1))
  {
    var a := NewAutomaton(Row([0]), Binary1D(1)).value;
    var b, latest := GetIteration(a, 2);
    var c;
    c, r := GetIteration(b, 1);
    RuleOneIterations(Row([0]));
  }

  /** Growing past 256 entries evicts the oldest: after iteration 300 the
      window is iterations 45 to 300, and a later request for iteration 30,
      below the window, changes nothing and returns iteration 300. */
  method EvictionExample(initial: CellGroup, rule: Rule)
    returns (b: Automaton, c: Automaton, r: Option<CellGroup>)
    requires initial.Valid() && rule.Valid() && initial.NumDimensions() == rule.RequiredNumDimensions()
    ensures |b.cache| == 256 && b.cacheOffset == 45 && b.Newest() == 300
    ensures c == b && r == Some(Iterate(rule, initial, 300))
  {
    var a := NewAutomaton(initial, rule).value;
    var latest;
    b, latest := GetIteration(a, 300);
    c, r := GetIteration(b, 30);
  }
}
