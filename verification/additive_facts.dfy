/** Facts about `Additive1DRule` that follow from the code as written and
    differ from its documentation. */
module AdditiveFacts {

  import opened Arith
  import opened CellGroups
  import opened Rules

  /** `additionRule` is checked at construction but never read when a next
      value is computed: LEFT_ONLY and RIGHT_ONLY compute exactly what BOTH
      computes. */
  lemma AdditionModeIgnored(rule: Rule, mode: Addition, prev: CellGroup, cellIndex: seq<int>)
    requires rule.Valid() && rule.Additive1D?
    ensures NextCellValue(rule.(addition := mode), prev, cellIndex) == NextCellValue(rule, prev, cellIndex)
  {
    if prev.NumDimensions() == 1 && |cellIndex| >= 1 {
      var x := cellIndex[0];
      CombineIgnoresAddition(rule, mode, CellFromGroup(prev, [x - 1]), CellFromGroup(prev, [x]),
        CellFromGroup(prev, [x + 1]));
    }
  }

  /** The combination of a cell with its neighbours reads no addition mode. */
  lemma CombineIgnoresAddition(rule: Rule, mode: Addition, left: int, center: int, right: int)
    requires rule.Valid() && rule.Additive1D?
    ensures Combine(rule.(addition := mode), left, center, right) == Combine(rule, left, center, right)
  {
  }

  /** CLAMP's ceiling is the stored `max`, one above the constructor's
      argument: with min 0 and max 9 a sum of 15 clamps to 10. */
  lemma ClampCeilingIsMaxPlusOne()
    ensures NewAdditive1DRuleWithModes(0, 9, 2, 1).Some?
    ensures NewAdditive1DRuleWithModes(0, 9, 2, 1).value.upper == 10
    ensures WrapOrClamp(Clamp, 0, 10, 15) == 10
  {
  }

  /** WRAP uses Java's truncating remainder, so a negative sum lands below
      `min`: with min 0 and max 9, -3 stays -3. */
  lemma WrapCanFallBelowMin()
    ensures WrapOrClamp(Wrap, 0, 10, -3) == -3
  {
  }

  /** WRAP adds the remainder of the value itself to `min` rather than
      re-basing `value - min`, so with min 3 and max 9 the in-range value 5
      becomes 8. */
  lemma WrapShiftsInRangeValues()
    ensures WrapOrClamp(Wrap, 3, 10, 5) == 8
  {
  }

  /** With `min` 0, WRAP leaves a value already in `[0, max]` unchanged. */
  lemma WrapFromZeroKeepsInRange(upper: int, val: int)
    requires upper > 1 && 0 <= val < upper
    ensures WrapOrClamp(Wrap, 0, upper, val) == val
  {
    DivOfSum(0, val, upper);
  }
}
