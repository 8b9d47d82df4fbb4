/** The rule hierarchy: the shared behaviour of `AbstractRule` (dimension
    check, safe read with border value 0) and the two integer variants,
    `Binary1DRule` and `Additive1DRule`, as one tagged datatype. */
module Rules {

  import opened Options
  import opened JavaInt
  import opened RowMajor
  import opened CellGroups

  /** `Additive1DRule.additionRule`: LEFT_ONLY = 0, RIGHT_ONLY = 1, BOTH = 2. */
  datatype Addition = LeftOnly | RightOnly | Both

  /** `Additive1DRule.overflowRule`: WRAP = 0, CLAMP = 1. */
  datatype Overflow = Wrap | Clamp

  function AdditionFromCode(code: int): Option<Addition>
  {
    if code == 0 then Some(LeftOnly)
    else if code == 1 then Some(RightOnly)
    else if code == 2 then Some(Both)
    else None
  }

  function OverflowFromCode(code: int): Option<Overflow>
  {
    if code == 0 then Some(Wrap)
    else if code == 1 then Some(Clamp)
    else None
  }

  /** `Binary1D` is `Binary1DRule` with its Wolfram rule number.
      `Additive1D` is `Additive1DRule`: `upper` is the class's `max` field,
      which its constructor sets to the `max` argument plus one, and `scale`
      stands for the float multiplication by `mix` followed by the cast back
      to `int`. */
  datatype Rule =
    | Binary1D(ruleNo: int)
    | Additive1D(min: int, upper: int, scale: int -> int, addition: Addition, overflow: Overflow)
  {
    /** What the constructors check before a rule object exists. */
    predicate Valid()
    {
      match this
      case Binary1D(ruleNo) => 0 <= ruleNo <= 255
      case Additive1D(min, upper, _, _, _) => upper - 1 > min
    }

    /** `getRequiredNumDimensions`: both variants work on one axis. */
    function RequiredNumDimensions(): nat
    {
      1
    }
  }

  /** `getDefaultCellValue`: the border value of every rule. */
  const DefaultCellValue: int := 0

  /** The `Binary1DRule` constructor. */
  function NewBinary1DRule(ruleNo: int): (r: Option<Rule>)
    ensures r.Some? <==> 0 <= ruleNo <= 255
    ensures r.Some? ==> r.value.Valid() && r.value.Binary1D? && r.value.ruleNo == ruleNo
    ensures r.Some? ==> r.value.RequiredNumDimensions() == 1
  {
    if ruleNo < 0 || ruleNo > 255 then None else Some(Binary1D(ruleNo))
  }

  /** The five-argument `Additive1DRule` constructor and `runErrorChecks`. */
  function NewAdditive1DRule(min: int, max: int, scale: int -> int, additionRule: int, overflowRule: int)
    : (r: Option<Rule>)
    ensures r.Some? <==> max > min && 0 <= additionRule <= 2 && 0 <= overflowRule <= 1
    ensures r.Some? ==> r.value.Valid() && r.value.Additive1D?
    ensures r.Some? ==> r.value.min == min && r.value.upper == max + 1 && r.value.scale == scale
    ensures r.Some? ==> (r.value.overflow == Clamp <==> overflowRule == 1)
    ensures r.Some? ==> (r.value.addition == LeftOnly <==> additionRule == 0)
    ensures r.Some? ==> (r.value.addition == Both <==> additionRule == 2)
    ensures r.Some? ==> r.value.RequiredNumDimensions() == 1
  {
    var upper := max + 1;
    var validMinMax := upper - 1 > min;
    var addition := AdditionFromCode(additionRule);
    var overflow := OverflowFromCode(overflowRule);
    if !validMinMax || addition.None? || overflow.None? then None
    else Some(Additive1D(min, upper, scale, addition.value, overflow.value))
  }

  /** `Additive1DRule(min, max)`: mix 1.0, BOTH, WRAP. */
  function NewAdditive1DRuleWithDefaults(min: int, max: int): (r: Option<Rule>)
    ensures r.Some? <==> max > min
    ensures r.Some? ==> r.value.Valid() && r.value.Additive1D?
    ensures r.Some? ==> r.value.min == min && r.value.upper == max + 1
    ensures r.Some? ==> r.value.addition == Both && r.value.overflow == Wrap
    ensures r.Some? ==> forall v :: r.value.scale(v) == v
  {
    NewAdditive1DRule(min, max, v => v, 2, 0)
  }

  /** `Additive1DRule(min, max, mix)`: BOTH, WRAP. */
  function NewAdditive1DRuleWithScale(min: int, max: int, scale: int -> int): (r: Option<Rule>)
    ensures r.Some? <==> max > min
    ensures r.Some? ==> r.value.Valid() && r.value.Additive1D? && r.value.scale == scale
    ensures r.Some? ==> r.value.min == min && r.value.upper == max + 1
    ensures r.Some? ==> r.value.addition == Both && r.value.overflow == Wrap
  {
    NewAdditive1DRule(min, max, scale, 2, 0)
  }

  /** `Additive1DRule(min, max, additionRule, overflowRule)`: mix 1.0. */
  function NewAdditive1DRuleWithModes(min: int, max: int, additionRule: int, overflowRule: int)
    : (r: Option<Rule>)
    ensures r.Some? <==> max > min && 0 <= additionRule <= 2 && 0 <= overflowRule <= 1
    ensures r.Some? ==> r.value.Valid() && r.value.Additive1D?
    ensures r.Some? ==> r.value.min == min && r.value.upper == max + 1
    ensures r.Some? ==> (r.value.overflow == Clamp <==> overflowRule == 1)
    ensures r.Some? ==> forall v :: r.value.scale(v) == v
  {
    NewAdditive1DRule(min, max, v => v, additionRule, overflowRule)
  }

  /** `getCellFromGroup`, the safe read: any failed lookup reads as the
      border value instead of throwing. */
  function CellFromGroup(group: CellGroup, index: seq<int>): (r: int)
    ensures GetValue(group, index).Some? ==> r == GetValue(group, index).value
    ensures GetValue(group, index).None? ==> r == DefaultCellValue
    ensures group.Valid() && |group.dims.sizes| == 1 && |index| == 1 ==>
      r == (if 0 <= index[0] < group.dims.sizes[0] then group.cells[index[0]] else 0)
  {
    assert |group.dims.sizes| == |index| == 1 ==> Flatten(group.dims.sizes, index) == index[0] by {
      if |group.dims.sizes| == |index| == 1 { FlattenOneAxis(group.dims.sizes, index); }
    }
    GetValue(group, index).GetOr(DefaultCellValue)
  }

  /** `Binary1DRule.getNextCellValueIMPL` after its three reads: the
      neighbourhood code `4 * left + 2 * center + right` is used as a shift
      distance, `(ruleNo >> code) % 2`. */
  function BinaryNext(ruleNo: int, left: int, center: int, right: int): (r: int)
    requires 0 <= ruleNo <= 255
    ensures r == 0 || r == 1
  {
    var code := 4 * left + 2 * center + right;
    HalveNonNegative(ruleNo, code % 32);
    Rem(ShiftRight(ruleNo, code), 2)
  }

  /** `wrapOrClampValue`.  `upper` is the stored `max`, one above the
      constructor's argument.  CLAMP bounds to `[min, upper]`; WRAP adds
      Java's truncating remainder by `upper - min` to `min`. */
  function WrapOrClamp(overflow: Overflow, min: int, upper: int, val: int): (r: int)
    requires upper - 1 > min
    ensures overflow == Clamp ==> min <= r <= upper
    ensures overflow == Clamp && min <= val <= upper ==> r == val
    ensures overflow == Clamp && val < min ==> r == min
    ensures overflow == Clamp && val > upper ==> r == upper
    ensures overflow == Wrap && val >= 0 ==> min <= r <= upper - 1
    ensures overflow == Wrap && val <= 0 ==> r <= min
    ensures overflow == Wrap ==> Abs(r - min) < upper - min
    ensures overflow == Wrap ==> (val - (r - min)) % (upper - min) == 0
  {
    match overflow
    case Clamp => Min(Max(val, min), upper)
    case Wrap =>
      var mod := upper - min;
      var modded := Rem(val, mod);
      min + modded
  }

  /** How each variant combines a cell with its two neighbours on axis 0.
      The additive variant never consults `addition`; it always adds both
      neighbours. */
  function Combine(rule: Rule, left: int, center: int, right: int): int
    requires rule.Valid()
  {
    match rule
    case Binary1D(ruleNo) => BinaryNext(ruleNo, left, center, right)
    case Additive1D(min, upper, scale, _, overflow) =>
      WrapOrClamp(overflow, min, upper, center + scale(left + right))
  }

  /** `getNextCellValueIMPL` of each variant: read the cell and its two
      neighbours on axis 0 through the safe read, then combine. */
  function NextCellValueImpl(rule: Rule, prev: CellGroup, x: int): int
    requires rule.Valid()
  {
    var center := CellFromGroup(prev, [x]);
    var left := CellFromGroup(prev, [x - 1]);
    var right := CellFromGroup(prev, [x + 1]);
    Combine(rule, left, center, right)
  }

  /** `AbstractRule.getNextCellValue`: a group whose axis count differs from
      the rule's requirement is refused; otherwise the variant's
      implementation runs, and it throws on an empty index when it reads
      `cellIndex[0]`. */
  function NextCellValue(rule: Rule, prev: CellGroup, cellIndex: seq<int>): (r: Option<int>)
    requires rule.Valid()
    ensures r.Some? <==> prev.NumDimensions() == rule.RequiredNumDimensions() && |cellIndex| >= 1
    ensures r.Some? ==> r.value == NextCellValueImpl(rule, prev, cellIndex[0])
    ensures r.Some? && rule.Binary1D? ==> r.value == 0 || r.value == 1
    ensures r.Some? && rule.Additive1D? && rule.overflow == Clamp ==>
      rule.min <= r.value <= rule.upper
  {
    if prev.NumDimensions() != rule.RequiredNumDimensions() then None
    else if |cellIndex| == 0 then None
    else Some(NextCellValueImpl(rule, prev, cellIndex[0]))
  }

  /** The value of cell `x` of a one-axis group, or the border value 0
      outside it. */
  function Neighbour(g: CellGroup, x: int): int
    requires g.Valid() && |g.dims.sizes| == 1
  {
    if 0 <= x < |g.cells| then g.cells[x] else 0
  }

  /** On a one-axis group of width n the safe reads at -1 and at n both
      yield the border value, and reads inside see the cell. */
  lemma SafeReadOneAxis(g: CellGroup, x: int)
    requires g.Valid() && |g.dims.sizes| == 1
    ensures |g.cells| == g.dims.sizes[0]
    ensures CellFromGroup(g, [x]) == Neighbour(g, x)
    ensures CellFromGroup(g, [-1]) == 0 && CellFromGroup(g, [|g.cells|]) == 0
  {
    assert g.dims.sizes[1..] == [];
    assert Product(g.dims.sizes) == g.dims.sizes[0] * Product(g.dims.sizes[1..]);
  }

  /** On a one-axis group the next value of cell `x` combines the cell and
      its two neighbours, each read as 0 outside the group. */
  lemma NextCellValueOneAxis(rule: Rule, g: CellGroup, x: int)
    requires rule.Valid() && g.Valid() && |g.dims.sizes| == 1
    ensures NextCellValue(rule, g, [x])
         == Some(Combine(rule, Neighbour(g, x - 1), Neighbour(g, x), Neighbour(g, x + 1)))
  {
    SafeReadOneAxis(g, x - 1);
    SafeReadOneAxis(g, x);
    SafeReadOneAxis(g, x + 1);
  }

  /** The elementary rule combines the cell and its two neighbours, each
      read as 0 outside the group. */
  lemma BinaryNeighbourhood(ruleNo: int, g: CellGroup, x: int)
    requires 0 <= ruleNo <= 255 && g.Valid() && |g.dims.sizes| == 1
    ensures NextCellValue(Binary1D(ruleNo), g, [x])
         == Some(BinaryNext(ruleNo, Neighbour(g, x - 1), Neighbour(g, x), Neighbour(g, x + 1)))
  {
    NextCellValueOneAxis(Binary1D(ruleNo), g, x);
  }

  /** The additive rule is `overflow(center + scale(left + right))`, with
      neighbours outside the group read as 0. */
  lemma AdditiveNeighbourhood(rule: Rule, g: CellGroup, x: int)
    requires rule.Valid() && rule.Additive1D? && g.Valid() && |g.dims.sizes| == 1
    ensures NextCellValue(rule, g, [x])
         == Some(WrapOrClamp(rule.overflow, rule.min, rule.upper,
                   Neighbour(g, x) + rule.scale(Neighbour(g, x - 1) + Neighbour(g, x + 1))))
  {
    NextCellValueOneAxis(rule, g, x);
  }
}
