# Cellular automaton engine (jaw64.ca) in Dafny

This project models the simulation engine of the `jaw64.ca` package, a small
Java library for cellular automata. It does not model the code that consumes
the engine. The engine has five parts:

- **`CellGroupDimensions`** checks the axis sizes and derives the element
  count as their product.
- **`CellGroup`** is one generation of cells. They are stored flat in
  row-major order and read and written through `convertTo1DIndex`.
  **`ImmutableCellGroup`** is a copy that refuses writes.
- **`AbstractRule`** holds the dimensionality check and the "safe read",
  which turns any failed lookup into the border value 0.
- **`Binary1DRule`** is Wolfram's elementary rule: it takes bit
  `4 * left + 2 * center + right` of the rule number.
  **`Additive1DRule`** adds the neighbours, then wraps or clamps the result.
- **`DefaultCellularAutomaton`** is the driver. It has an odometer over
  indices and a whole-grid generation step. Iterations are kept in a
  forward-only cache of at most 256 consecutive generations, described by
  the pair `(cacheOffset, cache)`.

Modules, in dependency order:

- `Options`: `Option<T>`, which stands for a Java exception (`None`).
- `Arith`: small lemmas about multiplication, division and remainder.
- `JavaInt`: the parts of Java `int` arithmetic whose meaning differs from
  Dafny's:
  - the truncating `%` (`Rem`);
  - the arithmetic shift `>>`, with its distance masked to five bits (`ShiftRight`);
  - `Math.min` and `Math.max`.
- `RowMajor`: the row-major sum `Flatten` and its inverse `Unflatten` on
  in-bounds indices.
- `Dimensions`: `CellGroupDimensions`.
- `CellGroups`: `CellGroup` and `ImmutableCellGroup`. A group is a value
  `(dims, cells, immutable)`.
- `Rules`: `AbstractRule`, `Binary1DRule` and `Additive1DRule`. These are one
  datatype `Rule`, with the constructors' checks as `Rule.Valid`.
- `ElementaryTable`: the truth-table reading of `Binary1DRule`.
- `AdditiveFacts`: the places where `Additive1DRule` differs from its
  documentation.
- `Automaton`: `DefaultCellularAutomaton`. It has the following parts:
  - `Step` is a pure generation step and `Iterate` applies it `n` times.
  - The methods mirror the Java loops: `IncrementIndex`, `GenerateIteration`,
    `FillCacheToIteration` and `GetIteration`.
  - `Automaton.Valid` is the cache-window invariant: `cache[k]` is
    `Iterate(rule, initial, cacheOffset + k)` and `1 <= |cache| <= 256`.
- `Scenarios`: facts about whole steps for rules 0, 255, 90 and 1, plus
  worked examples of the cache.

The model follows the code as written where it differs from the
documentation comments:

- `getIteration(i)` for `1 <= i` returns the last cached entry. When `i` is
  below the newest cached iteration, that is the newest one, not
  iteration `i`. A request below the window changes nothing: that branch only
  prints.
- `Additive1DRule` checks `additionRule` at construction but never reads it
  when computing a next value. It always adds both neighbours.
- The additive rule's `max` field is the constructor argument plus one, so
  CLAMP's ceiling is `max + 1`.
- WRAP adds Java's truncating remainder of the value itself to `min`.
  - A negative sum can land below `min`.
  - When `min != 0`, an in-range value can be shifted (min 3, max 9 takes
    5 to 8).
- `convertTo1DIndex` checks no component against its axis size. It only
  throws when an array read fails.
- `ruleNo >> code` uses `code` modulo 32. A code whose value modulo 32 is 8
  or more therefore gives 0, codes 32 to 39 wrap around to table entries 0
  to 7, and negative codes are masked rather than rejected.
- `generateIteration` builds the new group over `getDimensions()`, which is
  the initial group's dimensions. The model uses the previous group's
  dimensions. The two are equal, because every iterate keeps the initial
  group's dimensions (`Iterate`'s contract).

Source paths below are relative to the repository root.

## Model

| member | source | states |
|---|---|---|
| Dimensions.NewDimensions | src/main/java/jaw64/ca/CellGroupDimensions.java:24-61 | construction succeeds exactly when every size is at least 1; then the element count is the product of the sizes (1 for no axes, never below 1), the axis count is the number of sizes, and axis `i` has the `i`-th size |
| CellGroups.NewCellGroup | src/main/java/jaw64/ca/CellGroup.java:34-37 | a new group has as many cells as its dimensions allow, all 0, and accepts writes |
| CellGroups.ConvertTo1DIndex | src/main/java/jaw64/ca/CellGroup.java:45-66 | with one component per axis, the 1-axis, 2-axis and general branches all give the row-major sum; an in-bounds index lands in `[0, numElements)`; whatever the component count, a 1-component index gives its component, a 2-component index gives `index[1] + index[0] * sizes[1]`, and a longer index uses only its first `numDimensions` components; it fails exactly for a 2-component index on a group with fewer than 2 axes, or for a short index taking the general branch |
| CellGroups.SubSize | src/main/java/jaw64/ca/CellGroup.java:57-60 | the inner loop's product is the weight of axis `i`, the product of the sizes of all later axes |
| CellGroups.GeneralFlatIndex | src/main/java/jaw64/ca/CellGroup.java:53-63 | the nested loops compute the row-major sum of the first `numDims` components; they fail exactly when the index is shorter than the axis count |
| CellGroups.GetValue | src/main/java/jaw64/ca/CellGroup.java:97-100 | an in-bounds index reads the cell at its flat position; with one component per axis the read fails exactly when the flat position is outside the cell array; a 1-component index reads the cell at that position on any valid group, and fails exactly when it is outside the cell array |
| CellGroups.SetValue | src/main/java/jaw64/ca/CellGroup.java:107-110 | a write fails on an immutable group and otherwise fails exactly when the read would; a successful write is then read back, and every other flat slot keeps its value |
| CellGroups.Fill | src/main/java/jaw64/ca/CellGroup.java:116-118 | fill fails exactly on an immutable group; otherwise every cell holds the value and the dimensions are unchanged |
| CellGroups.SetValueKeepsOtherIndices | src/main/java/jaw64/ca/CellGroup.java:97-110 | writing one in-bounds index never changes what another in-bounds index reads |
| CellGroups.NoPerComponentCheck | src/main/java/jaw64/ca/CellGroup.java:50-52 | in a 2 x 3 group the out-of-range index (1, -1) reads the cell of (0, 2) instead of failing |
| CellGroups.CopyCellValues | src/main/java/jaw64/ca/ImmutableCellGroup.java:24-28 | the copy loop leaves exactly the source's cells in the new storage |
| CellGroups.ImmutableCopy | src/main/java/jaw64/ca/ImmutableCellGroup.java:15-48 | the copy has the source's dimensions and cells and reads like it at every index; every later `setValue` and `fill` on it fails |
| RowMajor.Flatten | src/main/java/jaw64/ca/CellGroup.java:53-63 | the row-major sum of an in-bounds index lies in `[0, product of sizes)` |
| RowMajor.ProductPositive | src/main/java/jaw64/ca/CellGroupDimensions.java:34-43 | the product of sizes that are all at least 1 is at least 1 |
| RowMajor.FlattenUnflatten | src/main/java/jaw64/ca/CellGroup.java:53-63 | every flat position in range is the flattening of some in-bounds index |
| RowMajor.UnflattenFlatten | src/main/java/jaw64/ca/CellGroup.java:53-63 | unflattening the flat position of an in-bounds index gives back that index |
| RowMajor.FlattenInjective | src/main/java/jaw64/ca/CellGroup.java:53-63 | distinct in-bounds indices have distinct flat positions |
| RowMajor.FlattenOneAxis | src/main/java/jaw64/ca/CellGroup.java:47-49 | on one axis the general sum is the component itself, as the 1-component branch returns |
| RowMajor.FlattenTwoAxes | src/main/java/jaw64/ca/CellGroup.java:50-52 | on two axes the general sum is `index[1] + index[0] * size(1)`, as the 2-component branch computes |
| JavaInt.Rem | src/main/java/jaw64/ca/rules/Additive1DRule.java:160-161 | Java's `%`: the remainder is smaller than the divisor in absolute value, takes the sign of the dividend, and differs from the dividend by a multiple of the divisor |
| Rules.NewBinary1DRule | src/main/java/jaw64/ca/rules/Binary1DRule.java:21-31 | construction succeeds exactly for rule numbers 0 to 255, and the rule needs one axis |
| Rules.NewAdditive1DRule | src/main/java/jaw64/ca/rules/Additive1DRule.java:121-146 | construction succeeds exactly when `max > min`, the addition code is 0, 1 or 2, and the overflow code is 0 or 1; the stored upper bound is `max + 1` and the codes map to their modes |
| Rules.NewAdditive1DRuleWithDefaults | src/main/java/jaw64/ca/rules/Additive1DRule.java:87-89 | the two-argument constructor succeeds exactly when `max > min` and selects BOTH, WRAP and the identity scaling |
| Rules.NewAdditive1DRuleWithScale | src/main/java/jaw64/ca/rules/Additive1DRule.java:98-100 | the three-argument constructor keeps the given scaling and selects BOTH and WRAP |
| Rules.NewAdditive1DRuleWithModes | src/main/java/jaw64/ca/rules/Additive1DRule.java:109-111 | the four-argument constructor validates the codes as the five-argument one does, with the identity scaling |
| Rules.CellFromGroup | src/main/java/jaw64/ca/rules/AbstractRule.java:28-34 | the safe read returns the group's value when the lookup succeeds and the border value 0 when it fails |
| Rules.BinaryNext | src/main/java/jaw64/ca/rules/Binary1DRule.java:39-41 | for any valid rule number and any neighbour values, even non-binary ones, the result is 0 or 1 |
| Rules.WrapOrClamp | src/main/java/jaw64/ca/rules/Additive1DRule.java:154-167 | CLAMP lies in `[min, max + 1]` and is the identity there; WRAP lies in `[min, max]` for non-negative values, at or below `min` for non-positive ones, and always differs from the value by a multiple of `max + 1 - min` (after removing `min`) |
| Rules.NextCellValue | src/main/java/jaw64/ca/rules/AbstractRule.java:41-48 | fails exactly on a group with the wrong axis count or an empty index; otherwise it is the variant's result, 0 or 1 for the binary rule and within `[min, max + 1]` for a clamping additive rule |
| Rules.SafeReadOneAxis | src/main/java/jaw64/ca/rules/AbstractRule.java:28-34 | on a one-axis group of width n the safe reads at -1 and at n yield 0, and a read inside yields the cell |
| Rules.NextCellValueOneAxis | src/main/java/jaw64/ca/rules/AbstractRule.java:41-44 | on a one-axis group the next value of cell `x` combines cell `x` and its neighbours `x - 1` and `x + 1`, read as 0 outside the group |
| Rules.BinaryNeighbourhood | src/main/java/jaw64/ca/rules/Binary1DRule.java:34-42 | the elementary rule's next value is its bit lookup on the cell and its two neighbours, with neighbours outside the group read as 0 |
| Rules.AdditiveNeighbourhood | src/main/java/jaw64/ca/rules/Additive1DRule.java:175-183 | the additive rule's next value is `overflow(center + scale(left + right))`, with neighbours outside the group read as 0 |
| ElementaryTable.TableRoundTrip | src/main/java/jaw64/ca/rules/Binary1DRule.java:21-26 | a rule number in range is recovered from its table of bits, and each table entry is 0 or 1 |
| ElementaryTable.TableEntry | src/main/java/jaw64/ca/rules/Binary1DRule.java:40 | entry `k` of the table is bit `k` of `n`: `n` shifted right by `k` bits, without Java's distance mask, modulo 2 (the same as `(n >> k) % 2` for `k < 32`) |
| ElementaryTable.TableDeterminesRule | src/main/java/jaw64/ca/rules/Binary1DRule.java:21-26 | two valid rule numbers with the same eight-entry table are equal |
| ElementaryTable.TruthTable | src/main/java/jaw64/ca/rules/Binary1DRule.java:39-40 | with 0/1 neighbours the next value is bit `4 * left + 2 * center + right` of the rule number |
| ElementaryTable.MaskedCode | src/main/java/jaw64/ca/rules/Binary1DRule.java:39-40 | for any neighbour values the next value is the table entry at the code modulo 32 when that is below 8, and 0 otherwise |
| ElementaryTable.HighCodesGiveZero | src/main/java/jaw64/ca/rules/Binary1DRule.java:39-40 | when the code modulo 32 is 8 or more, every bit of the rule number is shifted out and the result is 0 |
| ElementaryTable.NegativeCodeIsMasked | src/main/java/jaw64/ca/rules/Binary1DRule.java:39-40 | a negative neighbour is not rejected: left = -7 behaves as the neighbourhood (1, 0, 0) |
| ElementaryTable.RuleZero | src/main/java/jaw64/ca/rules/Binary1DRule.java:40 | rule 0 gives 0 for every neighbourhood, binary or not |
| ElementaryTable.RuleAllOnes | src/main/java/jaw64/ca/rules/Binary1DRule.java:39-40 | rule 255 gives 1 for every 0/1 neighbourhood |
| ElementaryTable.RuleNinety | src/main/java/jaw64/ca/rules/Binary1DRule.java:39-40 | with 0/1 neighbours, rule 90 gives the exclusive or of the left and right neighbours |
| AdditiveFacts.AdditionModeIgnored | src/main/java/jaw64/ca/rules/Additive1DRule.java:175-183 | changing the addition mode never changes the next value: LEFT_ONLY and RIGHT_ONLY compute what BOTH computes |
| AdditiveFacts.CombineIgnoresAddition | src/main/java/jaw64/ca/rules/Additive1DRule.java:180-182 | the combination of a cell with its neighbours does not depend on the addition mode |
| AdditiveFacts.ClampCeilingIsMaxPlusOne | src/main/java/jaw64/ca/rules/Additive1DRule.java:154-158 | with min 0 and max 9 the stored upper bound is 10, and CLAMP takes 15 to 10 |
| AdditiveFacts.WrapCanFallBelowMin | src/main/java/jaw64/ca/rules/Additive1DRule.java:159-163 | with min 0 and max 9, WRAP leaves -3 at -3, below `min` |
| AdditiveFacts.WrapShiftsInRangeValues | src/main/java/jaw64/ca/rules/Additive1DRule.java:159-163 | with min 3 and max 9, WRAP takes the in-range value 5 to 8 |
| AdditiveFacts.WrapFromZeroKeepsInRange | src/main/java/jaw64/ca/rules/Additive1DRule.java:159-163 | with min 0, WRAP is the identity on `[0, max]` |
| Automaton.Step | src/main/java/jaw64/ca/DefaultCellularAutomaton.java:88-92 | a generation step yields a well-formed, writable group over the same dimensions |
| Automaton.StepComputesEveryCell | src/main/java/jaw64/ca/DefaultCellularAutomaton.java:88-106 | every in-bounds cell of a step reads the rule's next value for that index |
| Automaton.StepCellIsNextValue | src/main/java/jaw64/ca/DefaultCellularAutomaton.java:99-101 | the step's cell at an index's flat position is the rule's next value for that index |
| Automaton.Iterate | src/main/java/jaw64/ca/DefaultCellularAutomaton.java:124-130 | every iterate is a well-formed group over the initial group's dimensions, and the iterates after the initial group are writable |
| Automaton.IncrementIndex | src/main/java/jaw64/ca/DefaultCellularAutomaton.java:71-81 | the odometer takes an in-bounds index to the in-bounds index at the next flat position, wrapping from the last one back to all zeros |
| Automaton.BumpComponent | src/main/java/jaw64/ca/DefaultCellularAutomaton.java:75 | adding one to component `i` adds the weight of axis `i` to the flat position |
| Automaton.ResetComponent | src/main/java/jaw64/ca/DefaultCellularAutomaton.java:76-78 | resetting a component that reached its axis size removes one full turn of that axis |
| Automaton.OdometerOrder | src/main/java/jaw64/ca/DefaultCellularAutomaton.java:94-104 | starting from all zeros, the k-th index visited has flat position k, so each in-bounds index is visited exactly once |
| Automaton.GenerateIteration | src/main/java/jaw64/ca/DefaultCellularAutomaton.java:88-106 | the generated group has the previous group's dimensions, every in-bounds cell holds the rule's next value, and the result is the generation step |
| Automaton.StoreStepCell | src/main/java/jaw64/ca/DefaultCellularAutomaton.java:100-101 | each turn of the loop writes the right value into the next flat slot, so the agreeing prefix grows by one |
| Automaton.CachedEntry | src/main/java/jaw64/ca/DefaultCellularAutomaton.java:31-36 | under the cache invariant, entry `k` is iteration `cacheOffset + k` |
| Automaton.NewAutomaton | src/main/java/jaw64/ca/DefaultCellularAutomaton.java:44-63 | construction succeeds exactly when the rule needs as many axes as the initial group has; the cache is then `[initial]`, the offset is 0, and the invariant holds |
| Automaton.GenerateForward | src/main/java/jaw64/ca/DefaultCellularAutomaton.java:124-130 | from the group of iteration `n`, the loop produces iterations `n + 1` to `n + count`, in order |
| Automaton.WindowDrop | src/main/java/jaw64/ca/DefaultCellularAutomaton.java:134-135 | clearing the first `d` cached entries leaves the window that starts `d` iterations later |
| Automaton.ExtendCache | src/main/java/jaw64/ca/DefaultCellularAutomaton.java:122-136 | above the window the requested iteration becomes the newest entry and the invariant is kept; the offset stays put while the cache fits in 256 entries, and otherwise the cache is cut to 256 entries starting at iteration `i - 255` |
| Automaton.FillCacheToIteration | src/main/java/jaw64/ca/DefaultCellularAutomaton.java:115-146 | it fails exactly for iterations at or below 0; at or below the newest cached iteration the state is unchanged; above it the cache is extended as stated for `ExtendCache` |
| Automaton.GetIteration | src/main/java/jaw64/ca/DefaultCellularAutomaton.java:180-193 | it fails exactly for negative iterations; iteration 0 is the initial group with the cache untouched; otherwise it returns the newest iterate after filling, which is iteration `i` when `i` is at or above the newest cached iteration; the invariant is kept |
| Scenarios.BinaryStepCell | src/main/java/jaw64/ca/rules/Binary1DRule.java:34-42 | cell `x` of an elementary step is the bit lookup on `x` and its neighbours |
| Scenarios.RuleZeroStep | src/main/java/jaw64/ca/rules/Binary1DRule.java:40 | a rule 0 step clears every cell, whatever the group holds |
| Scenarios.RuleAllOnesStep | src/main/java/jaw64/ca/rules/Binary1DRule.java:39-40 | a rule 255 step sets every cell of a 0/1 group |
| Scenarios.RuleNinetyCell | src/main/java/jaw64/ca/rules/Binary1DRule.java:35-41 | in a rule 90 step, each cell of a 0/1 group becomes the exclusive or of its neighbours |
| Scenarios.RuleNinetyStep | src/main/java/jaw64/ca/rules/Binary1DRule.java:35-41 | the same for every cell of the group at once |
| Scenarios.RuleNinetyExample | src/main/java/jaw64/ca/rules/Binary1DRule.java:35-41 | rule 90 steps (0, 0, 1, 0, 0) to (0, 1, 0, 1, 0) |
| Scenarios.AdditiveExample | src/main/java/jaw64/ca/rules/Additive1DRule.java:175-183 | with min 0, max 9, the identity scaling and WRAP, (1, 2, 3) steps to (3, 6, 5) |
| Scenarios.LoneCellStep | src/main/java/jaw64/ca/rules/AbstractRule.java:28-34 | an elementary step of a one-cell group sees 0 on both sides |
| Scenarios.RuleOneIterations | src/main/java/jaw64/ca/rules/Binary1DRule.java:35-41 | rule 1 turns a lone 0 into 1 at iteration 1 and back into 0 at iteration 2 |
| Scenarios.GetIterationTwice | src/main/java/jaw64/ca/DefaultCellularAutomaton.java:180-193 | asking for the same iteration twice returns the same result, and the second request leaves the state alone |
| Scenarios.StaleIterationExample | src/main/java/jaw64/ca/DefaultCellularAutomaton.java:138-145 | after iteration 2 of rule 1 on a lone 0 has been requested, a request for iteration 1 returns iteration 2 (the cell 0), not iteration 1 |
| Scenarios.EvictionExample | src/main/java/jaw64/ca/DefaultCellularAutomaton.java:132-136 | after a request for iteration 300 the cache holds iterations 45 to 300; a later request for iteration 30 changes nothing and returns iteration 300 |

## Left out

- Java's 32-bit `int` arithmetic: sums, products, the dimension product and the inner `subsize` loop can wrap in Java. The model uses unbounded integers, so it describes the engine only where no value exceeds the `int` range.
- The float `mix` multiplication of `Additive1DRule` (`(int) ((float) (left + right) * mix)`) is an uninterpreted function `scale: int -> int`. The constructors with no `mix` argument fix it to the identity, as `mix = 1.0` gives for values that a float represents exactly.
- `Averaging1DRule` works on float averages and is not part of this model.
- The interpreters (`Binary1DImageInterp`, `LisztIntroInterp`, `MikeyJInterp`) and `CellAutoApplication` consume the engine through image, MIDI, file and console I/O. They are not part of this model.
- `Rule`, `CellularAutomaton` and `Interpreter` are interfaces without behaviour. They only shape the `Rule` datatype and the driver's operations.
- Exception classes and messages are one `None` result. The `System.err` print in the below-window branch of `fillCacheToIteration` is left out; apart from it the branch does nothing, and the model does nothing there too.
- Object identity and aliasing are not modelled, because groups and descriptors are values:
  - `CellGroupDimensions` stores the caller's size array, so a later change by the caller would show through.
  - The driver stores the caller's initial group, which stays mutable.
  - An `ImmutableCellGroup` owns fresh storage, so later writes to its source do not reach it.
  - `getIteration` returns the cached group itself, and groups built by `generateIteration` are writable. A caller's `setValue` or `fill` on a returned group would change the cache and every iteration generated from it later, breaking the window invariant of `Automaton.Valid`. The model's groups are values, so it cannot express that write.
- `getDimensions`, `getRule`, `getInitialCellGroup`, `getNumDimensions` and `getNumElements` are plain field reads: `Automaton.GetDimensions`, the `initial` and `rule` fields, `CellGroup.NumDimensions` and `CellGroup.NumElements`.
- `Rules.Combine` and `Rules.NextCellValueImpl` model `getNextCellValueIMPL` of both rule variants and have no `ensures` of their own; their behaviour is stated by `Rules.BinaryNeighbourhood`, `Rules.AdditiveNeighbourhood` and `Rules.NextCellValue`.
- Automaton.Step and Automaton.Iterate are reference definitions. Their contracts state only well-formedness and dimensions; what a step computes is stated by `Automaton.StepComputesEveryCell` and `Automaton.GenerateIteration`.
- Rules.WrapOrClamp states WRAP's result through bounds and divisibility rather than as an equation. `JavaInt.Rem` is the exact Java remainder it uses.
