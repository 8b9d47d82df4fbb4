/** Facts about `Binary1DRule`: its outputs form Wolfram's truth table, the
    eight bits of the rule number. */
module ElementaryTable {

  import opened JavaInt
  import opened Rules

  /** Wolfram's table of an elementary rule: entry `k` is the output for the
      neighbourhood whose (left, center, right) bits spell `k`; the entries
      are the bits of the rule number, least significant first. */
  function Table(ruleNo: int, width: nat): (t: seq<int>)
    ensures |t| == width
    decreases width
  {
    if width == 0 then [] else [ruleNo % 2] + Table(ruleNo / 2, width - 1)
  }

  /** Reads a table of bits back as a number. */
  function FromTable(t: seq<int>): int
  {
    if |t| == 0 then 0 else t[0] + 2 * FromTable(t[1..])
  }

  /** A number below 2^width and its table of width bits determine each other. */
  lemma {:induction false} TableRoundTrip(n: int, width: nat)
    requires 0 <= n < Pow2(width)
    ensures FromTable(Table(n, width)) == n
    ensures forall k :: 0 <= k < width ==> Table(n, width)[k] == 0 || Table(n, width)[k] == 1
  {
    if width > 0 {
      TableRoundTrip(n / 2, width - 1);
      assert Table(n, width)[1..] == Table(n / 2, width - 1);
    }
  }

  /** Entry `k` of the table is bit `k` of `n`: `n` shifted right by `k`
      bits with no distance mask, modulo 2 (Java's `(n >> k) % 2` agrees
      for `k < 32`). */
  lemma {:induction false} TableEntry(n: int, width: nat, k: nat)
    requires n >= 0 && k < width
    ensures Table(n, width)[k] == Halve(n, k) % 2
  {
    if k > 0 {
      TableEntry(n / 2, width - 1, k - 1);
    }
  }

  /** Two rule numbers with the same table are the same rule. */
  lemma TableDeterminesRule(a: int, b: int)
    requires 0 <= a <= 255 && 0 <= b <= 255
    requires Table(a, 8) == Table(b, 8)
    ensures a == b
  {
    assert Pow2(8) == 256;
    TableRoundTrip(a, 8);
    TableRoundTrip(b, 8);
  }

  /** With 0/1 cells the next value is entry `4 * left + 2 * center + right`
      of the rule's table. */
  lemma TruthTable(ruleNo: int, left: int, center: int, right: int)
    requires 0 <= ruleNo <= 255
    requires 0 <= left <= 1 && 0 <= center <= 1 && 0 <= right <= 1
    ensures BinaryNext(ruleNo, left, center, right) == Table(ruleNo, 8)[4 * left + 2 * center + right]
  {
    var code := 4 * left + 2 * center + right;
    assert 0 <= code < 8 && code % 32 == code;
    HalveNonNegative(ruleNo, code);
    RemOfNonNegative(Halve(ruleNo, code), 2);
    TableEntry(ruleNo, 8, code);
  }

  /** Only the shift distance modulo 32 matters: codes 8 and above (after
      that reduction) shift every bit of the rule number out and give 0. */
  lemma HighCodesGiveZero(ruleNo: int, left: int, center: int, right: int)
    requires 0 <= ruleNo <= 255
    requires (4 * left + 2 * center + right) % 32 >= 8
    ensures BinaryNext(ruleNo, left, center, right) == 0
  {
    assert Pow2(8) == 256;
    HalveBelowPowerIsZero(ruleNo, 8, (4 * left + 2 * center + right) % 32);
  }

  /** For any neighbour values, the next value is the table entry at the
      neighbourhood code taken modulo 32, or 0 when that reduced code is 8
      or more (codes 32 to 39 wrap around to entries 0 to 7). */
  lemma MaskedCode(ruleNo: int, left: int, center: int, right: int)
    requires 0 <= ruleNo <= 255
    ensures BinaryNext(ruleNo, left, center, right)
         == (var d := (4 * left + 2 * center + right) % 32; if d < 8 then Table(ruleNo, 8)[d] else 0)
  {
    var d := (4 * left + 2 * center + right) % 32;
    if d < 8 {
      HalveNonNegative(ruleNo, d);
      RemOfNonNegative(Halve(ruleNo, d), 2);
      TableEntry(ruleNo, 8, d);
    } else {
      HighCodesGiveZero(ruleNo, left, center, right);
    }
  }

  /** A negative neighbour does not fail: left = -7 gives code -28, which
      Java's shift masks to 4, the code of (1, 0, 0). */
  lemma NegativeCodeIsMasked(ruleNo: int)
    requires 0 <= ruleNo <= 255
    ensures BinaryNext(ruleNo, -7, 0, 0) == BinaryNext(ruleNo, 1, 0, 0)
  {
    assert (4 * -7) % 32 == 4;
  }

  /** Rule 0 gives 0 for every neighbourhood, binary or not. */
  lemma RuleZero(left: int, center: int, right: int)
    ensures BinaryNext(0, left, center, right) == 0
  {
    HalveBelowPowerIsZero(0, 0, (4 * left + 2 * center + right) % 32);
  }

  /** Rule 255 gives 1 for every 0/1 neighbourhood. */
  lemma RuleAllOnes(left: int, center: int, right: int)
    requires 0 <= left <= 1 && 0 <= center <= 1 && 0 <= right <= 1
    ensures BinaryNext(255, left, center, right) == 1
  {
    TruthTable(255, left, center, right);
    assert Table(255, 8) == [1, 1, 1, 1, 1, 1, 1, 1];
  }

  /** Rule 90's table, least significant bit first. */
  lemma NinetyTable()
    ensures Table(90, 8) == [0, 1, 0, 1, 1, 0, 1, 0]
  {
  }

  /** In rule 90's table the entry for (left, center, right) is the
      exclusive or of left and right. */
  lemma ExclusiveOrEntry(t: seq<int>, left: int, center: int, right: int)
    requires t == [0, 1, 0, 1, 1, 0, 1, 0]
    requires 0 <= left <= 1 && 0 <= center <= 1 && 0 <= right <= 1
    ensures t[4 * left + 2 * center + right] == if left == right then 0 else 1
  {
  }

  /** Rule 90 with 0/1 neighbours: the next cell is the exclusive or of its
      left and right neighbours. */
  lemma RuleNinety(left: int, center: int, right: int)
    requires 0 <= left <= 1 && 0 <= center <= 1 && 0 <= right <= 1
    ensures BinaryNext(90, left, center, right) == if left == right then 0 else 1
  {
    TruthTable(90, left, center, right);
    NinetyTable();
    ExclusiveOrEntry(Table(90, 8), left, center, right);
  }
}
