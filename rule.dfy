/** The transition rule of an elementary cellular automaton: decoding a
    Wolfram rule number into an 8-entry lookup table, and looking up the
    next state of a cell from its (left, centre, right) neighbourhood. */
module Rule {
  import opened Binary

  /** A Wolfram rule number; the source passes it as an unsigned 8-bit value. */
  type RuleNumber = n: nat | n < 256

  /** The decoded rule: one next-cell value per neighbourhood index 0..7. */
  type Table = t: seq<bool> | |t| == 8
    witness [false, false, false, false, false, false, false, false]

  /** A cell's neighbourhood: the cells to its left, itself, and to its right. */
  datatype Partition = Partition(left: bool, centre: bool, right: bool)

  /** A live cell counts 1, a dead one 0. */
  function Weight(cell: bool): nat
  {
    if cell then 1 else 0
  }

  /** Wolfram's number for a neighbourhood: the triple read as a binary numeral. */
  function Code(p: Partition): (k: nat)
    ensures k < 8
  {
    4 * Weight(p.left) + 2 * Weight(p.centre) + Weight(p.right)
  }

  /** The table index the source computes for a neighbourhood: each dead cell
      adds its positional weight, so the index is the complement of Code. */
  function Index(p: Partition): (ix: nat)
    ensures ix < 8
    ensures ix == 7 - Code(p)
  {
    (if p.left then 0 else 4) + (if p.centre then 0 else 2) + (if p.right then 0 else 1)
  }

  /** Distinct neighbourhoods select distinct table entries. */
  lemma IndexInjective(p: Partition, q: Partition)
    ensures Index(p) == Index(q) <==> p == q
  {
  }

  /** The next state of the cell whose neighbourhood is p. */
  function NewCell(p: Partition, table: Table): bool
  {
    table[Index(p)]
  }

  /** The table decoded from a rule number: bit 7 goes to index 0, bit 0 to index 7. */
  function RuleTable(rule: RuleNumber): Table
  {
    Bits(rule, 8)
  }

  /** Entry i of the decoded table is bit 7 - i of the rule number. */
  lemma RuleTableAt(rule: RuleNumber, i: nat)
    requires i < 8
    ensures RuleTable(rule)[i] == Bit(rule, 7 - i)
  {
    BitsAt(rule, 8, i);
  }

  /** The rule number a table encodes: the inverse of RuleTable. */
  function RuleNumberOf(table: Table): (rule: RuleNumber)
  {
    FromBits(table)
  }

  /** Decoding and encoding are inverse: every rule number gives a distinct
      table and every 8-entry table is the decoding of one rule number. */
  lemma RuleTableBijective(rule: RuleNumber, table: Table)
    ensures RuleNumberOf(RuleTable(rule)) == rule
    ensures RuleTable(RuleNumberOf(table)) == table
  {
    FromBitsBits(rule, 8);
    BitsFromBits(table);
  }

  /** The source's loop: fill table entries 7 down to 0 from the low bits of
      the rule number, halving it after each bit. */
  method DecodeRule(rule: RuleNumber) returns (table: Table)
    ensures forall i :: 0 <= i < 8 ==> table[i] == Bit(rule, 7 - i)
    ensures table == RuleTable(rule)
  {
    var temp: nat := rule;
    var ret := new bool[8];
    var i := 7;
    while i >= 0
      invariant -1 <= i <= 7
      invariant temp == Shr(rule, 7 - i)
      invariant forall j :: i < j < 8 ==> ret[j] == Bit(rule, 7 - j)
    {
      ret[i] := temp % 2 != 0;
      ShrStep(rule, 7 - i);
      temp := temp / 2;
      i := i - 1;
    }
    // every bit of the 8-bit number has been consumed
    ShrVanishes(rule, 8);
    assert temp == 0;
    table := ret[..];
    forall k | 0 <= k < 8
      ensures table[k] == RuleTable(rule)[k]
    {
      RuleTableAt(rule, k);
    }
  }

  /** Composing the complemented index with the reversed bit order selects
      bit Code(p) of the rule number: Wolfram's rule numbering. */
  lemma WolframNumbering(p: Partition, rule: RuleNumber)
    ensures NewCell(p, RuleTable(rule)) == Bit(rule, Code(p))
  {
    RuleTableAt(rule, Index(p));
  }

  /** Rule 90 sets a cell to the exclusive or of its two neighbours,
      ignoring the cell itself. */
  lemma Rule90IsXor(p: Partition)
    ensures NewCell(p, RuleTable(90)) == (p.left != p.right)
  {
    WolframNumbering(p, 90);
    assert !Bit(90, 0) && Bit(90, 1) && !Bit(90, 2) && Bit(90, 3);
    assert Bit(90, 4) && !Bit(90, 5) && Bit(90, 6) && !Bit(90, 7);
  }
}
