/** Worlds of cells and one synchronous generation step: grouping each cell
    with its neighbours, applying the rule table to every group, and the
    generation-0 world with a single live cell in the middle. */
module Automaton {
  import opened Rule

  /** One generation: cell states from left to right. */
  type World = seq<bool>

  /** The state assumed for the missing neighbours beyond both edges. */
  const DefaultCell := false

  /** Cell i of w, or DefaultCell when i falls outside the world. */
  function CellAt(w: World, i: int): bool
  {
    if 0 <= i < |w| then w[i] else DefaultCell
  }

  /** The neighbourhood of cell i, with fixed dead cells beyond the edges. */
  function Window(w: World, i: int): Partition
  {
    Partition(CellAt(w, i - 1), CellAt(w, i), CellAt(w, i + 1))
  }

  /** The source's partitioning loop: two sliding variables trail the current
      cell, one group too many is made at the front, the missing group at the
      back is appended after the loop and the first one is popped. */
  method GeneratePartitions(world: World) returns (partitions: seq<Partition>)
    ensures |partitions| == |world|
    ensures forall i :: 0 <= i < |world| ==>
      partitions[i] == Partition(CellAt(world, i - 1), world[i], CellAt(world, i + 1))
  {
    partitions := [];
    var backTwoCells, backOneCell := DefaultCell, DefaultCell;
    for k := 0 to |world|
      invariant |partitions| == k
      invariant backTwoCells == CellAt(world, k - 2) && backOneCell == CellAt(world, k - 1)
      invariant forall j :: 0 <= j < k ==>
        partitions[j] == Partition(CellAt(world, j - 2), CellAt(world, j - 1), world[j])
    {
      var currentCell := world[k];
      partitions := partitions + [Partition(backTwoCells, backOneCell, currentCell)];
      backTwoCells := backOneCell;
      backOneCell := currentCell;
    }
    // one group too many at the front, one missing at the back
    partitions := partitions + [Partition(backTwoCells, backOneCell, DefaultCell)];
    partitions := partitions[1..];
  }

  /** The next generation of w under table: every cell is computed from the
      neighbourhood it had in w. */
  function Step(w: World, table: Table): World
  {
    seq(|w|, i requires 0 <= i < |w| => NewCell(Window(w, i), table))
  }

  /** The source's stepping loop: one new cell per partition of the old world. */
  method GenerateNewWorld(oldWorld: World, table: Table) returns (newWorld: World)
    ensures |newWorld| == |oldWorld|
    ensures forall i :: 0 <= i < |oldWorld| ==>
      newWorld[i] == NewCell(Partition(CellAt(oldWorld, i - 1), oldWorld[i], CellAt(oldWorld, i + 1)), table)
    ensures newWorld == Step(oldWorld, table)
  {
    var partitions := GeneratePartitions(oldWorld);
    newWorld := [];
    for k := 0 to |partitions|
      invariant |newWorld| == k
      invariant forall j :: 0 <= j < k ==> newWorld[j] == NewCell(Window(oldWorld, j), table)
    {
      newWorld := newWorld + [NewCell(partitions[k], table)];
    }
    assert forall i :: 0 <= i < |oldWorld| ==> newWorld[i] == Step(oldWorld, table)[i];
  }

  /** A stepped cell depends on its own pre-step neighbourhood and nothing
      else: two worlds that agree around i agree at i after the step. */
  lemma StepIsLocal(v: World, w: World, table: Table, i: int)
    requires |v| == |w| && 0 <= i < |w|
    requires Window(v, i) == Window(w, i)
    ensures Step(v, table)[i] == Step(w, table)[i]
  {
  }

  /** Under a decoded rule number, a stepped cell is the bit of the rule
      selected by Wolfram's number of its old neighbourhood. */
  lemma StepByRuleNumber(w: World, rule: RuleNumber, i: int)
    requires 0 <= i < |w|
    ensures Step(w, RuleTable(rule))[i] ==
      Binary.Bit(rule, 4 * Weight(CellAt(w, i - 1)) + 2 * Weight(w[i]) + Weight(CellAt(w, i + 1)))
  {
    WolframNumbering(Window(w, i), rule);
  }

  /** Under rule 90 every stepped cell is the exclusive or of its old left
      and right neighbours. */
  lemma Rule90Step(w: World, i: int)
    requires 0 <= i < |w|
    ensures Step(w, RuleTable(90))[i] == (CellAt(w, i - 1) != CellAt(w, i + 1))
  {
    Rule90IsXor(Window(w, i));
  }

  /** Generation 0: length cells (none when length is not positive), of
      which only the cell at length / 2 is live. */
  function Initial(length: int): World
  {
    seq(if length > 0 then length else 0, i => i == length / 2)
  }

  /** The number of live cells in w. */
  function Population(w: World): (n: nat)
    ensures n <= |w|
  {
    if w == [] then 0 else Population(w[..|w| - 1]) + Weight(w[|w| - 1])
  }

  /** A world with no live cell has population 0. */
  lemma {:induction false} PopulationNone(w: World)
    requires forall i :: 0 <= i < |w| ==> !w[i]
    ensures Population(w) == 0
  {
    if w != [] {
      PopulationNone(w[..|w| - 1]);
    }
  }

  /** A world whose only live cell is c has population 1. */
  lemma {:induction false} PopulationSingle(w: World, c: int)
    requires 0 <= c < |w|
    requires forall i :: 0 <= i < |w| ==> (w[i] <==> i == c)
    ensures Population(w) == 1
  {
    var n := |w|;
    if c == n - 1 {
      PopulationNone(w[..n - 1]);
    } else {
      PopulationSingle(w[..n - 1], c);
    }
  }

  /** For a positive length, generation 0 has exactly one live cell, and it
      sits at index length / 2. */
  lemma InitialSingleCell(length: int)
    requires length > 0
    ensures |Initial(length)| == length
    ensures Initial(length)[length / 2]
    ensures Population(Initial(length)) == 1
  {
    PopulationSingle(Initial(length), length / 2);
  }

  /** The source's initialisation loop: one cell per index below length,
      live exactly at length / 2. */
  method InitialWorld(length: int) returns (world: World)
    ensures |world| == if length > 0 then length else 0
    ensures forall i :: 0 <= i < |world| ==> (world[i] <==> i == length / 2)
    ensures world == Initial(length)
  {
    // a negative length makes no cells, so how / rounds it is never observed
    var startingCellLocation := length / 2;
    world := [];
    var i := 0;
    while i < length
      invariant 0 <= i <= (if length > 0 then length else 0)
      invariant |world| == i
      invariant forall j :: 0 <= j < i ==> (world[j] <==> j == startingCellLocation)
    {
      world := world + [i == startingCellLocation];
      i := i + 1;
    }
  }
}
