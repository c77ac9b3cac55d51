# Wolfram 1D cellular automaton, modelled in Dafny

This project models a small program that prints the evolution of an
elementary (Wolfram-numbered) one-dimensional binary cellular automaton.
The program decodes rule number 90 into an 8-entry lookup table. It starts
from an 80-cell world with one live cell in the middle. It then prints the
world and steps it to the next generation, 80 times.

The model follows the program's parts:

- `bits.dfy` (module `Binary`): shifting a number right, its bits, its
  low `w` bits most significant first (`Bits`), and reading such digits
  back (`FromBits`).
- `rule.dfy` (module `Rule`): rule numbers (0..255), the 8-entry `Table`,
  the `Partition` triple (left, centre, right) and the complemented table
  index. `DecodeRule` is the decoding loop; `RuleTable` is the function
  that specifies it.
- `world.dfy` (module `Automaton`): worlds as `seq<bool>`, with dead cells
  beyond both edges (`DefaultCell`). It holds the partitioning loop
  (`GeneratePartitions`), the stepping loop (`GenerateNewWorld`, specified
  by `Step`) and the initialisation loop (`InitialWorld`, specified by
  `Initial`).
- `display.dfy` (module `Display`): the printing loop as `PrintWorld`,
  which returns the printed line. `Render` specifies it.
- `driver.dfy` (module `Driver`): the main loop as `Simulate`, which
  returns the printed lines. `Generation` gives the world after k steps.

Main facts proved:

- Entry i of the decoded table is bit 7 − i of the rule number.
- Decoding is a bijection between rule numbers and 8-entry tables.
- The source reads the table at a complemented index. Combined with the
  reversed bit order, a neighbourhood (l, c, r) selects bit 4l + 2c + r of
  the rule number. This is Wolfram's numbering.
- The sentinel-and-pop partition loop produces exactly the windows
  `(cell i−1, cell i, cell i+1)`, with dead cells beyond the edges.
- Stepping preserves length. It reads only the old world.
- Rule 90 is "left XOR right".
- Generation 1 of the program is live exactly at 39 and 41. Generation 2
  is live exactly at 38 and 42.
- The driver produces exactly 80 lines of 81 characters each.

## Model

| member | source | states |
|---|---|---|
| `Rule.DecodeRule` | main.cpp:70-78 | the loop yields 8 entries, entry i is bit 7 − i of the rule (indices 7 down to 0 filled from the low bits), and it equals `RuleTable(rule)` |
| `Rule.RuleTableAt` | main.cpp:70-78 | entry i of the decoded table is bit 7 − i of the rule number |
| `Rule.RuleTableBijective` | main.cpp:68-78 | decoding is inverse to reading the table back as a binary numeral: every rule number gives a distinct table and every 8-entry table comes from one rule number |
| `Binary.ShrVanishes` | main.cpp:71-76 | halving an 8-bit value eight times leaves 0, so the loop consumes every bit of the rule |
| `Rule.Index` | main.cpp:29 | the index is in [0, 7] and equals 7 − (4l + 2c + r), with a live cell counted as 1 |
| `Rule.IndexInjective` | main.cpp:29 | two neighbourhoods select the same table entry exactly when they are equal |
| `Rule.WolframNumbering` | main.cpp:28-31 | looking up a neighbourhood in the decoded table of rule n gives bit 4l + 2c + r of n (Wolfram's numbering) |
| `Rule.Rule90IsXor` | main.cpp:83 | under rule 90 the next cell is left XOR right, whatever the centre |
| `Automaton.GeneratePartitions` | main.cpp:34-47 | one triple per cell; triple i is (cell i−1, cell i, cell i+1), with `DefaultCell` (dead) beyond both edges; an empty world gives no triples |
| `Automaton.GenerateNewWorld` | main.cpp:50-57 | the new world has the old length, and cell i is the table entry for the old world's neighbourhood of i; it equals `Step` |
| `Automaton.StepIsLocal` | main.cpp:50-57 | a stepped cell depends only on its pre-step neighbourhood: worlds that agree around i agree at i after the step |
| `Automaton.StepByRuleNumber` | main.cpp:50-57 | under a decoded rule number, stepped cell i is bit 4·left + 2·centre + right of the rule, read from the old world with dead cells beyond the edges |
| `Automaton.Rule90Step` | main.cpp:83-87 | under rule 90 every stepped cell is its old left neighbour XOR its old right neighbour (dead beyond the edges) |
| `Automaton.InitialWorld` | main.cpp:60-67 | the world has length max(length, 0) and cell i is live exactly when i = length / 2 |
| `Automaton.InitialSingleCell` | main.cpp:60-67 | for a positive length exactly one cell is live, the one at length / 2 |
| `Display.PrintWorld` | main.cpp:20-25 | the line has one character per cell in index order, '.' for live and ' ' for dead, followed by one newline |
| `Display.RenderParse` | main.cpp:20-25 | the cells can be read back from the line, so distinct worlds print as distinct lines |
| `Display.RenderUniform` | main.cpp:20-25 | an all-dead world prints as spaces only and an all-live world as dots only, one per cell |
| `Driver.Generation` | main.cpp:84-87 | every generation has the initial world's length |
| `Driver.Simulate` | main.cpp:80-90 | exactly 80 render-then-step rounds; line k is the rendering of generation k under rule 90 from the 80-cell initial world, and it has 81 characters |
| `Driver.Rule90Generations` | main.cpp:82-88 | generation 0 is live only at 40, generation 1 only at 39 and 41, generation 2 only at 38 and 42 |

## Left out

- Console output (`std::cout`, `std::endl`). Rendering returns the line as a
  string, and the driver returns the list of lines instead of printing them.
  The process exit status is not modelled.
- The `static bool ret[8]` in `rule_no_to_array` that every call shares.
  `DecodeRule` fills a fresh local array and returns its contents as a value.
- The internals of `std::vector`, `std::list` and `std::tuple`. Lists and
  vectors are sequences: `push_back` appends and `pop_front` drops the first
  element. Tuples are the `Partition` datatype.
- Integer widths. The rule number is modelled as a value in 0..255, which is
  what the `uint8_t` parameter admits. Conversions of wider values at a call
  site are outside the model. The table index never exceeds 7, so `uint8_t`
  does not wrap there. Overflow of the `int` length is not modelled.
- Rounding of `length / 2` for a negative length. C++ truncates and Dafny
  rounds down, but a non-positive length makes no cells, so the value is
  never used.
- Copies versus references. Worlds are values, so "the old world is not
  changed by a step" holds by construction and is not stated separately.
  The source takes its parameters by reference but does not write them.
