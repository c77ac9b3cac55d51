/** Rendering a world as one line of text: one glyph per cell, then a newline. */
module Display {
  import opened Automaton

  /** The glyph of a live cell. */
  const OnGlyph := '.'

  /** The glyph of a dead cell. */
  const OffGlyph := ' '

  function Glyph(cell: bool): char
  {
    if cell then OnGlyph else OffGlyph
  }

  /** The line printed for w: its cells' glyphs in index order, then a newline. */
  function Render(w: World): string
  {
    seq(|w|, i requires 0 <= i < |w| => Glyph(w[i])) + "\n"
  }

  /** Reads the cells back from a rendered line (every glyph before the
      final newline that is not OnGlyph is a dead cell). */
  function Parse(line: string): World
    requires |line| > 0
  {
    seq(|line| - 1, i requires 0 <= i < |line| - 1 => line[i] == OnGlyph)
  }

  /** A rendered line has one glyph per cell and a newline, and parsing it
      gives the world back, so distinct worlds render as distinct lines. */
  lemma RenderParse(v: World, w: World)
    ensures |Render(w)| == |w| + 1 && Render(w)[|w|] == '\n'
    ensures Parse(Render(w)) == w
    ensures Render(v) == Render(w) <==> v == w
  {
    assert Parse(Render(v)) == v;
    assert Parse(Render(w)) == w;
  }

  /** A world of n equal cells renders as n equal glyphs: all dead gives n
      spaces, all live gives n dots. */
  lemma RenderUniform(n: nat, cell: bool)
    ensures Render(seq(n, _ => cell)) == seq(n, _ => if cell then '.' else ' ') + "\n"
  {
  }

  /** The source's printing loop, producing the line instead of writing it:
      one glyph per cell in index order, then the line terminator. */
  method PrintWorld(world: World) returns (line: string)
    ensures |line| == |world| + 1
    ensures forall i :: 0 <= i < |world| ==> line[i] == if world[i] then '.' else ' '
    ensures line[|world|] == '\n'
    ensures line == Render(world)
  {
    line := "";
    for k := 0 to |world|
      invariant |line| == k
      invariant forall i :: 0 <= i < k ==> line[i] == Glyph(world[i])
    {
      line := line + [if world[k] then OnGlyph else OffGlyph];
    }
    line := line + "\n";
  }
}
