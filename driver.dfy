/** The program's driver: rule 90 on 80 cells, one rendered line per
    generation for exactly 80 generations. */
module Driver {
  import opened Rule
  import opened Automaton
  import opened Display

  /** Number of cells, and also the number of generations printed. */
  const WorldSize := 80

  /** The rule the program runs. */
  const RuleNo: RuleNumber := 90

  /** Generation k of the automaton of the given length under the given rule. */
  function Generation(length: int, rule: RuleNumber, k: nat): (w: World)
    ensures |w| == if length > 0 then length else 0
  {
    if k == 0 then Initial(length) else Step(Generation(length, rule, k - 1), RuleTable(rule))
  }

  /** The first n lines the program prints for the given length and rule. */
  function Transcript(length: int, rule: RuleNumber, n: nat): (lines: seq<string>)
    ensures |lines| == n
  {
    if n == 0 then [] else Transcript(length, rule, n - 1) + [Render(Generation(length, rule, n - 1))]
  }

  /** Line k of a transcript is the rendering of generation k. */
  lemma {:induction false} TranscriptAt(length: int, rule: RuleNumber, n: nat, k: nat)
    requires k < n
    ensures Transcript(length, rule, n)[k] == Render(Generation(length, rule, k))
  {
    if k < n - 1 {
      TranscriptAt(length, rule, n - 1, k);
    }
  }

  /** The source's main loop, collecting the printed lines: decode the rule
      once, initialise once, then WorldSize times render and step. No check
      for a fixed point is made. */
  method Simulate() returns (output: seq<string>)
    ensures |output| == WorldSize
    ensures forall k :: 0 <= k < WorldSize ==> |output[k]| == WorldSize + 1
    ensures forall k :: 0 <= k < WorldSize ==> output[k] == Render(Generation(WorldSize, RuleNo, k))
  {
    var worldSize := WorldSize;
    var transitionRule := DecodeRule(RuleNo);
    var world := InitialWorld(worldSize);
    output := [];
    for i := 0 to worldSize
      invariant world == Generation(worldSize, RuleNo, i)
      invariant output == Transcript(worldSize, RuleNo, i)
    {
      var line := PrintWorld(world);
      output := output + [line];
      world := GenerateNewWorld(world, transitionRule);
    }
    forall k | 0 <= k < WorldSize
      ensures output[k] == Render(Generation(WorldSize, RuleNo, k))
    {
      TranscriptAt(WorldSize, RuleNo, WorldSize, k);
    }
  }

  /** The first three generations of the program: the single cell at 40
      splits into 39 and 41, and then into 38 and 42 with 40 dead again. */
  lemma Rule90Generations()
    ensures forall i :: 0 <= i < 80 ==> (Generation(80, 90, 0)[i] <==> i == 40)
    ensures forall i :: 0 <= i < 80 ==> (Generation(80, 90, 1)[i] <==> i == 39 || i == 41)
    ensures forall i :: 0 <= i < 80 ==> (Generation(80, 90, 2)[i] <==> i == 38 || i == 42)
  {
    var g0, g1 := Generation(80, 90, 0), Generation(80, 90, 1);
    forall i | 0 <= i < 80
      ensures g1[i] <==> i == 39 || i == 41
    {
      Rule90Step(g0, i);
    }
    forall i | 0 <= i < 80
      ensures Generation(80, 90, 2)[i] <==> i == 38 || i == 42
    {
      Rule90Step(g1, i);
    }
  }
}
