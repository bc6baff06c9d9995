/**
 * `MetaPathGenerator`: builds the question/asker/answerer graph from the two edge files
 * and generates meta-path walks from it. File reading is replaced by the already split
 * lines (`line.strip().split()`), and randomness by oracles (see module Walk).
 */
module MetaPath {
  import opened Outcomes
  import opened Graph
  import opened RandomWalk
  import opened Text
  import opened Shuffling
  import opened Generation

  /** Every line has the two fields `unit[0]` and `unit[1]` the edge construction reads. */
  predicate AllPairs(lines: seq<seq<string>>)
  {
    forall i :: 0 <= i < |lines| ==> |lines[i]| >= 2
  }

  /** The edge list built from the lines of one file: `[left + unit[0], right + unit[1]]`. */
  function EdgeList(left: string, right: string, lines: seq<seq<string>>): (es: seq<(string, string)>)
    requires AllPairs(lines)
    ensures |es| == |lines|
  {
    seq(|lines|, i requires 0 <= i < |lines| => (left + lines[i][0], right + lines[i][1]))
  }

  /** The graph `initialize` builds from an empty graph. */
  function Build(qrLines: seq<seq<string>>, qaLines: seq<seq<string>>): Graph
    requires AllPairs(qrLines) && AllPairs(qaLines)
  {
    AddEdges(AddEdges(EMPTY, EdgeList("Q_", "R_", qrLines)), EdgeList("Q_", "A_", qaLines))
  }

  /**
   * The graph built by `initialize`: valid (so adjacency is symmetric and duplicate lines
   * are no-ops), with `x`-`y` adjacent exactly when some `Q_R` line `a b` gives the edge
   * `Q_a`-`R_b` or some `Q_A` line gives `Q_a`-`A_b`; so every node is typed `Q`, `R` or `A`.
   */
  lemma BuildAdjacency(qrLines: seq<seq<string>>, qaLines: seq<seq<string>>)
    requires AllPairs(qrLines) && AllPairs(qaLines)
    ensures Valid(Build(qrLines, qaLines))
    ensures forall x, y :: Adjacent(Build(qrLines, qaLines), x, y) <==>
      Listed(EdgeList("Q_", "R_", qrLines), x, y) || Listed(EdgeList("Q_", "A_", qaLines), x, y)
    ensures forall x :: x in Build(qrLines, qaLines).adj ==> |x| > 0 && x[0] in "QRA"
  {
    var qr := EdgeList("Q_", "R_", qrLines);
    var qa := EdgeList("Q_", "A_", qaLines);
    assert Valid(EMPTY);
    AddEdgesAdjacency(EMPTY, qr);
    AddEdgesAdjacency(AddEdges(EMPTY, qr), qa);
    var g := Build(qrLines, qaLines);
    forall x | x in g.adj
      ensures |x| > 0 && x[0] in "QRA"
    {
      var y := g.adj[x][0];
      assert Adjacent(g, x, y);
      if Listed(qr, x, y) {
        EdgeEndTyped("Q_", "R_", qrLines, x, y);
      } else {
        EdgeEndTyped("Q_", "A_", qaLines, x, y);
      }
    }
  }

  /** Each end of a listed edge carries one of the two type prefixes. */
  lemma EdgeEndTyped(left: string, right: string, lines: seq<seq<string>>, x: string, y: string)
    requires AllPairs(lines) && |left| > 0 && |right| > 0
    requires Listed(EdgeList(left, right, lines), x, y)
    ensures |x| > 0 && (x[0] == left[0] || x[0] == right[0])
  {
    var es := EdgeList(left, right, lines);
    var i :| 0 <= i < |es| && (es[i] == (x, y) || es[i] == (y, x));
    if es[i] == (x, y) {
      assert x == left + lines[i][0];
      assert x[0] == left[0];
    } else {
      assert x == right + lines[i][1];
      assert x[0] == right[0];
    }
  }

  /** The defaults of `length` and `num_walks` in `MetaPathGenerator.__init__`. */
  const DEFAULT_WALK_LENGTH: nat := 100
  const DEFAULT_NUM_WALKS: nat := 10000

  /**
   * `MetaPathGenerator(dataset, length, num_walks)`: `__init__` stores the parameters on an
   * empty graph and ends with `initialize()`; the `IndexError` of a short line escapes the
   * constructor, so no generator is returned (`None`).
   */
  method NewGenerator(qrLines: seq<seq<string>>, qaLines: seq<seq<string>>, length: nat, numWalks: nat)
    returns (r: Option<MetaPathGenerator>)
    ensures r.Some? <==> AllPairs(qrLines) && AllPairs(qaLines)
    ensures r.Some? ==>
      && fresh(r.value) && r.value.walkLength == length && r.value.numWalks == numWalks
      && r.value.g == Build(qrLines, qaLines) && Valid(r.value.g)
  {
    var gen := new MetaPathGenerator(length, numWalks);
    assert Valid(gen.g);
    var ok := gen.Initialize(qrLines, qaLines);
    if !ok {
      return None;
    }
    return Some(gen);
  }

  class MetaPathGenerator {
    const walkLength: nat
    const numWalks: nat
    var g: Graph

    /** `__init__` before `initialize()`: an empty graph and the two walk parameters. */
    constructor (length: nat, numWalks: nat)
      ensures walkLength == length && this.numWalks == numWalks && g == EMPTY
    {
      walkLength := length;
      this.numWalks := numWalks;
      g := EMPTY;
    }

    /**
     * `initialize`: one edge list per file, built line by line, then added to the graph.
     * A line with fewer than two fields raises `IndexError` while its list is being built,
     * so that list is never added.
     */
    method Initialize(qrLines: seq<seq<string>>, qaLines: seq<seq<string>>) returns (ok: bool)
      requires Valid(g)
      modifies this
      ensures Valid(g)
      ensures ok <==> AllPairs(qrLines) && AllPairs(qaLines)
      ensures !AllPairs(qrLines) ==> g == old(g)
      ensures AllPairs(qrLines) && !AllPairs(qaLines) ==> g == AddEdges(old(g), EdgeList("Q_", "R_", qrLines))
      ensures ok ==> g == AddEdges(AddEdges(old(g), EdgeList("Q_", "R_", qrLines)), EdgeList("Q_", "A_", qaLines))
    {
      var qr := EdgeLines("Q_", "R_", qrLines);
      if qr.Failure? {
        return false;
      }
      AddEdgesAdjacency(g, qr.value);
      g := AddEdges(g, qr.value);
      var qa := EdgeLines("Q_", "A_", qaLines);
      if qa.Failure? {
        return false;
      }
      AddEdgesAdjacency(g, qa.value);
      g := AddEdges(g, qa.value);
      return true;
    }

    /** The loop that builds one edge list; fails on the first line without two fields. */
    static method EdgeLines(left: string, right: string, lines: seq<seq<string>>) returns (r: Result<seq<(string, string)>, nat>)
      ensures r.Success? <==> AllPairs(lines)
      ensures r.Success? ==> r.value == EdgeList(left, right, lines)
      ensures r.Failure? ==> r.error < |lines| && |lines[r.error]| < 2 && AllPairs(lines[..r.error])
    {
      var edges: seq<(string, string)> := [];
      for i := 0 to |lines|
        invariant AllPairs(lines[..i])
        invariant |edges| == i
        invariant forall k :: 0 <= k < i ==> edges[k] == (left + lines[k][0], right + lines[k][1])
      {
        if |lines[i]| < 2 {
          return Failure(i);
        }
        assert lines[..i + 1] == lines[..i] + [lines[i]];
        edges := edges + [(left + lines[i][0], right + lines[i][1])];
      }
      assert lines[..|lines|] == lines;
      return Success(edges);
    }

    /**
     * `get_nodelist(type)`: the nodes whose first character is `type`, in graph order, or
     * every node when `type` is `None`; `sys.exit` when the graph has no edges or no nodes.
     */
    method GetNodeList(t: Option<char>) returns (r: Result<seq<string>, WalkError>)
      ensures r.Failure? <==> !HasEdge(g) || |g.nodes| == 0
      ensures r.Failure? ==> r.error == EmptyGraph
      ensures r.Success? ==> forall x :: x in r.value <==> x in g.nodes && (t.None? || (|x| > 0 && x[0] == t.value))
      ensures r.Success? && Distinct(g.nodes) ==> Distinct(r.value)
      ensures r.Success? && t.Some? ==> r.value == OfType(g.nodes, t.value)
    {
      if !HasEdge(g) || |g.nodes| == 0 {
        return Failure(EmptyGraph);
      }
      if t.None? {
        return Success(g.nodes);
      }
      OfTypeMembers(g.nodes, t.value);
      if Distinct(g.nodes) {
        OfTypeDistinct(g.nodes, t.value);
      }
      return Success(OfType(g.nodes, t.value));
    }

    /**
     * `__meta_path_walk`: the loop runs while the walk is not longer than `walkLength` or
     * the pattern index has not come back to `len(pattern)`; it returns `Walk` joined by spaces.
     */
    method MetaPathWalk(start: string, alpha: real, pattern: string, draw: nat -> real, pick: nat -> nat)
      returns (r: Result<string, WalkError>)
      ensures r == Render(Walk(g, start, pattern, alpha, walkLength, draw, pick))
    {
      if |pattern| == 0 {
        return Failure(EmptyPattern);
      }
      var patInd := 1;
      var walk := [start];
      var cur := start;
      if |pattern| == 1 {
        // `pattern[1]` is out of range: the first neighbour step raises, and restarts never end the loop.
        if |walk| <= walkLength {
          return Failure(PatternTooShort);
        }
        return Success(Join(walk, ' '));
      }
      while |walk| <= walkLength || patInd != |pattern|
        invariant 1 <= |walk| <= StepCount(walkLength, |pattern|) + 1
        invariant cur == walk[|walk| - 1]
        invariant patInd == Phase(|walk|, |pattern|)
        invariant WalkPrefix(g, start, pattern, alpha, draw, pick, |walk| - 1) == Success(walk)
        decreases StepCount(walkLength, |pattern|) + 1 - |walk|
      {
        Advance(g, start, pattern, alpha, walkLength, draw, pick, walk, patInd);
        patInd := if patInd != |pattern| then patInd else 1;
        var step := NextNode(walk, cur, patInd, pattern, alpha, draw, pick);
        if step.Failure? {
          return Failure(step.error);
        }
        var next := step.value;
        walk := walk + [next];
        cur := next;
        patInd := patInd + 1;
      }
      Finish(g, start, pattern, alpha, walkLength, draw, pick, walk, patInd);
      return Success(Join(walk, ' '));
    }

    /**
     * One pass of the loop body of `__meta_path_walk` after the wrap-around test: with
     * probability `1 - alpha` a random neighbour of `cur` of type `pattern[patInd]`
     * (`G.neighbors` raises for an unknown node, `rand.choice` for an empty list), else `walk[0]`.
     */
    method NextNode(walk: seq<string>, cur: string, patInd: nat, pattern: string, alpha: real,
                    draw: nat -> real, pick: nat -> nat) returns (r: Result<string, WalkError>)
      requires |pattern| >= 2 && |walk| >= 1 && cur == walk[|walk| - 1]
      requires patInd == PatternIndexAt(|walk|, |pattern|)
      ensures r == StepNode(g, walk, pattern, alpha, draw, pick, |walk|)
    {
      if draw(|walk| - 1) >= alpha {
        if cur !in g.adj {
          return Failure(UnknownNode(cur));
        }
        var possible := OfType(g.adj[cur], pattern[patInd]);
        if |possible| == 0 {
          return Failure(DeadEnd(cur, pattern[patInd]));
        }
        return Success(possible[pick(|walk| - 1) % |possible|]);
      }
      return Success(walk[0]);
    }

    /** One round: a walk from every start node in order, the `i`-th under the draws of walk `base + i`. */
    method WalkRound(starts: seq<string>, pattern: string, alpha: real,
                     walkDraw: nat -> nat -> real, walkPick: nat -> nat -> nat, base: nat, ghost walker: Walker)
      returns (r: Result<seq<string>, WalkError>)
      requires Agrees(walker, g, walkLength, alpha, walkDraw, walkPick)
      ensures r == RoundWalks(walker, starts, pattern, base, |starts|)
    {
      var lines: seq<string> := [];
      for i := 0 to |starts|
        invariant RoundWalks(walker, starts, pattern, base, i) == Success(lines)
      {
        var line := MetaPathWalk(starts[i], alpha, pattern, walkDraw(base + i), walkPick(base + i));
        assert walker(starts[i], pattern, base + i) == line;
        if line.Failure? {
          RoundWalksFailure(walker, starts, pattern, base, i + 1, |starts|);
          return Failure(line.error);
        }
        lines := lines + [line.value];
      }
      return Success(lines);
    }

    /**
     * The `num_walks` rounds of one pattern: before each round the start list is shuffled
     * again in place, so round `c` walks the `c`-th shuffle of the node list; `next` is the
     * position of the seeded stream afterwards.
     */
    method PatternRounds(nodes: seq<string>, pattern: string, alpha: real, shuffleDraw: nat -> nat, pos: nat,
                         walkDraw: nat -> nat -> real, walkPick: nat -> nat -> nat, base: nat, ghost walker: Walker)
      returns (r: Result<seq<string>, WalkError>, next: nat)
      requires Agrees(walker, g, walkLength, alpha, walkDraw, walkPick)
      ensures next == RoundStart(pos, numWalks, |nodes|)
      ensures r == PatternWalks(walker, OrderOf(shuffleDraw), nodes, pattern, pos, base, numWalks)
    {
      ghost var order := OrderOf(shuffleDraw);
      var startList := new string[|nodes|](i requires 0 <= i < |nodes| => nodes[i]);
      assert startList[..] == nodes;
      var lines: seq<string> := [];
      next := pos;
      for cnt := 0 to numWalks
        invariant startList.Length == |nodes|
        invariant next == RoundStart(pos, cnt, |nodes|)
        invariant startList[..] == ShuffleRounds(nodes, cnt, shuffleDraw, pos)
        invariant PatternWalks(walker, order, nodes, pattern, pos, base, cnt) == Success(lines)
      {
        ghost var before := startList[..];
        Shuffle(startList, shuffleDraw, next);
        ShuffleRoundsStep(nodes, cnt, shuffleDraw, pos, before, startList[..]);
        next := next + ShuffleDraws(startList.Length);
        var round := WalkRound(startList[..], pattern, alpha, walkDraw, walkPick, base + |lines|, walker);
        RoundAppended(walker, shuffleDraw, nodes, pattern, pos, base, cnt, lines, startList[..], round);
        if round.Failure? {
          PatternWalksFailure(walker, order, nodes, pattern, pos, base, cnt + 1, numWalks);
          return Failure(round.error), RoundStart(pos, numWalks, |nodes|);
        }
        lines := lines + round.value;
      }
      r := Success(lines);
    }

    /**
     * `generate_metapaths`: `sys.exit` on a graph without edges or nodes; then, for each
     * pattern in turn, `num_walks` shuffled rounds over the nodes of the pattern's first
     * type, every walk appended in order. An exception from any walk ends the generation.
     */
    method GenerateMetapaths(patterns: seq<string>, alpha: real, shuffleDraw: nat -> nat,
                             walkDraw: nat -> nat -> real, walkPick: nat -> nat -> nat, ghost walker: Walker)
      returns (r: Result<seq<string>, WalkError>)
      requires Agrees(walker, g, walkLength, alpha, walkDraw, walkPick)
      ensures r == Generate(g, walkLength, numWalks, patterns, alpha, shuffleDraw, walkDraw, walkPick)
    {
      GenerateAgrees(walker, g, walkLength, numWalks, patterns, alpha, shuffleDraw, walkDraw, walkPick);
      if !HasEdge(g) || |g.nodes| == 0 {
        return Failure(EmptyGraph);
      }
      ghost var order := OrderOf(shuffleDraw);
      var lines: seq<string> := [];
      var pos := 0;
      for k := 0 to |patterns|
        invariant pos == DrawCount(g.nodes, patterns, numWalks, k)
        invariant AllWalks(walker, order, g.nodes, numWalks, patterns, k) == Success(lines)
      {
        var pattern := patterns[k];
        AllWalksStep(walker, order, g.nodes, numWalks, patterns, k, lines);
        if |pattern| == 0 {
          AllWalksFailure(walker, order, g.nodes, numWalks, patterns, k + 1, |patterns|);
          return Failure(EmptyPattern);
        }
        var startNodes := GetNodeList(Some(pattern[0]));
        var block, next := PatternRounds(startNodes.value, pattern, alpha, shuffleDraw, pos, walkDraw, walkPick, |lines|, walker);
        if block.Failure? {
          AllWalksFailure(walker, order, g.nodes, numWalks, patterns, k + 1, |patterns|);
          return Failure(block.error);
        }
        lines := lines + block.value;
        pos := next;
      }
      return Success(lines);
    }
  }

  /** One more round of a pattern: its walks are appended, or its exception ends the pattern. */
  lemma RoundAppended(walker: Walker, shuffleDraw: nat -> nat, nodes: seq<string>, pattern: string, pos: nat, base: nat,
                      cnt: nat, lines: seq<string>, starts: seq<string>, round: Result<seq<string>, WalkError>)
    requires PatternWalks(walker, OrderOf(shuffleDraw), nodes, pattern, pos, base, cnt) == Success(lines)
    requires starts == ShuffleRounds(nodes, cnt + 1, shuffleDraw, pos)
    requires round == RoundWalks(walker, starts, pattern, base + |lines|, |starts|)
    ensures PatternWalks(walker, OrderOf(shuffleDraw), nodes, pattern, pos, base, cnt + 1)
      == if round.Failure? then Failure(round.error) else Success(lines + round.value)
  {
  }

  /** The value of `pat_ind` at the head of the walk loop once the walk holds `k` nodes. */
  function Phase(k: nat, len: nat): nat
    requires len >= 2 && k >= 1
  {
    if k == 1 then 1 else (k - 2) % (len - 1) + 2
  }

  /**
   * One pass of the walk loop while its condition holds: the step is not the last one, the
   * wrapped index is the one step `|walk|` uses, and the step's node extends the prefix or
   * its exception is the walk's.
   */
  lemma Advance(g: Graph, start: string, pattern: string, alpha: real, walkLength: nat,
                draw: nat -> real, pick: nat -> nat, walk: seq<string>, patInd: nat)
    requires |pattern| >= 2 && 1 <= |walk| <= StepCount(walkLength, |pattern|) + 1
    requires patInd == Phase(|walk|, |pattern|)
    requires WalkPrefix(g, start, pattern, alpha, draw, pick, |walk| - 1) == Success(walk)
    requires |walk| <= walkLength || patInd != |pattern|
    ensures |walk| <= StepCount(walkLength, |pattern|)
    ensures (if patInd != |pattern| then patInd else 1) == PatternIndexAt(|walk|, |pattern|)
    ensures (if patInd != |pattern| then patInd else 1) + 1 == Phase(|walk| + 1, |pattern|)
    ensures var step := StepNode(g, walk, pattern, alpha, draw, pick, |walk|);
      && (step.Failure? ==> Walk(g, start, pattern, alpha, walkLength, draw, pick) == Failure(step.error))
      && (step.Success? ==> WalkPrefix(g, start, pattern, alpha, draw, pick, |walk|) == Success(walk + [step.value]))
  {
    var k := |walk|;
    LoopGuard(k - 1, walkLength, |pattern|);
    PhaseStep(k, |pattern|, patInd);
    PrefixStep(g, start, pattern, alpha, draw, pick, k, walk);
    var step := StepNode(g, walk, pattern, alpha, draw, pick, k);
    if step.Failure? {
      FailureSticks(g, start, pattern, alpha, draw, pick, k, StepCount(walkLength, |pattern|));
    }
  }

  /** When the walk loop stops, the walk so far is the whole walk. */
  lemma Finish(g: Graph, start: string, pattern: string, alpha: real, walkLength: nat,
               draw: nat -> real, pick: nat -> nat, walk: seq<string>, patInd: nat)
    requires |pattern| >= 2 && 1 <= |walk| <= StepCount(walkLength, |pattern|) + 1
    requires patInd == Phase(|walk|, |pattern|)
    requires WalkPrefix(g, start, pattern, alpha, draw, pick, |walk| - 1) == Success(walk)
    requires !(|walk| <= walkLength || patInd != |pattern|)
    ensures Walk(g, start, pattern, alpha, walkLength, draw, pick) == Success(walk)
  {
    LoopGuard(|walk| - 1, walkLength, |pattern|);
  }

  /** The pattern index after the wrap-around test of step `k` is the one `StepNode` uses. */
  lemma PhaseStep(k: nat, len: nat, patInd: nat)
    requires len >= 2 && k >= 1
    requires patInd == if k == 1 then 1 else (k - 2) % (len - 1) + 2
    ensures (if patInd != len then patInd else 1) == PatternIndexAt(k, len)
  {
    if k > 1 {
      ModStep(k - 1, len - 1);
    }
  }

  /** One more step of the walk: the step's node is appended, or its exception is raised. */
  lemma PrefixStep(g: Graph, start: string, pattern: string, alpha: real,
                   draw: nat -> real, pick: nat -> nat, k: nat, walk: seq<string>)
    requires |pattern| >= 2 && k >= 1
    requires WalkPrefix(g, start, pattern, alpha, draw, pick, k - 1) == Success(walk)
    ensures var step := StepNode(g, walk, pattern, alpha, draw, pick, k);
      WalkPrefix(g, start, pattern, alpha, draw, pick, k)
        == if step.Success? then Success(walk + [step.value]) else Failure(step.error)
  {
  }

  /** The loop condition of `__meta_path_walk` holds exactly while fewer than `StepCount` steps are done. */
  lemma LoopGuard(k: nat, walkLength: nat, len: nat)
    requires len >= 2 && k <= StepCount(walkLength, len)
    ensures (k + 1 <= walkLength || (if k == 0 then 1 else (k - 1) % (len - 1) + 2) != len)
            <==> k < StepCount(walkLength, len)
  {
    var total := StepCount(walkLength, len);
    var phase := if k == 0 then 1 else (k - 1) % (len - 1) + 2;
    if k >= 1 {
      ModStep(k, len - 1);
      assert phase == len <==> CycleComplete(k, len);
    } else {
      assert phase != len && !CycleComplete(k, len);
    }
    if walkLength <= k < total {
      assert !CycleComplete(k, len);
    }
  }

}
