/**
 * What `generate_metapaths` produces, stated over values: the walks of every round of
 * every pattern, in the order the loops take them, or the first exception. A walk is
 * abstracted as a `Walker`, so the bookkeeping below does not depend on how one walk is taken.
 */
module Generation {
  import opened Outcomes
  import opened Graph
  import opened RandomWalk
  import opened Text
  import opened Shuffling

  /** A walk as `__meta_path_walk` returns it: its nodes joined by single spaces. */
  function Render(r: Result<seq<string>, WalkError>): (s: Result<string, WalkError>)
    ensures s.Success? <==> r.Success?
    ensures r.Failure? ==> s.error == r.error
  {
    match r
    case Success(w) => Success(Join(w, ' '))
    case Failure(e) => Failure(e)
  }

  /** The rendered walk (or exception) for a start node, a pattern and the number of the walk. */
  type Walker = (string, string, nat) -> Result<string, WalkError>

  /** The walker of a graph: walk number `i` has its own random source, `walkDraw(i)` and `walkPick(i)`. */
  function WalkerOf(g: Graph, walkLength: nat, alpha: real, walkDraw: nat -> nat -> real, walkPick: nat -> nat -> nat): Walker
  {
    (start: string, pattern: string, i: nat) => Render(Walk(g, start, pattern, alpha, walkLength, walkDraw(i), walkPick(i)))
  }

  /** `walker` gives, for every start node, pattern and walk number, what that walk of `g` gives. */
  ghost predicate Agrees(walker: Walker, g: Graph, walkLength: nat, alpha: real,
                         walkDraw: nat -> nat -> real, walkPick: nat -> nat -> nat)
  {
    forall s, p, i {:trigger Walk(g, s, p, alpha, walkLength, walkDraw(i), walkPick(i))} ::
      walker(s, p, i) == Render(Walk(g, s, p, alpha, walkLength, walkDraw(i), walkPick(i)))
  }

  lemma WalkerNotEmptyGraph(g: Graph, walkLength: nat, alpha: real, walkDraw: nat -> nat -> real, walkPick: nat -> nat -> nat)
    ensures forall s, p, i :: WalkerOf(g, walkLength, alpha, walkDraw, walkPick)(s, p, i) != Failure(EmptyGraph)
  {
    forall s, p, i
      ensures WalkerOf(g, walkLength, alpha, walkDraw, walkPick)(s, p, i) != Failure(EmptyGraph)
    {
      WalkNotEmptyGraph(g, s, p, alpha, walkLength, walkDraw(i), walkPick(i));
    }
  }

  /**
   * The start list of each round: `order(nodes, c, pos)` is the list round `c` (from 1)
   * walks when the shuffles of the pattern start at position `pos` of the seeded stream.
   */
  type Orderer = (seq<string>, nat, nat) -> seq<string>

  /** The orderer of `generate_metapaths`: round `c` walks the list after `c` in-place shuffles. */
  function OrderOf(shuffleDraw: nat -> nat): Orderer
  {
    (s: seq<string>, c: nat, pos: nat) => ShuffleRounds(s, c, shuffleDraw, pos)
  }

  /** The first `i` walks of one round, from `starts[0]`, ..., `starts[i - 1]`, or the first exception. */
  function RoundWalks(walker: Walker, starts: seq<string>, pattern: string, base: nat, i: nat): Result<seq<string>, WalkError>
    requires i <= |starts|
  {
    if i == 0 then Success([])
    else
      match RoundWalks(walker, starts, pattern, base, i - 1)
      case Failure(e) => Failure(e)
      case Success(lines) =>
        match walker(starts[i - 1], pattern, base + i - 1)
        case Failure(e) => Failure(e)
        case Success(line) => Success(lines + [line])
  }

  /** The first `rounds` rounds of one pattern, round `c` over `order(nodes, c, pos)`. */
  function PatternWalks(walker: Walker, order: Orderer, nodes: seq<string>, pattern: string, pos: nat,
                        base: nat, rounds: nat): Result<seq<string>, WalkError>
  {
    if rounds == 0 then Success([])
    else
      match PatternWalks(walker, order, nodes, pattern, pos, base, rounds - 1)
      case Failure(e) => Failure(e)
      case Success(lines) =>
        var starts := order(nodes, rounds, pos);
        match RoundWalks(walker, starts, pattern, base + |lines|, |starts|)
        case Failure(e) => Failure(e)
        case Success(more) => Success(lines + more)
  }

  /** The position of the seeded shuffle stream after the first `k` patterns. */
  function DrawCount(nodes: seq<string>, ps: seq<string>, numWalks: nat, k: nat): nat
    requires k <= |ps|
  {
    if k == 0 then 0
    else
      var p := ps[k - 1];
      var before := DrawCount(nodes, ps, numWalks, k - 1);
      if |p| == 0 then before else RoundStart(before, numWalks, |OfType(nodes, p[0])|)
  }

  /** The walks of the first `k` patterns in turn; an empty pattern raises when it is reached. */
  function AllWalks(walker: Walker, order: Orderer, nodes: seq<string>, numWalks: nat, ps: seq<string>, k: nat)
    : Result<seq<string>, WalkError>
    requires k <= |ps|
  {
    if k == 0 then Success([])
    else
      match AllWalks(walker, order, nodes, numWalks, ps, k - 1)
      case Failure(e) => Failure(e)
      case Success(lines) =>
        var p := ps[k - 1];
        if |p| == 0 then Failure(EmptyPattern)
        else
          match PatternWalks(walker, order, OfType(nodes, p[0]), p, DrawCount(nodes, ps, numWalks, k - 1), |lines|, numWalks)
          case Failure(e) => Failure(e)
          case Success(more) => Success(lines + more)
  }

  /** The walker of `g` agrees with `g`'s walks. */
  lemma AgreesOf(g: Graph, walkLength: nat, alpha: real, walkDraw: nat -> nat -> real, walkPick: nat -> nat -> nat)
    ensures Agrees(WalkerOf(g, walkLength, alpha, walkDraw, walkPick), g, walkLength, alpha, walkDraw, walkPick)
  {
  }

  /** Two walkers that give the same walks give the same rounds. */
  lemma {:induction false} RoundWalksSame(w1: Walker, w2: Walker, starts: seq<string>, pattern: string, base: nat, i: nat)
    requires i <= |starts|
    requires forall s, p, n :: w1(s, p, n) == w2(s, p, n)
    ensures RoundWalks(w1, starts, pattern, base, i) == RoundWalks(w2, starts, pattern, base, i)
  {
    if i > 0 {
      RoundWalksSame(w1, w2, starts, pattern, base, i - 1);
    }
  }

  lemma {:induction false} PatternWalksSame(w1: Walker, w2: Walker, order: Orderer, nodes: seq<string>, pattern: string,
                                            pos: nat, base: nat, rounds: nat)
    requires forall s, p, n :: w1(s, p, n) == w2(s, p, n)
    ensures PatternWalks(w1, order, nodes, pattern, pos, base, rounds) == PatternWalks(w2, order, nodes, pattern, pos, base, rounds)
  {
    if rounds > 0 {
      PatternWalksSame(w1, w2, order, nodes, pattern, pos, base, rounds - 1);
      var prev := PatternWalks(w1, order, nodes, pattern, pos, base, rounds - 1);
      if prev.Success? {
        var starts := order(nodes, rounds, pos);
        RoundWalksSame(w1, w2, starts, pattern, base + |prev.value|, |starts|);
      }
    }
  }

  lemma {:induction false} AllWalksSame(w1: Walker, w2: Walker, order: Orderer, nodes: seq<string>, numWalks: nat,
                                        ps: seq<string>, k: nat)
    requires k <= |ps|
    requires forall s, p, n :: w1(s, p, n) == w2(s, p, n)
    ensures AllWalks(w1, order, nodes, numWalks, ps, k) == AllWalks(w2, order, nodes, numWalks, ps, k)
  {
    if k > 0 {
      AllWalksSame(w1, w2, order, nodes, numWalks, ps, k - 1);
      var prev := AllWalks(w1, order, nodes, numWalks, ps, k - 1);
      var p := ps[k - 1];
      if prev.Success? && |p| > 0 {
        PatternWalksSame(w1, w2, order, OfType(nodes, p[0]), p, DrawCount(nodes, ps, numWalks, k - 1), |prev.value|, numWalks);
      }
    }
  }

  /** `Generate` may be computed with any walker that agrees with the graph's walks. */
  lemma GenerateAgrees(walker: Walker, g: Graph, walkLength: nat, numWalks: nat, ps: seq<string>, alpha: real,
                       shuffleDraw: nat -> nat, walkDraw: nat -> nat -> real, walkPick: nat -> nat -> nat)
    requires Agrees(walker, g, walkLength, alpha, walkDraw, walkPick)
    ensures Generate(g, walkLength, numWalks, ps, alpha, shuffleDraw, walkDraw, walkPick)
      == if !HasEdge(g) || |g.nodes| == 0 then Failure(EmptyGraph)
         else AllWalks(walker, OrderOf(shuffleDraw), g.nodes, numWalks, ps, |ps|)
  {
    var w := WalkerOf(g, walkLength, alpha, walkDraw, walkPick);
    forall s, p, n
      ensures walker(s, p, n) == w(s, p, n)
    {
    }
    AllWalksSame(walker, w, OrderOf(shuffleDraw), g.nodes, numWalks, ps, |ps|);
  }

  /** One more pattern: its walks are appended, or its exception (or its emptiness) ends the generation. */
  lemma AllWalksStep(walker: Walker, order: Orderer, nodes: seq<string>, numWalks: nat, ps: seq<string>, k: nat,
                     lines: seq<string>)
    requires k < |ps| && AllWalks(walker, order, nodes, numWalks, ps, k) == Success(lines)
    ensures |ps[k]| == 0 ==> AllWalks(walker, order, nodes, numWalks, ps, k + 1) == Failure(EmptyPattern)
    ensures |ps[k]| > 0 ==>
      var pos := DrawCount(nodes, ps, numWalks, k);
      var typed := OfType(nodes, ps[k][0]);
      var block := PatternWalks(walker, order, typed, ps[k], pos, |lines|, numWalks);
      && DrawCount(nodes, ps, numWalks, k + 1) == RoundStart(pos, numWalks, |typed|)
      && AllWalks(walker, order, nodes, numWalks, ps, k + 1)
           == if block.Failure? then Failure(block.error) else Success(lines + block.value)
  {
  }

  /** What `generate_metapaths` returns, or the exit or exception that ends it. */
  function Generate(g: Graph, walkLength: nat, numWalks: nat, ps: seq<string>, alpha: real, shuffleDraw: nat -> nat,
                    walkDraw: nat -> nat -> real, walkPick: nat -> nat -> nat): Result<seq<string>, WalkError>
  {
    if !HasEdge(g) || |g.nodes| == 0 then Failure(EmptyGraph)
    else AllWalks(WalkerOf(g, walkLength, alpha, walkDraw, walkPick), OrderOf(shuffleDraw), g.nodes, numWalks, ps, |ps|)
  }

  /** The same pattern for every start node. */
  function Tag(starts: seq<string>, pattern: string): (plan: seq<(string, string)>)
    ensures |plan| == |starts|
  {
    seq(|starts|, i requires 0 <= i < |starts| => (starts[i], pattern))
  }

  /** The start lists of rounds 1 to `c`, one after another. */
  function Starts(order: Orderer, s: seq<string>, c: nat, pos: nat): seq<string>
  {
    if c == 0 then [] else Starts(order, s, c - 1, pos) + order(s, c, pos)
  }

  /** With the shuffles of `generate_metapaths`, these are the `RoundStarts` of the shuffle model. */
  lemma {:induction false} StartsOfShuffles(shuffleDraw: nat -> nat, s: seq<string>, c: nat, pos: nat)
    ensures Starts(OrderOf(shuffleDraw), s, c, pos) == RoundStarts(s, c, shuffleDraw, pos)
  {
    if c > 0 {
      StartsOfShuffles(shuffleDraw, s, c - 1, pos);
    }
  }

  /**
   * The start node and pattern behind each output line of the first `k` patterns: for each
   * nonempty pattern `p`, `numWalks` rounds over the ordered nodes of type `p[0]`.
   */
  function Plan(order: Orderer, nodes: seq<string>, numWalks: nat, ps: seq<string>, k: nat): seq<(string, string)>
    requires k <= |ps|
  {
    if k == 0 then []
    else
      var p := ps[k - 1];
      Plan(order, nodes, numWalks, ps, k - 1)
        + if |p| == 0 then []
          else Tag(Starts(order, OfType(nodes, p[0]), numWalks, DrawCount(nodes, ps, numWalks, k - 1)), p)
  }

  /** The number of walks one pattern produces: `num_walks` rounds over the nodes of its first type. */
  function BlockSize(nodes: seq<string>, p: string, numWalks: nat): nat
  {
    if |p| == 0 then 0
    else
      var n := |OfType(nodes, p[0])|;
      numWalks * n
  }

  /** The number of walks the first `k` patterns produce. */
  function WalkCount(nodes: seq<string>, ps: seq<string>, numWalks: nat, k: nat): nat
    requires k <= |ps|
  {
    if k == 0 then 0
    else WalkCount(nodes, ps, numWalks, k - 1) + BlockSize(nodes, ps[k - 1], numWalks)
  }

  /** Line `i` of `lines` is the walk from `plan[i].0` along pattern `plan[i].1`, as walk number `base + i`. */
  ghost predicate Rendered(walker: Walker, lines: seq<string>, plan: seq<(string, string)>, base: nat)
  {
    && |lines| == |plan|
    && forall i :: 0 <= i < |lines| ==> walker(plan[i].0, plan[i].1, base + i) == Success(lines[i])
  }

  lemma RenderedAppend(walker: Walker, lines: seq<string>, plan: seq<(string, string)>,
                       more: seq<string>, morePlan: seq<(string, string)>, base: nat, mid: nat)
    requires Rendered(walker, lines, plan, base)
    requires mid == base + |lines| && Rendered(walker, more, morePlan, mid)
    ensures Rendered(walker, lines + more, plan + morePlan, base)
  {
    var all, allPlan := lines + more, plan + morePlan;
    forall i | 0 <= i < |all|
      ensures walker(allPlan[i].0, allPlan[i].1, base + i) == Success(all[i])
    {
      if i >= |lines| {
        var j := i - |lines|;
        assert all[i] == more[j] && allPlan[i] == morePlan[j] && base + |lines| + j == base + i;
      }
    }
  }

  /** Every entry of `plan` pairs a nonempty pattern of `ps` with a node of `nodes` of the pattern's first type. */
  ghost predicate Typed(plan: seq<(string, string)>, nodes: seq<string>, ps: seq<string>)
  {
    forall i :: 0 <= i < |plan| ==>
      plan[i].1 in ps && |plan[i].1| > 0 && plan[i].0 in nodes && |plan[i].0| > 0 && plan[i].0[0] == plan[i].1[0]
  }

  /**
   * The block of one nonempty pattern `p` of `ps`: `num_walks * |nodes of type p[0]|` entries,
   * each pairing `p` with a node of type `p[0]`.
   */
  lemma BlockShape(nodes: seq<string>, numWalks: nat, ps: seq<string>, p: string, shuffleDraw: nat -> nat, pos: nat)
    requires |p| > 0 && p in ps
    ensures var block := Tag(Starts(OrderOf(shuffleDraw), OfType(nodes, p[0]), numWalks, pos), p);
      |block| == BlockSize(nodes, p, numWalks) && Typed(block, nodes, ps)
  {
    var typed := OfType(nodes, p[0]);
    var starts := RoundStarts(typed, numWalks, shuffleDraw, pos);
    StartsOfShuffles(shuffleDraw, typed, numWalks, pos);
    RoundStartsCount(typed, numWalks, shuffleDraw, pos);
    OfTypeMembers(nodes, p[0]);
    forall j | 0 <= j < |starts|
      ensures starts[j] in typed
    {
      RoundStartsMembers(typed, numWalks, shuffleDraw, pos, starts[j]);
    }
  }

  lemma TypedAppend(front: seq<(string, string)>, block: seq<(string, string)>, nodes: seq<string>, ps: seq<string>)
    requires Typed(front, nodes, ps) && Typed(block, nodes, ps)
    ensures Typed(front + block, nodes, ps)
  {
    var plan := front + block;
    forall i | |front| <= i < |plan|
      ensures plan[i] == block[i - |front|]
    {
    }
  }

  /** The block `order` gives pattern `p` from draw position `pos` has `num_walks * |nodes of type p[0]|` entries. */
  ghost predicate BlockSized(order: Orderer, nodes: seq<string>, numWalks: nat, p: string, pos: nat)
    requires |p| > 0
  {
    |Tag(Starts(order, OfType(nodes, p[0]), numWalks, pos), p)| == BlockSize(nodes, p, numWalks)
  }

  /** Every entry of that block pairs a nonempty pattern of `ps` with a node of the pattern's first type. */
  ghost predicate BlockTyped(order: Orderer, nodes: seq<string>, numWalks: nat, ps: seq<string>, p: string, pos: nat)
    requires |p| > 0
  {
    Typed(Tag(Starts(order, OfType(nodes, p[0]), numWalks, pos), p), nodes, ps)
  }

  /** Every block `order` can give a nonempty pattern of `ps` has the size `BlockShape` states. */
  ghost predicate BlocksSized(order: Orderer, nodes: seq<string>, numWalks: nat, ps: seq<string>)
  {
    forall p, pos: nat | |p| > 0 && p in ps :: BlockSized(order, nodes, numWalks, p, pos)
  }

  /** Every block `order` can give a nonempty pattern of `ps` is typed as `BlockShape` states. */
  ghost predicate BlocksTyped(order: Orderer, nodes: seq<string>, numWalks: nat, ps: seq<string>)
  {
    forall p, pos: nat | |p| > 0 && p in ps :: BlockTyped(order, nodes, numWalks, ps, p, pos)
  }

  /** The shuffles of `generate_metapaths` give every block that shape. */
  lemma ShuffleBlocks(nodes: seq<string>, numWalks: nat, ps: seq<string>, shuffleDraw: nat -> nat)
    ensures BlocksSized(OrderOf(shuffleDraw), nodes, numWalks, ps)
    ensures BlocksTyped(OrderOf(shuffleDraw), nodes, numWalks, ps)
  {
    forall p, pos: nat | |p| > 0 && p in ps
      ensures BlockSized(OrderOf(shuffleDraw), nodes, numWalks, p, pos)
      ensures BlockTyped(OrderOf(shuffleDraw), nodes, numWalks, ps, p, pos)
    {
      BlockShape(nodes, numWalks, ps, p, shuffleDraw, pos);
    }
  }

  /** The plan for the first `k` patterns has `num_walks * |nodes of type p[0]|` entries per nonempty pattern `p`. */
  lemma {:induction false} PlanSize(order: Orderer, nodes: seq<string>, numWalks: nat, ps: seq<string>, k: nat)
    requires k <= |ps| && BlocksSized(order, nodes, numWalks, ps)
    ensures |Plan(order, nodes, numWalks, ps, k)| == WalkCount(nodes, ps, numWalks, k)
  {
    if k > 0 {
      PlanSize(order, nodes, numWalks, ps, k - 1);
      assert ps[k - 1] in ps;
      PlanSizeStep(order, nodes, numWalks, ps, k);
    }
  }

  /** Pattern `k` adds exactly its block size to both the plan and the count, so they stay equal. */
  lemma PlanSizeStep(order: Orderer, nodes: seq<string>, numWalks: nat, ps: seq<string>, k: nat)
    requires 0 < k <= |ps| && (|ps[k - 1]| > 0 ==> BlockSized(order, nodes, numWalks, ps[k - 1], DrawCount(nodes, ps, numWalks, k - 1)))
    requires |Plan(order, nodes, numWalks, ps, k - 1)| == WalkCount(nodes, ps, numWalks, k - 1)
    ensures |Plan(order, nodes, numWalks, ps, k)| == WalkCount(nodes, ps, numWalks, k)
  {
    PlanStep(order, nodes, numWalks, ps, k);
  }

  /** Each entry of the plan pairs a pattern of `ps` with a node whose type is the pattern's first letter. */
  lemma {:induction false} PlanShape(order: Orderer, nodes: seq<string>, numWalks: nat, ps: seq<string>, k: nat)
    requires k <= |ps| && BlocksTyped(order, nodes, numWalks, ps)
    ensures Typed(Plan(order, nodes, numWalks, ps, k), nodes, ps)
  {
    if k > 0 {
      PlanShape(order, nodes, numWalks, ps, k - 1);
      assert ps[k - 1] in ps;
      PlanShapeStep(order, nodes, numWalks, ps, k);
    }
  }

  /** Pattern `k` appends a typed block (or nothing) to a typed plan, which stays typed. */
  lemma PlanShapeStep(order: Orderer, nodes: seq<string>, numWalks: nat, ps: seq<string>, k: nat)
    requires 0 < k <= |ps| && (|ps[k - 1]| > 0 ==> BlockTyped(order, nodes, numWalks, ps, ps[k - 1], DrawCount(nodes, ps, numWalks, k - 1)))
    requires Typed(Plan(order, nodes, numWalks, ps, k - 1), nodes, ps)
    ensures Typed(Plan(order, nodes, numWalks, ps, k), nodes, ps)
  {
    PlanStep(order, nodes, numWalks, ps, k);
    var p := ps[k - 1];
    if |p| > 0 {
      var pos := DrawCount(nodes, ps, numWalks, k - 1);
      TypedAppend(Plan(order, nodes, numWalks, ps, k - 1), Tag(Starts(order, OfType(nodes, p[0]), numWalks, pos), p), nodes, ps);
    }
  }

  /** Pattern `k` adds its block to the plan and its block size to the count; an empty pattern adds nothing. */
  lemma PlanStep(order: Orderer, nodes: seq<string>, numWalks: nat, ps: seq<string>, k: nat)
    requires 0 < k <= |ps|
    ensures var p, front := ps[k - 1], Plan(order, nodes, numWalks, ps, k - 1);
      && WalkCount(nodes, ps, numWalks, k) == WalkCount(nodes, ps, numWalks, k - 1) + BlockSize(nodes, p, numWalks)
      && (|p| == 0 ==> Plan(order, nodes, numWalks, ps, k) == front)
      && (|p| > 0 ==> Plan(order, nodes, numWalks, ps, k)
                        == front + Tag(Starts(order, OfType(nodes, p[0]), numWalks, DrawCount(nodes, ps, numWalks, k - 1)), p))
  {
    if |ps[k - 1]| == 0 {
      assert Plan(order, nodes, numWalks, ps, k) == Plan(order, nodes, numWalks, ps, k - 1) + [];
    }
  }

  /** A round that succeeds has one walk per start node, in order, numbered from `base`. */
  lemma {:induction false} RoundWalksRendered(walker: Walker, starts: seq<string>, pattern: string, base: nat, i: nat)
    requires i <= |starts| && RoundWalks(walker, starts, pattern, base, i).Success?
    ensures var lines := RoundWalks(walker, starts, pattern, base, i).value;
      && |lines| == i
      && forall j :: 0 <= j < i ==> walker(starts[j], pattern, base + j) == Success(lines[j])
  {
    if i > 0 {
      RoundWalksRendered(walker, starts, pattern, base, i - 1);
    }
  }

  /** A whole round that succeeds renders its start list, tagged with the pattern, from walk number `base`. */
  lemma RoundWalksTagged(walker: Walker, starts: seq<string>, pattern: string, base: nat)
    requires RoundWalks(walker, starts, pattern, base, |starts|).Success?
    ensures Rendered(walker, RoundWalks(walker, starts, pattern, base, |starts|).value, Tag(starts, pattern), base)
  {
    RoundWalksRendered(walker, starts, pattern, base, |starts|);
  }

  lemma TagAppend(front: seq<string>, back: seq<string>, pattern: string)
    ensures Tag(front + back, pattern) == Tag(front, pattern) + Tag(back, pattern)
  {
    assert forall i :: 0 <= i < |front + back| ==> Tag(front + back, pattern)[i] == (Tag(front, pattern) + Tag(back, pattern))[i];
  }

  /** The last of `rounds` successful rounds ends both the lines and the start lists. */
  lemma PatternWalksLast(walker: Walker, order: Orderer, nodes: seq<string>, pattern: string,
                         pos: nat, base: nat, rounds: nat)
    requires 0 < rounds && PatternWalks(walker, order, nodes, pattern, pos, base, rounds).Success?
    ensures var before := PatternWalks(walker, order, nodes, pattern, pos, base, rounds - 1);
      var starts := order(nodes, rounds, pos);
      var round := RoundWalks(walker, starts, pattern, base + |before.value|, |starts|);
      && before.Success? && round.Success?
      && PatternWalks(walker, order, nodes, pattern, pos, base, rounds).value == before.value + round.value
      && Starts(order, nodes, rounds, pos) == Starts(order, nodes, rounds - 1, pos) + starts
  {
  }

  /** The rounds of a pattern that succeed have one walk per entry of `RoundStarts`. */
  lemma {:induction false} PatternWalksRendered(walker: Walker, order: Orderer, nodes: seq<string>, pattern: string,
                                                pos: nat, base: nat, rounds: nat)
    requires PatternWalks(walker, order, nodes, pattern, pos, base, rounds).Success?
    ensures Rendered(walker, PatternWalks(walker, order, nodes, pattern, pos, base, rounds).value,
                     Tag(Starts(order, nodes, rounds, pos), pattern), base)
  {
    if rounds > 0 {
      PatternWalksLast(walker, order, nodes, pattern, pos, base, rounds);
      var lines := PatternWalks(walker, order, nodes, pattern, pos, base, rounds - 1).value;
      PatternWalksRendered(walker, order, nodes, pattern, pos, base, rounds - 1);
      var starts := order(nodes, rounds, pos);
      RoundWalksTagged(walker, starts, pattern, base + |lines|);
      var more := RoundWalks(walker, starts, pattern, base + |lines|, |starts|).value;
      var earlier := Starts(order, nodes, rounds - 1, pos);
      TagAppend(earlier, starts, pattern);
      RenderedAppend(walker, lines, Tag(earlier, pattern), more, Tag(starts, pattern), base, base + |lines|);
    }
  }

  /** When the first `k` patterns succeed, so do the first `k - 1`, and pattern `k` is nonempty. */
  lemma AllWalksPrefix(walker: Walker, order: Orderer, nodes: seq<string>, numWalks: nat, ps: seq<string>, k: nat)
    requires 0 < k <= |ps| && AllWalks(walker, order, nodes, numWalks, ps, k).Success?
    ensures |ps[k - 1]| > 0 && AllWalks(walker, order, nodes, numWalks, ps, k - 1).Success?
  {
  }

  /** Generation gets past pattern `k` only when none of the first `k` patterns is empty. */
  lemma {:induction false} AllWalksPatterns(walker: Walker, order: Orderer, nodes: seq<string>, numWalks: nat, ps: seq<string>,
                                            k: nat)
    requires k <= |ps| && AllWalks(walker, order, nodes, numWalks, ps, k).Success?
    ensures forall j :: 0 <= j < k ==> |ps[j]| > 0
  {
    if k > 0 {
      AllWalksPrefix(walker, order, nodes, numWalks, ps, k);
      AllWalksPatterns(walker, order, nodes, numWalks, ps, k - 1);
      forall j | 0 <= j < k
        ensures |ps[j]| > 0
      {
        if j < k - 1 {
          assert |ps[j]| > 0;
        }
      }
    }
  }

  /** The last of `k` successful patterns is nonempty, and its block ends both the lines and the plan. */
  lemma AllWalksLast(walker: Walker, order: Orderer, nodes: seq<string>, numWalks: nat, ps: seq<string>, k: nat)
    requires 0 < k <= |ps| && AllWalks(walker, order, nodes, numWalks, ps, k).Success?
    ensures var p, pos := ps[k - 1], DrawCount(nodes, ps, numWalks, k - 1);
      var before := AllWalks(walker, order, nodes, numWalks, ps, k - 1);
      var block := PatternWalks(walker, order, OfType(nodes, p[0]), p, pos, |before.value|, numWalks);
      && |p| > 0 && before.Success? && block.Success?
      && AllWalks(walker, order, nodes, numWalks, ps, k).value == before.value + block.value
      && Plan(order, nodes, numWalks, ps, k)
           == Plan(order, nodes, numWalks, ps, k - 1) + Tag(Starts(order, OfType(nodes, p[0]), numWalks, pos), p)
  {
  }

  /** When the walks of the first `k` patterns succeed, line `i` is the walk of plan entry `i`. */
  lemma {:induction false} AllWalksRendered(walker: Walker, order: Orderer, nodes: seq<string>, numWalks: nat, ps: seq<string>,
                                            k: nat)
    requires k <= |ps| && AllWalks(walker, order, nodes, numWalks, ps, k).Success?
    ensures Rendered(walker, AllWalks(walker, order, nodes, numWalks, ps, k).value, Plan(order, nodes, numWalks, ps, k), 0)
  {
    if k > 0 {
      AllWalksPrefix(walker, order, nodes, numWalks, ps, k);
      AllWalksRendered(walker, order, nodes, numWalks, ps, k - 1);
      AllWalksRenderedStep(walker, order, nodes, numWalks, ps, k);
    }
  }

  /** Pattern `k` extends the lines and the plan of the first `k - 1` patterns alike. */
  lemma AllWalksRenderedStep(walker: Walker, order: Orderer, nodes: seq<string>, numWalks: nat, ps: seq<string>, k: nat)
    requires 0 < k <= |ps| && AllWalks(walker, order, nodes, numWalks, ps, k).Success?
    requires AllWalks(walker, order, nodes, numWalks, ps, k - 1).Success?
    requires Rendered(walker, AllWalks(walker, order, nodes, numWalks, ps, k - 1).value, Plan(order, nodes, numWalks, ps, k - 1), 0)
    ensures Rendered(walker, AllWalks(walker, order, nodes, numWalks, ps, k).value, Plan(order, nodes, numWalks, ps, k), 0)
  {
    AllWalksLast(walker, order, nodes, numWalks, ps, k);
    var p := ps[k - 1];
    var lines := AllWalks(walker, order, nodes, numWalks, ps, k - 1).value;
    var pos := DrawCount(nodes, ps, numWalks, k - 1);
    var typed := OfType(nodes, p[0]);
    PatternWalksRendered(walker, order, typed, p, pos, |lines|, numWalks);
    var more := PatternWalks(walker, order, typed, p, pos, |lines|, numWalks).value;
    RenderedAppend(walker, lines, Plan(order, nodes, numWalks, ps, k - 1), more, Tag(Starts(order, typed, numWalks, pos), p), 0, |lines|);
  }

  /** Once a start node's walk raises, the rest of the round changes nothing. */
  lemma {:induction false} RoundWalksFailure(walker: Walker, starts: seq<string>, pattern: string, base: nat, k: nat, m: nat)
    requires k <= m <= |starts|
    requires RoundWalks(walker, starts, pattern, base, k).Failure?
    ensures RoundWalks(walker, starts, pattern, base, m) == RoundWalks(walker, starts, pattern, base, k)
  {
    if m > k {
      RoundWalksFailure(walker, starts, pattern, base, k, m - 1);
    }
  }

  /** Once a round raises, the later rounds change nothing. */
  lemma {:induction false} PatternWalksFailure(walker: Walker, order: Orderer, nodes: seq<string>, pattern: string,
                                               pos: nat, base: nat, k: nat, m: nat)
    requires k <= m
    requires PatternWalks(walker, order, nodes, pattern, pos, base, k).Failure?
    ensures PatternWalks(walker, order, nodes, pattern, pos, base, m) == PatternWalks(walker, order, nodes, pattern, pos, base, k)
  {
    if m > k {
      PatternWalksFailure(walker, order, nodes, pattern, pos, base, k, m - 1);
    }
  }

  /** Once a pattern raises, the later patterns change nothing. */
  lemma {:induction false} AllWalksFailure(walker: Walker, order: Orderer, nodes: seq<string>, numWalks: nat, ps: seq<string>,
                                           k: nat, m: nat)
    requires k <= m <= |ps|
    requires AllWalks(walker, order, nodes, numWalks, ps, k).Failure?
    ensures AllWalks(walker, order, nodes, numWalks, ps, m) == AllWalks(walker, order, nodes, numWalks, ps, k)
  {
    if m > k {
      AllWalksFailure(walker, order, nodes, numWalks, ps, k, m - 1);
    }
  }

  lemma {:induction false} RoundNoEmptyGraph(walker: Walker, starts: seq<string>, pattern: string, base: nat, i: nat)
    requires i <= |starts|
    requires forall s, p, n :: walker(s, p, n) != Failure(EmptyGraph)
    ensures RoundWalks(walker, starts, pattern, base, i) != Failure(EmptyGraph)
  {
    if i > 0 {
      RoundNoEmptyGraph(walker, starts, pattern, base, i - 1);
    }
  }

  lemma {:induction false} PatternNoEmptyGraph(walker: Walker, order: Orderer, nodes: seq<string>, pattern: string,
                                               pos: nat, base: nat, rounds: nat)
    requires forall s, p, n :: walker(s, p, n) != Failure(EmptyGraph)
    ensures PatternWalks(walker, order, nodes, pattern, pos, base, rounds) != Failure(EmptyGraph)
  {
    if rounds > 0 {
      PatternNoEmptyGraph(walker, order, nodes, pattern, pos, base, rounds - 1);
      var prev := PatternWalks(walker, order, nodes, pattern, pos, base, rounds - 1);
      if prev.Success? {
        var starts := order(nodes, rounds, pos);
        RoundNoEmptyGraph(walker, starts, pattern, base + |prev.value|, |starts|);
      }
    }
  }

  /** The walks themselves never report an empty graph: that exit happens only before them. */
  lemma {:induction false} AllNoEmptyGraph(walker: Walker, order: Orderer, nodes: seq<string>, numWalks: nat, ps: seq<string>,
                                           k: nat)
    requires k <= |ps|
    requires forall s, p, n :: walker(s, p, n) != Failure(EmptyGraph)
    ensures AllWalks(walker, order, nodes, numWalks, ps, k) != Failure(EmptyGraph)
  {
    if k > 0 {
      AllNoEmptyGraph(walker, order, nodes, numWalks, ps, k - 1);
      var prev := AllWalks(walker, order, nodes, numWalks, ps, k - 1);
      var p := ps[k - 1];
      if prev.Success? && |p| > 0 {
        PatternNoEmptyGraph(walker, order, OfType(nodes, p[0]), p, DrawCount(nodes, ps, numWalks, k - 1), |prev.value|, numWalks);
      }
    }
  }

  /**
   * What `generate_metapaths` returns: it exits exactly on a graph without edges or nodes;
   * otherwise, when no exception is raised, no pattern is empty, there are `WalkCount`
   * lines, and line `i` is walk number `i` from the `i`-th planned start node along its
   * pattern, every planned start node being a graph node of the type that opens its pattern.
   */
  lemma GenerateResult(g: Graph, walkLength: nat, numWalks: nat, ps: seq<string>, alpha: real, shuffleDraw: nat -> nat,
                       walkDraw: nat -> nat -> real, walkPick: nat -> nat -> nat)
    ensures var r := Generate(g, walkLength, numWalks, ps, alpha, shuffleDraw, walkDraw, walkPick);
      && (r == Failure(EmptyGraph) <==> !HasEdge(g) || |g.nodes| == 0)
      && (r.Success? ==>
            var plan := Plan(OrderOf(shuffleDraw), g.nodes, numWalks, ps, |ps|);
            && (forall k :: 0 <= k < |ps| ==> |ps[k]| > 0)
            && |r.value| == |plan| == WalkCount(g.nodes, ps, numWalks, |ps|)
            && Typed(plan, g.nodes, ps)
            && forall i :: 0 <= i < |plan| ==>
                 Render(Walk(g, plan[i].0, plan[i].1, alpha, walkLength, walkDraw(i), walkPick(i))) == Success(r.value[i]))
  {
    var r := Generate(g, walkLength, numWalks, ps, alpha, shuffleDraw, walkDraw, walkPick);
    var walker := WalkerOf(g, walkLength, alpha, walkDraw, walkPick);
    var order := OrderOf(shuffleDraw);
    if HasEdge(g) && |g.nodes| > 0 {
      WalkerNotEmptyGraph(g, walkLength, alpha, walkDraw, walkPick);
      AllNoEmptyGraph(walker, order, g.nodes, numWalks, ps, |ps|);
      if r.Success? {
        AllWalksPatterns(walker, order, g.nodes, numWalks, ps, |ps|);
        AllWalksRendered(walker, order, g.nodes, numWalks, ps, |ps|);
        ShuffleBlocks(g.nodes, numWalks, ps, shuffleDraw);
        PlanSize(order, g.nodes, numWalks, ps, |ps|);
        PlanShape(order, g.nodes, numWalks, ps, |ps|);
        var plan := Plan(OrderOf(shuffleDraw), g.nodes, numWalks, ps, |ps|);
        forall i | 0 <= i < |plan|
          ensures Render(Walk(g, plan[i].0, plan[i].1, alpha, walkLength, walkDraw(i), walkPick(i))) == Success(r.value[i])
        {
          assert walker(plan[i].0, plan[i].1, 0 + i) == Success(r.value[i]);
        }
      }
    }
  }
}
