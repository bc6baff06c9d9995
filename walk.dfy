/**
 * The single meta-path walk of `MetaPathGenerator.__meta_path_walk`, as a function of the
 * graph, the walk's start, the type pattern, the restart probability `alpha`, the minimum
 * length, and the random draws. The unseeded `random.Random()` each walk creates is
 * replaced by two oracles: `draw(k)` is the value of `rand.random()` at step `k + 1`, and
 * `pick(k)` selects the element `rand.choice` returns at that step (taken modulo the
 * number of candidates, so every candidate can be chosen).
 */
module RandomWalk {
  import opened Outcomes
  import opened Graph

  datatype WalkError =
    | EmptyGraph                           // `sys.exit` when the graph has no edges or nodes
    | EmptyPattern                         // `sys.exit` (or `IndexError` on `meta_pattern[0]`)
    | PatternTooShort                      // a one-letter pattern: `pattern[1]` raises, or all steps restart forever
    | UnknownNode(node: string)            // `G.neighbors` on a node that is not in the graph
    | DeadEnd(node: string, wanted: char)  // `rand.choice([])`: no neighbour of the wanted type

  /** Division facts used below: the quotient and remainder of `x` by `d` are unique. */
  lemma DivModUnique(x: int, d: int, q: int, r: int)
    requires d > 0 && 0 <= r < d && x == d * q + r
    ensures x / d == q && x % d == r
  {
    var q', r' := x / d, x % d;
    assert d * q + r == d * q' + r';
    if q > q' {
      MulAtLeast(d, q - q');
      assert false;
    } else if q < q' {
      MulAtLeast(d, q' - q);
      assert false;
    }
  }

  lemma {:induction false} MulAtLeast(d: nat, t: nat)
    requires t >= 1
    ensures d * t >= d
  {
    if t > 1 {
      MulAtLeast(d, t - 1);
      assert d * t == d * (t - 1) + d;
    }
  }

  /** After `k` steps the pattern has come back to its start phase. */
  predicate CycleComplete(k: nat, len: nat)
    requires len >= 2
  {
    k >= 1 && k % (len - 1) == 0
  }

  /** Moving one step on: the remainder either wraps to 0 or grows by one. */
  lemma ModStep(k: nat, d: nat)
    requires k >= 1 && d >= 1
    ensures (k - 1) % d == d - 1 ==> k % d == 0
    ensures (k - 1) % d != d - 1 ==> k % d == (k - 1) % d + 1
  {
    var q, r := (k - 1) / d, (k - 1) % d;
    if r == d - 1 {
      DivModUnique(k, d, q + 1, 0);
    } else {
      DivModUnique(k, d, q, r + 1);
    }
  }

  /**
   * The pattern index used by step `k` (k >= 1): `pat_ind` runs 1, 2, ..., len - 1 and then
   * wraps to 1, never to 0, so step `k` uses `pattern[((k - 1) mod (len - 1)) + 1]`.
   */
  function PatternIndexAt(k: nat, len: nat): (i: nat)
    requires len >= 2 && k >= 1
    ensures 1 <= i < len
  {
    (k - 1) % (len - 1) + 1
  }

  /**
   * The number of steps of a walk: the smallest `k` that reaches the minimum length
   * (`k >= walkLength`, and at least one step) and completes a pattern cycle
   * (`k` is a multiple of `len - 1`).
   */
  function StepCount(walkLength: nat, len: nat): (k: nat)
    requires len >= 2
    ensures k >= walkLength && CycleComplete(k, len)
    ensures forall j: nat :: walkLength <= j < k ==> !CycleComplete(j, len)
  {
    var d := len - 1;
    var m := if walkLength == 0 then 1 else walkLength;
    var q, r := m / d, m % d;
    if r == 0 then m
    else
      DivModUnique(m + (d - r), d, q + 1, 0);
      assert forall j: nat :: m <= j < m + (d - r) ==> j % d != 0 by {
        forall j: nat | m <= j < m + (d - r)
          ensures j % d != 0
        {
          DivModUnique(j, d, q, r + (j - m));
        }
      }
      m + (d - r)
  }

  /** The node step `k` (k >= 1) appends to the walk so far, or the exception it raises. */
  function StepNode(g: Graph, walk: seq<string>, pattern: string, alpha: real,
                    draw: nat -> real, pick: nat -> nat, k: nat): Result<string, WalkError>
    requires |pattern| >= 2 && k >= 1 && |walk| == k
  {
    if draw(k - 1) >= alpha then
      var cur := walk[k - 1];
      if cur !in g.adj then Failure(UnknownNode(cur))
      else
        var wanted := pattern[PatternIndexAt(k, |pattern|)];
        var candidates := OfType(g.adj[cur], wanted);
        if |candidates| == 0 then Failure(DeadEnd(cur, wanted))
        else Success(candidates[pick(k - 1) % |candidates|])
    else
      Success(walk[0])
  }

  /** The first `k` steps of the walk from `start`. */
  function WalkPrefix(g: Graph, start: string, pattern: string, alpha: real,
                      draw: nat -> real, pick: nat -> nat, k: nat): (r: Result<seq<string>, WalkError>)
    requires |pattern| >= 2
    ensures r.Success? ==> |r.value| == k + 1 && r.value[0] == start
  {
    if k == 0 then Success([start])
    else
      match WalkPrefix(g, start, pattern, alpha, draw, pick, k - 1)
      case Failure(e) => Failure(e)
      case Success(w) =>
        match StepNode(g, w, pattern, alpha, draw, pick, k)
        case Failure(e) => Failure(e)
        case Success(x) => Success(w + [x])
  }

  /** The walk `__meta_path_walk` returns (before `" ".join`), or the exception it raises. */
  function Walk(g: Graph, start: string, pattern: string, alpha: real, walkLength: nat,
                draw: nat -> real, pick: nat -> nat): Result<seq<string>, WalkError>
  {
    if |pattern| == 0 then Failure(EmptyPattern)
    else if |pattern| == 1 then
      if walkLength == 0 then Success([start]) else Failure(PatternTooShort)
    else
      WalkPrefix(g, start, pattern, alpha, draw, pick, StepCount(walkLength, |pattern|))
  }

  /**
   * A successful walk starts at `start`, has at least `walkLength + 1` nodes, its length
   * minus one is a multiple of `len(pattern) - 1`, and no shorter length has both
   * properties; an empty pattern always fails, and a one-letter pattern succeeds only for
   * `walkLength = 0`.
   */
  lemma WalkShape(g: Graph, start: string, pattern: string, alpha: real, walkLength: nat,
                  draw: nat -> real, pick: nat -> nat)
    ensures var r := Walk(g, start, pattern, alpha, walkLength, draw, pick);
      && (|pattern| == 0 ==> r == Failure(EmptyPattern))
      && (|pattern| == 1 ==> (r.Success? <==> walkLength == 0))
      && (r.Success? ==> |r.value| >= walkLength + 1 && r.value[0] == start)
      && (r.Success? && |pattern| >= 2 ==>
            && CycleComplete(|r.value| - 1, |pattern|)
            && forall n: nat :: walkLength <= n < |r.value| - 1 ==> !CycleComplete(n, |pattern|))
  {
  }

  /** A walk never reports an empty graph: that exit belongs to `get_nodelist`. */
  lemma {:induction false} PrefixNotEmptyGraph(g: Graph, start: string, pattern: string, alpha: real,
                                               draw: nat -> real, pick: nat -> nat, k: nat)
    requires |pattern| >= 2
    ensures WalkPrefix(g, start, pattern, alpha, draw, pick, k) != Failure(EmptyGraph)
  {
    if k > 0 {
      PrefixNotEmptyGraph(g, start, pattern, alpha, draw, pick, k - 1);
    }
  }

  lemma WalkNotEmptyGraph(g: Graph, start: string, pattern: string, alpha: real, walkLength: nat,
                          draw: nat -> real, pick: nat -> nat)
    ensures Walk(g, start, pattern, alpha, walkLength, draw, pick) != Failure(EmptyGraph)
  {
    if |pattern| >= 2 {
      PrefixNotEmptyGraph(g, start, pattern, alpha, draw, pick, StepCount(walkLength, |pattern|));
    }
  }

  /** Each prefix of a successful walk is the walk of that many steps. */
  lemma {:induction false} PrefixOfPrefix(g: Graph, start: string, pattern: string, alpha: real,
                                          draw: nat -> real, pick: nat -> nat, k: nat, j: nat)
    requires |pattern| >= 2 && j <= k
    requires WalkPrefix(g, start, pattern, alpha, draw, pick, k).Success?
    ensures WalkPrefix(g, start, pattern, alpha, draw, pick, j)
         == Success(WalkPrefix(g, start, pattern, alpha, draw, pick, k).value[..j + 1])
    decreases k
  {
    var w := WalkPrefix(g, start, pattern, alpha, draw, pick, k).value;
    if j == k {
      assert w[..j + 1] == w;
    } else {
      var v := WalkPrefix(g, start, pattern, alpha, draw, pick, k - 1).value;
      PrefixOfPrefix(g, start, pattern, alpha, draw, pick, k - 1, j);
      assert w[..k] == v;
      assert w[..j + 1] == v[..j + 1];
    }
  }

  /**
   * Once a step raises, every longer walk raises the same exception: the exception ends
   * `__meta_path_walk`.
   */
  lemma {:induction false} FailureSticks(g: Graph, start: string, pattern: string, alpha: real,
                                         draw: nat -> real, pick: nat -> nat, k: nat, m: nat)
    requires |pattern| >= 2 && k <= m
    requires WalkPrefix(g, start, pattern, alpha, draw, pick, k).Failure?
    ensures WalkPrefix(g, start, pattern, alpha, draw, pick, m) == WalkPrefix(g, start, pattern, alpha, draw, pick, k)
    decreases m
  {
    if m > k {
      FailureSticks(g, start, pattern, alpha, draw, pick, k, m - 1);
    }
  }

  /**
   * Step `i` of a successful walk is the node `StepNode` computes from the nodes before it.
   * A restart step (`draw < alpha`) appends `walk[0]`; any other step appends a neighbour
   * of the current node whose type is `pattern[((i - 1) mod (len - 1)) + 1]`.
   */
  lemma WalkStep(g: Graph, start: string, pattern: string, alpha: real, walkLength: nat,
                 draw: nat -> real, pick: nat -> nat, i: nat)
    requires |pattern| >= 2
    requires Walk(g, start, pattern, alpha, walkLength, draw, pick).Success?
    requires 1 <= i < |Walk(g, start, pattern, alpha, walkLength, draw, pick).value|
    ensures var w := Walk(g, start, pattern, alpha, walkLength, draw, pick).value;
      && StepNode(g, w[..i], pattern, alpha, draw, pick, i) == Success(w[i])
      && (draw(i - 1) < alpha ==> w[i] == start)
      && (draw(i - 1) >= alpha ==>
            Adjacent(g, w[i - 1], w[i]) && |w[i]| > 0 && w[i][0] == pattern[PatternIndexAt(i, |pattern|)])
  {
    var k := StepCount(walkLength, |pattern|);
    var w := WalkPrefix(g, start, pattern, alpha, draw, pick, k).value;
    PrefixOfPrefix(g, start, pattern, alpha, draw, pick, k, i);
    PrefixOfPrefix(g, start, pattern, alpha, draw, pick, k, i - 1);
    assert w[..i + 1] == w[..i] + [w[i]];
    assert w[..i][i - 1] == w[i - 1];
    if draw(i - 1) >= alpha && w[i - 1] in g.adj {
      OfTypeMembers(g.adj[w[i - 1]], pattern[PatternIndexAt(i, |pattern|)]);
    }
  }

  /**
   * With `alpha = 0` and draws in [0, 1), no step restarts: every step moves to a neighbour
   * of the required type.
   */
  lemma NoRestartWithAlphaZero(g: Graph, start: string, pattern: string, walkLength: nat,
                               draw: nat -> real, pick: nat -> nat)
    requires |pattern| >= 2
    requires forall k :: 0.0 <= draw(k)
    requires Walk(g, start, pattern, 0.0, walkLength, draw, pick).Success?
    ensures var w := Walk(g, start, pattern, 0.0, walkLength, draw, pick).value;
      forall i :: 1 <= i < |w| ==>
        Adjacent(g, w[i - 1], w[i]) && |w[i]| > 0 && w[i][0] == pattern[PatternIndexAt(i, |pattern|)]
  {
    var w := Walk(g, start, pattern, 0.0, walkLength, draw, pick).value;
    forall i | 1 <= i < |w|
      ensures Adjacent(g, w[i - 1], w[i]) && |w[i]| > 0 && w[i][0] == pattern[PatternIndexAt(i, |pattern|)]
    {
      WalkStep(g, start, pattern, 0.0, walkLength, draw, pick, i);
    }
  }

  /**
   * With `alpha = 1` and draws in [0, 1), every step restarts: the walk is `start` repeated,
   * and it never fails, whatever the graph.
   */
  lemma AllRestartsWithAlphaOne(g: Graph, start: string, pattern: string, walkLength: nat,
                                draw: nat -> real, pick: nat -> nat)
    requires |pattern| >= 2
    requires forall k :: draw(k) < 1.0
    ensures Walk(g, start, pattern, 1.0, walkLength, draw, pick)
         == Success(seq(StepCount(walkLength, |pattern|) + 1, _ => start))
  {
    RestartPrefix(g, start, pattern, draw, pick, StepCount(walkLength, |pattern|));
  }

  lemma {:induction false} RestartPrefix(g: Graph, start: string, pattern: string,
                                         draw: nat -> real, pick: nat -> nat, k: nat)
    requires |pattern| >= 2
    requires forall k :: draw(k) < 1.0
    ensures WalkPrefix(g, start, pattern, 1.0, draw, pick, k) == Success(seq(k + 1, _ => start))
  {
    if k > 0 {
      RestartPrefix(g, start, pattern, draw, pick, k - 1);
      var w: seq<string> := seq(k, _ => start);
      assert draw(k - 1) < 1.0;
      assert WalkPrefix(g, start, pattern, 1.0, draw, pick, k - 1) == Success(w);
      assert StepNode(g, w, pattern, 1.0, draw, pick, k) == Success(start);
      assert WalkPrefix(g, start, pattern, 1.0, draw, pick, k) == Success(w + [start]);
      assert w + [start] == seq(k + 1, _ => start);
    } else {
      assert [start] == seq(1, _ => start);
    }
  }

  /** On a valid graph every node of a walk prefix is the start or a node of the graph. */
  lemma {:induction false} PrefixNodesKnown(g: Graph, start: string, pattern: string, alpha: real,
                                            draw: nat -> real, pick: nat -> nat, k: nat)
    requires |pattern| >= 2 && Valid(g)
    requires WalkPrefix(g, start, pattern, alpha, draw, pick, k).Success?
    ensures var w := WalkPrefix(g, start, pattern, alpha, draw, pick, k).value;
      forall i :: 0 <= i < |w| ==> w[i] == start || w[i] in g.adj
  {
    if k > 0 {
      var v := WalkPrefix(g, start, pattern, alpha, draw, pick, k - 1).value;
      PrefixNodesKnown(g, start, pattern, alpha, draw, pick, k - 1);
      var x := StepNode(g, v, pattern, alpha, draw, pick, k).value;
      if draw(k - 1) >= alpha {
        OfTypeMembers(g.adj[v[k - 1]], pattern[PatternIndexAt(k, |pattern|)]);
        assert Adjacent(g, v[k - 1], x);
      }
    }
  }

  /**
   * The two ways a walk on a valid graph can raise: `G.neighbors` fails only for a start
   * node that is not in the graph, and `rand.choice` fails only at a graph node with no
   * neighbour of the type the pattern asks for.
   */
  lemma {:induction false} WalkFailures(g: Graph, start: string, pattern: string, alpha: real,
                                        draw: nat -> real, pick: nat -> nat, k: nat)
    requires |pattern| >= 2 && Valid(g)
    ensures var r := WalkPrefix(g, start, pattern, alpha, draw, pick, k);
      && (r.Failure? ==> r.error.UnknownNode? || r.error.DeadEnd?)
      && (r.Failure? && r.error.UnknownNode? ==> r.error.node == start && start !in g.adj)
      && (r.Failure? && r.error.DeadEnd? ==>
            r.error.node in g.adj && OfType(g.adj[r.error.node], r.error.wanted) == []
            && r.error.wanted in pattern[1..])
  {
    if k > 0 {
      WalkFailures(g, start, pattern, alpha, draw, pick, k - 1);
      var prev := WalkPrefix(g, start, pattern, alpha, draw, pick, k - 1);
      if prev.Success? {
        var v := prev.value;
        PrefixNodesKnown(g, start, pattern, alpha, draw, pick, k - 1);
        assert v[k - 1] == start || v[k - 1] in g.adj;
        if draw(k - 1) >= alpha && v[k - 1] in g.adj {
          var i := PatternIndexAt(k, |pattern|);
          assert pattern[i] == pattern[1..][i - 1];
        }
      }
    }
  }
}
