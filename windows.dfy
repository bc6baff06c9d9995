/**
 * The (centre, context) pairs `__slide_through` takes from one walk: for each position, the
 * tokens of the left window, then those of the right window. As written the right window
 * `meta_path[pos + 1 : pos + W]` holds at most `W - 1` tokens, one fewer than the left.
 */
module Windows {

  function Min(a: int, b: int): int { if a <= b then a else b }

  function Max(a: int, b: int): int { if a >= b then a else b }

  /** `meta_path[pos - W : pos]` when `pos - W >= 0`, else `meta_path[:pos]`. */
  function LeftContext(path: seq<string>, pos: nat, w: nat): seq<string>
    requires pos < |path|
  {
    if pos - w >= 0 then path[pos - w..pos] else path[..pos]
  }

  /**
   * Empty at the last position; otherwise `meta_path[pos + 1 : pos + W]` when `pos + W` is
   * inside the walk (empty when `W = 0`, as a Python slice whose stop precedes its start),
   * else `meta_path[pos + 1:]`.
   */
  function RightContext(path: seq<string>, pos: nat, w: nat): seq<string>
    requires pos < |path|
  {
    if pos + 1 < |path| then
      if pos + w < |path| then (if w >= 1 then path[pos + 1..pos + w] else [])
      else path[pos + 1..]
    else []
  }

  /**
   * `[[token, context] for context in lcontext + rcontext]` at position `pos`, written through
   * the positions of the context (`PairsAtContext` shows it is that very list).
   */
  function PairsAt(path: seq<string>, pos: nat, w: nat): (r: seq<(string, string)>)
    requires pos < |path|
  {
    var idx := ContextIndices(|path|, pos, w);
    seq(|idx|, k requires 0 <= k < |idx| => (path[pos], path[idx[k]]))
  }

  /** The pairs of positions `0 .. n - 1`, in order; with `W = 0` both windows are empty, so there are none. */
  function SlidePairs(path: seq<string>, w: nat, n: nat): (r: seq<(string, string)>)
    requires n <= |path|
    ensures w == 0 ==> r == []
  {
    if n == 0 then [] else SlidePairs(path, w, n - 1) + PairsAt(path, n - 1, w)
  }

  /** The positions of the context of `pos`: `[max(pos - W, 0), pos)`, then `[pos + 1, min(pos + W, L))`. */
  function ContextIndices(len: nat, pos: nat, w: nat): (r: seq<nat>)
    requires pos < len
    ensures forall k :: 0 <= k < |r| ==> r[k] < len
  {
    var lo := Max(pos - w, 0);
    var hi := Min(pos + w, len);
    seq(pos - lo, k requires 0 <= k < pos - lo => (lo + k) as nat)
      + if pos + 1 < hi then seq(hi - pos - 1, k requires 0 <= k < hi - pos - 1 => pos + 1 + k) else []
  }

  /**
   * The windows around `pos`: the left one is the `min(pos, W)` tokens right before `pos`,
   * the right one the `min(W - 1, L - 1 - pos)` tokens right after it (none when `W = 0`).
   */
  lemma Windows(path: seq<string>, pos: nat, w: nat)
    requires pos < |path|
    ensures LeftContext(path, pos, w) == path[Max(pos - w, 0)..pos]
    ensures |LeftContext(path, pos, w)| == Min(pos, w)
    ensures w >= 1 ==> RightContext(path, pos, w) == path[pos + 1..Min(pos + w, |path|)]
    ensures |RightContext(path, pos, w)| == if w == 0 then 0 else Min(w - 1, |path| - 1 - pos)
  {
  }

  /** The context of `pos` is the tokens at `ContextIndices`: all inside the walk, and never `pos` itself. */
  lemma ContextPositions(path: seq<string>, pos: nat, w: nat)
    requires pos < |path|
    ensures var idx := ContextIndices(|path|, pos, w);
      var context := LeftContext(path, pos, w) + RightContext(path, pos, w);
      && |idx| == |context|
      && (forall k :: 0 <= k < |idx| ==> idx[k] < |path| && idx[k] != pos && context[k] == path[idx[k]])
  {
    var left, right := LeftContext(path, pos, w), RightContext(path, pos, w);
    var idx := ContextIndices(|path|, pos, w);
    var lo := Max(pos - w, 0);
    Windows(path, pos, w);
    forall k | 0 <= k < |idx|
      ensures idx[k] < |path| && idx[k] != pos && (left + right)[k] == path[idx[k]]
    {
      if k < |left| {
        assert idx[k] == lo + k;
      } else {
        assert idx[k] == pos + 1 + (k - |left|);
      }
    }
  }

  /** `PairsAt` is the source's list: the token at `pos` paired with each context token in turn. */
  lemma PairsAtContext(path: seq<string>, pos: nat, w: nat)
    requires pos < |path|
    ensures var context := LeftContext(path, pos, w) + RightContext(path, pos, w);
      PairsAt(path, pos, w) == seq(|context|, k requires 0 <= k < |context| => (path[pos], context[k]))
  {
    ContextPositions(path, pos, w);
  }

  /** The number of context tokens of `pos`: `min(pos, W) + min(W - 1, L - 1 - pos)`, or `0 + 0` when `W = 0`. */
  function WindowSize(len: nat, pos: nat, w: nat): nat
    requires pos < len
  {
    Min(pos, w) + if w == 0 then 0 else Min(w - 1, len - 1 - pos)
  }

  /** Number of pairs of the first `n` positions: the sum of the window sizes. */
  function PairCount(len: nat, w: nat, n: nat): nat
    requires n <= len
  {
    if n == 0 then 0 else PairCount(len, w, n - 1) + WindowSize(len, n - 1, w)
  }

  /** `__slide_through` emits `sum over pos of min(pos, W) + min(W - 1, L - 1 - pos)` pairs. */
  lemma {:induction false} SlidePairsCount(path: seq<string>, w: nat, n: nat)
    requires n <= |path|
    ensures |SlidePairs(path, w, n)| == PairCount(|path|, w, n)
  {
    if n > 0 {
      SlidePairsCount(path, w, n - 1);
      PairsAtSize(path, n - 1, w);
    }
  }

  /** The pairs of `pos` are `(path[pos], path[c])` for the context positions `c`, `WindowSize` of them. */
  lemma PairsAtIndices(path: seq<string>, pos: nat, w: nat)
    requires pos < |path|
    ensures var idx, pairs := ContextIndices(|path|, pos, w), PairsAt(path, pos, w);
      && |pairs| == |idx| == WindowSize(|path|, pos, w)
      && (forall k :: 0 <= k < |idx| ==> idx[k] < |path| && pairs[k] == (path[pos], path[idx[k]]))
  {
    Windows(path, pos, w);
    ContextPositions(path, pos, w);
  }

  /** Position `pos` contributes `WindowSize` pairs, one per context position. */
  lemma PairsAtSize(path: seq<string>, pos: nat, w: nat)
    requires pos < |path|
    ensures |PairsAt(path, pos, w)| == |ContextIndices(|path|, pos, w)| == WindowSize(|path|, pos, w)
  {
    PairsAtIndices(path, pos, w);
  }

  /** Pair `m` of position `pos` is `(path[pos], path[c])` for its `m`-th context position `c`. */
  lemma PairsAtEntry(path: seq<string>, pos: nat, w: nat, m: nat)
    requires pos < |path| && m < WindowSize(|path|, pos, w)
    ensures m < |PairsAt(path, pos, w)| && m < |ContextIndices(|path|, pos, w)|
    ensures ContextIndices(|path|, pos, w)[m] < |path|
    ensures PairsAt(path, pos, w)[m] == (path[pos], path[ContextIndices(|path|, pos, w)[m]])
  {
    PairsAtIndices(path, pos, w);
  }

  lemma {:induction false} PairCountGrows(len: nat, w: nat, a: nat, b: nat)
    requires a <= b <= len
    ensures PairCount(len, w, a) <= PairCount(len, w, b)
  {
    if a < b {
      PairCountGrows(len, w, a, b - 1);
    }
  }

  /** Pair `m` of position `pos` is pair `PairCount(pos) + m` of the first `pos + 1` positions. */
  lemma {:induction false} SlidePairsLastBlock(path: seq<string>, w: nat, pos: nat, m: nat)
    requires pos < |path| && m < WindowSize(|path|, pos, w)
    ensures m < |PairsAt(path, pos, w)| && PairCount(|path|, w, pos) + m < |SlidePairs(path, w, pos + 1)|
    ensures SlidePairs(path, w, pos + 1)[PairCount(|path|, w, pos) + m] == PairsAt(path, pos, w)[m]
  {
    SlidePairsCount(path, w, pos);
    PairsAtSize(path, pos, w);
  }

  /** Visiting more positions keeps every pair already emitted in its place. */
  lemma {:induction false} SlidePairsStay(path: seq<string>, w: nat, a: nat, n: nat, j: nat)
    requires a <= n <= |path| && j < |SlidePairs(path, w, a)|
    ensures j < |SlidePairs(path, w, n)| && SlidePairs(path, w, n)[j] == SlidePairs(path, w, a)[j]
  {
    if a < n {
      SlidePairsStay(path, w, a, n - 1, j);
    }
  }

  /**
   * The pairs of position `pos` come as one block, in order, right after those of the earlier
   * positions: pair `PairCount(pos) + m` of the walk is pair `m` of `pos`.
   */
  lemma SlidePairsAt(path: seq<string>, w: nat, n: nat, pos: nat, m: nat)
    requires pos < n <= |path| && m < WindowSize(|path|, pos, w)
    ensures m < |PairsAt(path, pos, w)| && PairCount(|path|, w, pos) + m < |SlidePairs(path, w, n)|
    ensures SlidePairs(path, w, n)[PairCount(|path|, w, pos) + m] == PairsAt(path, pos, w)[m]
  {
    SlidePairsLastBlock(path, w, pos, m);
    SlidePairsStay(path, w, pos + 1, n, PairCount(|path|, w, pos) + m);
  }
}
