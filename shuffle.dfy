/**
 * Python's `random.shuffle` as `generate_metapaths` uses it on a seeded `random.Random(0)`:
 * the random source is an oracle `draw`, read at consecutive positions of one stream.
 */
module Shuffling {

  /** How many draws `random.shuffle` takes from the stream for a list of `n` items. */
  function ShuffleDraws(n: nat): nat
  {
    if n <= 1 then 0 else n - 1
  }

  /**
   * The swaps of `random.shuffle` from index `i` down to 1: item `i` is exchanged with item
   * `j = randbelow(i + 1)`, where `draw(pos)` stands for that value, taken modulo `i + 1`.
   */
  function ShuffleDown<T>(s: seq<T>, i: nat, draw: nat -> nat, pos: nat): (r: seq<T>)
    requires i < |s|
    ensures |r| == |s|
    decreases i
  {
    if i == 0 then s
    else
      var j := draw(pos) % (i + 1);
      ShuffleDown(s[i := s[j]][j := s[i]], i - 1, draw, pos + 1)
  }

  lemma SwapMultiset<T>(s: seq<T>, i: nat, j: nat)
    requires i < |s| && j < |s|
    ensures multiset(s[i := s[j]][j := s[i]]) == multiset(s)
  {
    if i != j {
      var t := s[i := s[j]];
      assert multiset(t) == multiset(s) - multiset{s[i]} + multiset{s[j]};
      assert multiset(t[j := s[i]]) == multiset(t) - multiset{t[j]} + multiset{s[i]};
    }
  }

  /** Every swap exchanges two items, so the shuffle is a permutation. */
  lemma {:induction false} ShuffleDownPermutes<T>(s: seq<T>, i: nat, draw: nat -> nat, pos: nat)
    requires i < |s|
    ensures multiset(ShuffleDown(s, i, draw, pos)) == multiset(s)
    decreases i
  {
    if i > 0 {
      var j := draw(pos) % (i + 1);
      SwapMultiset(s, i, j);
      ShuffleDownPermutes(s[i := s[j]][j := s[i]], i - 1, draw, pos + 1);
    }
  }

  /** `random.shuffle(s)` with the stream at position `pos`. */
  function Shuffled<T>(s: seq<T>, draw: nat -> nat, pos: nat): (r: seq<T>)
    ensures |r| == |s|
  {
    if |s| <= 1 then s else ShuffleDown(s, |s| - 1, draw, pos)
  }

  /**
   * `random.shuffle(x)` in place: for `i` from `len(x) - 1` down to 1, swap `x[i]` with
   * `x[j]`, `j` the next draw of the stream taken modulo `i + 1`.
   */
  method Shuffle<T>(a: array<T>, draw: nat -> nat, pos: nat)
    modifies a
    ensures a[..] == Shuffled(old(a[..]), draw, pos)
    ensures multiset(a[..]) == multiset(old(a[..]))
  {
    ShuffledPermutes(a[..], draw, pos);
    if a.Length <= 1 {
      return;
    }
    var i, at := a.Length - 1, pos;
    while i > 0
      invariant 0 <= i < a.Length
      invariant ShuffleDown(a[..], i, draw, at) == ShuffleDown(old(a[..]), a.Length - 1, draw, pos)
    {
      var j := draw(at) % (i + 1);
      ghost var before := a[..];
      Swap(a, i, j);
      ShuffleDownStep(before, a[..], i, draw, at);
      i, at := i - 1, at + 1;
    }
  }

  /** `x[i], x[j] = x[j], x[i]`. */
  method Swap<T>(a: array<T>, i: nat, j: nat)
    requires i < a.Length && j < a.Length
    modifies a
    ensures a[..] == old(a[..])[i := old(a[j])][j := old(a[i])]
  {
    a[i], a[j] := a[j], a[i];
  }

  /** One swap of the shuffle, then the rest from the next index down and the next draw. */
  lemma ShuffleDownStep<T>(before: seq<T>, after: seq<T>, i: nat, draw: nat -> nat, at: nat)
    requires 0 < i < |before|
    requires after == before[i := before[draw(at) % (i + 1)]][draw(at) % (i + 1) := before[i]]
    ensures ShuffleDown(before, i, draw, at) == ShuffleDown(after, i - 1, draw, at + 1)
  {
  }

  /** `random.shuffle` is a permutation. */
  lemma ShuffledPermutes<T>(s: seq<T>, draw: nat -> nat, pos: nat)
    ensures multiset(Shuffled(s, draw, pos)) == multiset(s)
  {
    if |s| > 1 {
      ShuffleDownPermutes(s, |s| - 1, draw, pos);
    }
  }

  /** Where the shuffle of round `c` starts in the stream; a shuffle of `n` items takes `ShuffleDraws(n)` draws. */
  function RoundStart(pos: nat, c: nat, n: nat): (r: nat)
    ensures r >= pos
  {
    if c == 0 then pos else RoundStart(pos, c - 1, n) + ShuffleDraws(n)
  }

  /** Each round moves the stream on by the same number of draws. */
  lemma {:induction false} RoundStartClosed(pos: nat, c: nat, n: nat)
    ensures RoundStart(pos, c, n) == pos + c * ShuffleDraws(n)
  {
    if c > 0 {
      RoundStartClosed(pos, c - 1, n);
      assert (c - 1) * ShuffleDraws(n) + ShuffleDraws(n) == c * ShuffleDraws(n);
    }
  }

  /** The order of a list after `c` successive in-place shuffles from position `pos`. */
  function ShuffleRounds<T>(s: seq<T>, c: nat, draw: nat -> nat, pos: nat): (r: seq<T>)
    ensures |r| == |s|
  {
    if c == 0 then s
    else Shuffled(ShuffleRounds(s, c - 1, draw, pos), draw, RoundStart(pos, c - 1, |s|))
  }

  /** The list after one more round is the shuffle of the list before it. */
  lemma ShuffleRoundsStep<T>(s: seq<T>, c: nat, draw: nat -> nat, pos: nat, before: seq<T>, after: seq<T>)
    requires before == ShuffleRounds(s, c, draw, pos)
    requires after == Shuffled(before, draw, RoundStart(pos, c, |s|))
    ensures after == ShuffleRounds(s, c + 1, draw, pos)
  {
  }

  /** However many rounds, the list stays a permutation of the original. */
  lemma {:induction false} ShuffleRoundsPermutes<T>(s: seq<T>, c: nat, draw: nat -> nat, pos: nat)
    ensures multiset(ShuffleRounds(s, c, draw, pos)) == multiset(s)
  {
    if c > 0 {
      var prev := ShuffleRounds(s, c - 1, draw, pos);
      ShuffleRoundsPermutes(s, c - 1, draw, pos);
      if |prev| > 1 {
        ShuffleDownPermutes(prev, |prev| - 1, draw, RoundStart(pos, c - 1, |s|));
      }
    }
  }

  /** `rounds` copies of `s`, one after another. */
  function Repeat<T>(s: seq<T>, rounds: nat): (r: seq<T>)
  {
    if rounds == 0 then [] else Repeat(s, rounds - 1) + s
  }

  /** The lists of rounds 1 to `c`, one after another: the start nodes in the order walks are taken. */
  function RoundStarts<T>(s: seq<T>, c: nat, draw: nat -> nat, pos: nat): seq<T>
  {
    if c == 0 then [] else RoundStarts(s, c - 1, draw, pos) + ShuffleRounds(s, c, draw, pos)
  }

  /** Over `c` rounds every item is used exactly `c` times: `c * |s|` items in all. */
  lemma {:induction false} RoundStartsCount<T>(s: seq<T>, c: nat, draw: nat -> nat, pos: nat)
    ensures multiset(RoundStarts(s, c, draw, pos)) == multiset(Repeat(s, c))
    ensures |RoundStarts(s, c, draw, pos)| == c * |s|
  {
    RoundStartsLength(s, c, draw, pos);
    if c > 0 {
      RoundStartsCount(s, c - 1, draw, pos);
      ShuffleRoundsPermutes(s, c, draw, pos);
    }
  }

  lemma {:induction false} RoundStartsLength<T>(s: seq<T>, c: nat, draw: nat -> nat, pos: nat)
    ensures |RoundStarts(s, c, draw, pos)| == c * |s|
  {
    if c > 0 {
      RoundStartsLength(s, c - 1, draw, pos);
      assert (c - 1) * |s| + |s| == c * |s|;
    }
  }

  lemma {:induction false} RepeatMembers<T>(s: seq<T>, rounds: nat, x: T)
    ensures x in Repeat(s, rounds) ==> x in s
  {
    if rounds > 0 {
      RepeatMembers(s, rounds - 1, x);
    }
  }

  /** Only items of `s` are ever used as start nodes. */
  lemma RoundStartsMembers<T>(s: seq<T>, c: nat, draw: nat -> nat, pos: nat, x: T)
    ensures x in RoundStarts(s, c, draw, pos) ==> x in s
  {
    RoundStartsCount(s, c, draw, pos);
    RepeatMembers(s, c, x);
    assert x in RoundStarts(s, c, draw, pos) ==> x in multiset(Repeat(s, c));
  }
}
