/**
 * The corpus statistics of `DataLoader`: the frequency list `__count_dataset` builds from
 * the meta-path walks (a dict filled in walk order, then sorted by count, highest first)
 * and the negative-sampling table `__init_sample_table` assembles from it.
 */
module Corpus {

  /** Every token of every walk, walk after walk. */
  function Flatten(data: seq<seq<string>>): seq<string>
  {
    if |data| == 0 then [] else Flatten(data[..|data| - 1]) + data[|data| - 1]
  }

  /** The distinct tokens of `ts` in order of first occurrence: the key order of a Python dict filled from `ts`. */
  function FirstSeen(ts: seq<string>): seq<string>
  {
    if |ts| == 0 then []
    else
      var front := FirstSeen(ts[..|ts| - 1]);
      if ts[|ts| - 1] in front then front else front + [ts[|ts| - 1]]
  }

  predicate Distinct<T(==)>(s: seq<T>)
  {
    forall i, j :: 0 <= i < j < |s| ==> s[i] != s[j]
  }

  /** `FirstSeen` lists each token of `ts` exactly once. */
  lemma {:induction false} FirstSeenMembers(ts: seq<string>)
    ensures Distinct(FirstSeen(ts))
    ensures forall x :: x in FirstSeen(ts) <==> x in ts
  {
    if |ts| > 0 {
      var front := ts[..|ts| - 1];
      FirstSeenMembers(front);
      assert ts == front + [ts[|ts| - 1]];
    }
  }

  /** The (token, count) pairs in dict order, before sorting: `zip(count_dict.keys(), count_dict.values())`. */
  function CountList(data: seq<seq<string>>): (r: seq<(string, nat)>)
    ensures |r| == |FirstSeen(Flatten(data))|
  {
    var keys := FirstSeen(Flatten(data));
    seq(|keys|, i requires 0 <= i < |keys| => (keys[i], multiset(Flatten(data))[keys[i]]))
  }

  /** The first components of a list of pairs. */
  function Keys(s: seq<(string, nat)>): (r: seq<string>)
    ensures |r| == |s|
  {
    seq(|s|, i requires 0 <= i < |s| => s[i].0)
  }

  /**
   * `list.sort(key=count, reverse=True)`: Python's sort is stable, also in reverse, so a
   * pair goes in front of every later pair whose count is not larger.
   */
  function SortByCount(s: seq<(string, nat)>): (r: seq<(string, nat)>)
    ensures |r| == |s|
  {
    if |s| == 0 then [] else Insert(s[0], SortByCount(s[1..]))
  }

  function Insert(x: (string, nat), t: seq<(string, nat)>): (r: seq<(string, nat)>)
    ensures |r| == |t| + 1
  {
    if |t| == 0 || x.1 >= t[0].1 then [x] + t else [t[0]] + Insert(x, t[1..])
  }

  /** The pairs of `s` whose count is `c`, in order. */
  function WithCount(s: seq<(string, nat)>, c: nat): seq<(string, nat)>
  {
    if |s| == 0 then [] else (if s[0].1 == c then [s[0]] else []) + WithCount(s[1..], c)
  }

  predicate NonIncreasing(s: seq<(string, nat)>)
  {
    forall i, j :: 0 <= i < j < |s| ==> s[i].1 >= s[j].1
  }

  function Total(s: seq<(string, nat)>): nat
  {
    if |s| == 0 then 0 else s[0].1 + Total(s[1..])
  }

  lemma {:induction false} InsertPermutes(x: (string, nat), t: seq<(string, nat)>)
    ensures multiset(Insert(x, t)) == multiset{x} + multiset(t)
  {
    if |t| > 0 && x.1 < t[0].1 {
      InsertPermutes(x, t[1..]);
      assert t == [t[0]] + t[1..];
    }
  }

  lemma {:induction false} InsertSorted(x: (string, nat), t: seq<(string, nat)>)
    requires NonIncreasing(t)
    ensures NonIncreasing(Insert(x, t))
  {
    if |t| > 0 && x.1 < t[0].1 {
      var rest := Insert(x, t[1..]);
      InsertSorted(x, t[1..]);
      InsertPermutes(x, t[1..]);
      forall i | 0 <= i < |rest|
        ensures t[0].1 >= rest[i].1
      {
        assert rest[i] in multiset(rest);
        if rest[i] != x {
          assert rest[i] in multiset(t[1..]);
          var k :| 0 <= k < |t[1..]| && t[1..][k] == rest[i];
          assert t[k + 1] == rest[i];
        }
      }
      assert Insert(x, t) == [t[0]] + rest;
    }
  }

  lemma {:induction false} InsertWithCount(x: (string, nat), t: seq<(string, nat)>, c: nat)
    ensures WithCount(Insert(x, t), c) == (if x.1 == c then [x] else []) + WithCount(t, c)
  {
    if |t| > 0 && x.1 < t[0].1 {
      InsertWithCount(x, t[1..], c);
      assert Insert(x, t) == [t[0]] + Insert(x, t[1..]);
    }
  }

  lemma {:induction false} InsertTotal(x: (string, nat), t: seq<(string, nat)>)
    ensures Total(Insert(x, t)) == x.1 + Total(t)
  {
    if |t| > 0 && x.1 < t[0].1 {
      InsertTotal(x, t[1..]);
      assert Insert(x, t) == [t[0]] + Insert(x, t[1..]);
    }
  }

  /**
   * The sorted list is a permutation of its input, in non-increasing count order, and the
   * pairs of each count keep their input order (stability); its counts add up to the same total.
   */
  lemma {:induction false} SortByCountCorrect(s: seq<(string, nat)>)
    ensures NonIncreasing(SortByCount(s))
    ensures multiset(SortByCount(s)) == multiset(s)
    ensures forall c :: WithCount(SortByCount(s), c) == WithCount(s, c)
    ensures Total(SortByCount(s)) == Total(s)
  {
    if |s| > 0 {
      var rest := SortByCount(s[1..]);
      SortByCountCorrect(s[1..]);
      InsertSorted(s[0], rest);
      InsertPermutes(s[0], rest);
      InsertTotal(s[0], rest);
      forall c
        ensures WithCount(SortByCount(s), c) == WithCount(s, c)
      {
        InsertWithCount(s[0], rest, c);
      }
      assert s == [s[0]] + s[1..];
    }
  }

  /** What `__count_dataset` returns. */
  function Frequencies(data: seq<seq<string>>): seq<(string, nat)>
  {
    SortByCount(CountList(data))
  }

  /** The sum of `counts[k]` over the keys `keys`. */
  function SumOver(keys: seq<string>, m: multiset<string>): nat
  {
    if |keys| == 0 then 0 else SumOver(keys[..|keys| - 1], m) + m[keys[|keys| - 1]]
  }

  lemma {:induction false} SumOverAdd(keys: seq<string>, m: multiset<string>, x: string)
    requires Distinct(keys)
    ensures SumOver(keys, m + multiset{x}) == SumOver(keys, m) + (if x in keys then 1 else 0)
  {
    if |keys| > 0 {
      var front := keys[..|keys| - 1];
      SumOverAdd(front, m, x);
      assert keys == front + [keys[|keys| - 1]];
    }
  }

  /** Every token is counted once: the counts over the distinct tokens add up to the number of tokens. */
  lemma {:induction false} FirstSeenTotal(ts: seq<string>)
    ensures SumOver(FirstSeen(ts), multiset(ts)) == |ts|
  {
    if |ts| > 0 {
      var front, x := ts[..|ts| - 1], ts[|ts| - 1];
      assert ts == front + [x];
      FirstSeenTotal(front);
      FirstSeenMembers(front);
      SumOverAdd(FirstSeen(front), multiset(front), x);
      if x !in FirstSeen(front) {
        var keys := FirstSeen(ts);
        assert keys[..|keys| - 1] == FirstSeen(front);
      }
    }
  }

  lemma {:induction false} CountListTotal(keys: seq<string>, m: multiset<string>)
    ensures Total(seq(|keys|, i requires 0 <= i < |keys| => (keys[i], m[keys[i]]))) == SumOver(keys, m)
  {
    if |keys| > 0 {
      var s := seq(|keys|, i requires 0 <= i < |keys| => (keys[i], m[keys[i]]));
      var front := keys[..|keys| - 1];
      var t := seq(|front|, i requires 0 <= i < |front| => (front[i], m[front[i]]));
      CountListTotal(front, m);
      TotalSnoc(t, s[|s| - 1]);
      assert s == t + [s[|s| - 1]];
    }
  }

  lemma {:induction false} TotalSnoc(t: seq<(string, nat)>, x: (string, nat))
    ensures Total(t + [x]) == Total(t) + x.1
  {
    if |t| > 0 {
      TotalSnoc(t[1..], x);
      assert (t + [x])[1..] == t[1..] + [x];
    }
  }

  /**
   * `__count_dataset`: every token of the walks appears exactly once, with its number of
   * occurrences; the list is in non-increasing count order with ties in first-seen order;
   * the counts add up to the number of tokens.
   */
  lemma FrequenciesCorrect(data: seq<seq<string>>)
    ensures var r := Frequencies(data);
      && Distinct(Keys(r))
      && (forall x :: x in Keys(r) <==> x in Flatten(data))
      && (forall i :: 0 <= i < |r| ==> r[i].1 == multiset(Flatten(data))[r[i].0])
      && NonIncreasing(r)
      && (forall c :: WithCount(r, c) == WithCount(CountList(data), c))
      && Total(r) == |Flatten(data)|
  {
    var ts := Flatten(data);
    var list := CountList(data);
    SortByCountCorrect(list);
    FirstSeenMembers(ts);
    FirstSeenTotal(ts);
    CountListTotal(FirstSeen(ts), multiset(ts));
    assert Keys(list) == FirstSeen(ts);
    PermutedKeys(list, Frequencies(data));
    assert forall i :: 0 <= i < |list| ==> list[i].1 == multiset(ts)[list[i].0];
  }

  /** A permutation of a list with distinct keys has the same keys, distinct, and the same pairs. */
  lemma PermutedKeys(list: seq<(string, nat)>, r: seq<(string, nat)>)
    requires multiset(r) == multiset(list) && Distinct(Keys(list))
    ensures Distinct(Keys(r))
    ensures forall x :: x in Keys(r) <==> x in Keys(list)
    ensures forall i :: 0 <= i < |r| ==> r[i] in list
  {
    forall i | 0 <= i < |r|
      ensures r[i] in list
    {
      assert r[i] in multiset(r);
    }
    forall x | x in Keys(list)
      ensures x in Keys(r)
    {
      var a :| 0 <= a < |list| && Keys(list)[a] == x;
      assert list[a] in multiset(list);
      var j :| 0 <= j < |r| && r[j] == list[a];
      assert Keys(r)[j] == x;
    }
    forall x | x in Keys(r)
      ensures x in Keys(list)
    {
      var i :| 0 <= i < |r| && Keys(r)[i] == x;
      var a :| 0 <= a < |list| && list[a] == r[i];
      assert Keys(list)[a] == x;
    }
    forall i, j | 0 <= i < j < |r|
      ensures Keys(r)[i] != Keys(r)[j]
    {
      var a :| 0 <= a < |list| && list[a] == r[i];
      var b :| 0 <= b < |list| && list[b] == r[j];
      if Keys(r)[i] == Keys(r)[j] {
        assert Keys(list)[a] == Keys(list)[b];
        assert a == b;
        TwiceInMultiset(r, i, j);
        DistinctMultiplicity(list, a);
      }
    }
  }

  lemma TwiceInMultiset<T>(r: seq<T>, i: nat, j: nat)
    requires i < j < |r| && r[i] == r[j]
    ensures multiset(r)[r[i]] >= 2
  {
    assert r == r[..j] + r[j..];
    assert r[i] in multiset(r[..j]);
    assert r[j] in multiset(r[j..]);
  }

  /** In a list whose keys are distinct, each pair occurs once. */
  lemma DistinctMultiplicity(s: seq<(string, nat)>, a: nat)
    requires a < |s| && Distinct(Keys(s))
    ensures multiset(s)[s[a]] == 1
  {
    forall i | 0 <= i < |s| && i != a
      ensures s[i] != s[a]
    {
      assert Keys(s)[i] != Keys(s)[a];
    }
    DistinctOnce(s, a);
  }

  lemma {:induction false} DistinctOnce<T>(s: seq<T>, a: nat)
    requires a < |s|
    requires forall i :: 0 <= i < |s| && i != a ==> s[i] != s[a]
    ensures multiset(s)[s[a]] == 1
  {
    var x := s[a];
    assert s == s[..a] + [x] + s[a + 1..];
    NotIn(s[..a], x);
    NotIn(s[a + 1..], x);
  }

  lemma NotIn<T>(s: seq<T>, x: T)
    requires forall i :: 0 <= i < |s| ==> s[i] != x
    ensures multiset(s)[x] == 0
  {
    assert x !in s;
  }

  // ---------------------------------------------------------------------------------------
  // The counting loop of `__count_dataset`
  // ---------------------------------------------------------------------------------------

  /** `keys` and `counts` are `count_dict` after the tokens `seen`: its keys in insertion order and its values. */
  ghost predicate Tally(keys: seq<string>, counts: map<string, nat>, seen: seq<string>)
  {
    && keys == FirstSeen(seen)
    && (forall x :: x in counts <==> x in keys)
    && (forall x :: x in counts ==> counts[x] == multiset(seen)[x])
  }

  /** `count_dict[entity] = count_dict.get(entity, 0) + 1` keeps the tally: a new key goes last. */
  lemma TallyStep(keys: seq<string>, counts: map<string, nat>, seen: seq<string>, entity: string)
    requires Tally(keys, counts, seen)
    ensures Tally(if entity in counts then keys else keys + [entity],
                  counts[entity := (if entity in counts then counts[entity] else 0) + 1], seen + [entity])
  {
    FirstSeenMembers(seen);
    assert (seen + [entity])[..|seen|] == seen;
  }

  /** The inner loop of `__count_dataset`: the entities of one walk, in order. */
  method CountPath(keys: seq<string>, counts: map<string, nat>, path: seq<string>, ghost done: seq<string>)
    returns (keys': seq<string>, counts': map<string, nat>)
    requires Tally(keys, counts, done)
    ensures Tally(keys', counts', done + path)
  {
    keys', counts' := keys, counts;
    assert done + path[..0] == done;
    for j := 0 to |path|
      invariant Tally(keys', counts', done + path[..j])
    {
      var entity := path[j];
      assert done + path[..j + 1] == done + path[..j] + [entity];
      TallyStep(keys', counts', done + path[..j], entity);
      if entity !in counts' {
        keys' := keys' + [entity];
      }
      counts' := counts'[entity := (if entity in counts' then counts'[entity] else 0) + 1];
    }
    assert path[..|path|] == path;
  }

  /**
   * `__count_dataset`: the two nested loops fill `count_dict` (keys in insertion order,
   * `count_dict.get(entity, 0) + 1`), then its pairs are sorted by count, highest first.
   */
  method CountDataset(data: seq<seq<string>>) returns (count: seq<(string, nat)>)
    ensures count == Frequencies(data)
  {
    var keys: seq<string> := [];
    var counts: map<string, nat> := map[];
    for i := 0 to |data|
      invariant Tally(keys, counts, Flatten(data[..i]))
    {
      assert data[..i + 1][..i] == data[..i];
      assert Flatten(data[..i + 1]) == Flatten(data[..i]) + data[i];
      keys, counts := CountPath(keys, counts, data[i], Flatten(data[..i]));
    }
    assert data[..|data|] == data;
    var pairs := seq(|keys|, i requires 0 <= i < |keys| => (keys[i], counts[keys[i]]));
    assert pairs == CountList(data);
    count := SortByCount(pairs);
  }

  // ---------------------------------------------------------------------------------------
  // The negative-sampling table of `__init_sample_table`
  // ---------------------------------------------------------------------------------------

  /** `[token] * n`. */
  function Copies(token: string, n: nat): (r: seq<string>)
    ensures |r| == n
  {
    seq(n, _ => token)
  }

  /** The table after the first `i` pairs: `count[0][0]` repeated `mult[0]` times, then `count[1][0]`, ... */
  function Table(count: seq<(string, nat)>, mult: seq<nat>, i: nat): seq<string>
    requires i <= |count| == |mult|
  {
    if i == 0 then [] else Table(count, mult, i - 1) + Copies(count[i - 1].0, mult[i - 1])
  }

  function SumNat(s: seq<nat>): nat
  {
    if |s| == 0 then 0 else SumNat(s[..|s| - 1]) + s[|s| - 1]
  }

  /**
   * The table holds `sum(mult)` entries, every one a listed token; when the tokens are
   * distinct (as `__count_dataset` makes them), token `count[k][0]` fills exactly `mult[k]` of them.
   */
  lemma {:induction false} TableContents(count: seq<(string, nat)>, mult: seq<nat>, i: nat)
    requires i <= |count| == |mult|
    ensures |Table(count, mult, i)| == SumNat(mult[..i])
    ensures forall x :: x in Table(count, mult, i) ==> x in Keys(count[..i])
    ensures Distinct(Keys(count)) ==>
      forall k :: 0 <= k < |count| ==> multiset(Table(count, mult, i))[count[k].0] == if k < i then mult[k] else 0
  {
    if i > 0 {
      TableContents(count, mult, i - 1);
      assert mult[..i][..i - 1] == mult[..i - 1];
      var t := Table(count, mult, i - 1);
      var c := Copies(count[i - 1].0, mult[i - 1]);
      forall x | x in Table(count, mult, i)
        ensures x in Keys(count[..i])
      {
        if x in t {
          assert x in Keys(count[..i - 1]);
          var j :| 0 <= j < i - 1 && Keys(count[..i - 1])[j] == x;
          assert Keys(count[..i])[j] == x;
        } else {
          assert Keys(count[..i])[i - 1] == x;
        }
      }
      CopiesCount(count[i - 1].0, mult[i - 1]);
      if Distinct(Keys(count)) {
        forall k | 0 <= k < |count|
          ensures multiset(Table(count, mult, i))[count[k].0] == if k < i then mult[k] else 0
        {
          assert multiset(Table(count, mult, i)) == multiset(t) + multiset(c);
          if k != i - 1 {
            assert Keys(count)[k] != Keys(count)[i - 1];
          }
        }
      }
    }
  }

  lemma CopiesCount(token: string, n: nat)
    ensures multiset(Copies(token, n)) == multiset{}[token := n]
  {
    if n > 0 {
      assert Copies(token, n) == Copies(token, n - 1) + [token];
      CopiesCount(token, n - 1);
    }
  }

  /** The loop of `__init_sample_table` once the multiplicities are known. */
  method AssembleTable(count: seq<(string, nat)>, mult: seq<nat>) returns (table: seq<string>)
    requires |mult| == |count|
    ensures table == Table(count, mult, |count|)
  {
    table := [];
    for i := 0 to |count|
      invariant table == Table(count, mult, i)
    {
      table := table + Copies(count[i].0, mult[i]);
    }
  }
}
