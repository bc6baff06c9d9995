/**
 * The `DataLoader` of the skip-gram trainer: the walk corpus with its token counts and its
 * negative-sampling table, the cursor-driven batch loop over the walks, and the maps
 * between user ids and user indices.
 */
module Loader {
  import opened Outcomes
  import opened Text
  import opened Corpus
  import opened Windows
  import opened Entities

  // ---------------------------------------------------------------------------------------
  // The batch loop of `generate_batch`
  // ---------------------------------------------------------------------------------------

  /** Why `generate_batch` raises. */
  datatype BatchError =
    | NothingToUnpack        // `u, v = zip(*pairs_list)` on an empty list
    | BadToken(e: SepError)  // `__separate_entity` on a malformed token
    | EmptyTable             // `np.random.choice` asked for samples from an empty table
    | NotAString             // `item.split` on a row of the 2-D negative-sample array

  /** The three 3 x n matrices `generate_batch` returns. */
  datatype Batch = Batch(upos: array2<int>, vpos: array2<int>, npos: array2<int>)

  /** The decoded columns of the three matrices. */
  datatype Columns = Columns(u: seq<(nat, int)>, v: seq<(nat, int)>, n: seq<(nat, int)>)

  /**
   * How many walks from `start` on give their pairs to the batch: `batch_size` when
   * `batch_size + data_index < len(data)`, otherwise all the remaining walks but the last,
   * on which the loop breaks. The last walk never contributes, and the cursor stays on it.
   */
  function Kept(len: nat, start: nat, batchSize: int): (k: nat)
    requires start <= len
    ensures k <= if batchSize > 0 then batchSize else 0
    ensures start < len ==> start + k <= len - 1
  {
    if batchSize + start < len then (if batchSize > 0 then batchSize else 0)
    else if start < len then len - start - 1
    else 0
  }

  /** The loop reaches the last walk, sets `process = False` and breaks. */
  predicate EndReached(len: nat, start: nat, batchSize: int)
  {
    start < len && batchSize + start >= len
  }

  /** The pairs of `__slide_through` for the `k` walks from `start` on, in order. */
  function BatchPairs(data: seq<seq<string>>, start: nat, k: nat, w: nat): (r: seq<(string, string)>)
    requires start + k <= |data|
    ensures w == 0 ==> r == []
  {
    if k == 0 then []
    else BatchPairs(data, start, k - 1, w) + SlidePairs(data[start + k - 1], w, |data[start + k - 1]|)
  }

  /** `u` of `u, v = zip(*pairs_list)`. */
  function Firsts(pairs: seq<(string, string)>): (r: seq<string>)
    ensures |r| == |pairs| && forall k :: 0 <= k < |pairs| ==> r[k] == pairs[k].0
  {
    seq(|pairs|, k requires 0 <= k < |pairs| => pairs[k].0)
  }

  /** `v` of `u, v = zip(*pairs_list)`. */
  function Seconds(pairs: seq<(string, string)>): (r: seq<string>)
    ensures |r| == |pairs| && forall k :: 0 <= k < |pairs| ==> r[k] == pairs[k].1
  {
    seq(|pairs|, k requires 0 <= k < |pairs| => pairs[k].1)
  }

  /** The shape `(npairs * 2 * W, npairs * neg_ratio)` of the negative-sample array. */
  function NegShape(npairs: nat, w: nat, negRatio: nat): (r: (nat, nat))
    ensures r.0 > 0 <==> npairs > 0 && w > 0
  {
    (npairs * 2 * w, npairs * negRatio)
  }

  /** The number of entries of an array of shape `(rows, cols)`. */
  function Size(shape: (nat, nat)): (n: nat)
    ensures n > 0 <==> shape.0 > 0 && shape.1 > 0
  {
    shape.0 * shape.1
  }

  /**
   * `np.random.choice(sample_table, size=shape)`, row by row, with the random choices given
   * as `negPick`: draw `k` is `table[negPick(k) mod |table|]`. An empty table is an error
   * unless no samples are asked for.
   */
  function Negatives(table: seq<string>, shape: (nat, nat), negPick: nat -> nat): (r: Result<seq<string>, BatchError>)
    ensures r.Failure? <==> Size(shape) > 0 && |table| == 0
    ensures r.Success? ==> |r.value| == Size(shape)
    ensures r.Success? ==> forall k :: 0 <= k < |r.value| ==> r.value[k] in table
  {
    if Size(shape) == 0 then Success([])
    else if |table| == 0 then Failure(EmptyTable)
    else Success(seq(Size(shape), k requires 0 <= k => table[negPick(k) % |table|]))
  }

  /**
   * The outputs made from the gathered pairs: `upos` and `vpos` from the two sides of the
   * pairs, and the negatives separated as one flat list of `rows * cols` tokens.
   */
  function PairColumns(pairs: seq<(string, string)>, w: nat, negRatio: nat,
                       table: seq<string>, negPick: nat -> nat): Result<Columns, BatchError>
  {
    if |pairs| == 0 then Failure(NothingToUnpack)
    else
      var u := DecodeAll(Firsts(pairs));
      if u.Failure? then Failure(BadToken(u.error))
      else
        var v := DecodeAll(Seconds(pairs));
        if v.Failure? then Failure(BadToken(v.error))
        else
          var negs := Negatives(table, NegShape(|pairs|, w, negRatio), negPick);
          if negs.Failure? then Failure(negs.error)
          else
            var n := DecodeAll(negs.value);
            if n.Failure? then Failure(BadToken(n.error))
            else Success(Columns(u.value, v.value, n.value))
  }

  /** What one `generate_batch(W, batch_size, neg_ratio)` call yields from cursor `start`. */
  function BatchColumns(data: seq<seq<string>>, start: nat, batchSize: int, w: nat, negRatio: nat,
                        table: seq<string>, negPick: nat -> nat): Result<Columns, BatchError>
    requires start <= |data|
  {
    PairColumns(BatchPairs(data, start, Kept(|data|, start, batchSize), w), w, negRatio, table, negPick)
  }

  /**
   * The same outputs as the code stands: `__separate_entity` iterates over the 2-D sample
   * array, so each item is a row of it, which has no `split`; only an array with no rows
   * would get through.
   */
  function PairColumnsAsWritten(pairs: seq<(string, string)>, w: nat, negRatio: nat,
                                table: seq<string>, negPick: nat -> nat): Result<Columns, BatchError>
  {
    if |pairs| == 0 then Failure(NothingToUnpack)
    else
      var u := DecodeAll(Firsts(pairs));
      if u.Failure? then Failure(BadToken(u.error))
      else
        var v := DecodeAll(Seconds(pairs));
        if v.Failure? then Failure(BadToken(v.error))
        else
          var shape := NegShape(|pairs|, w, negRatio);
          var negs := Negatives(table, shape, negPick);
          if negs.Failure? then Failure(negs.error)
          else if shape.0 > 0 then Failure(NotAString)
          else Success(Columns(u.value, v.value, []))
  }

  function BatchColumnsAsWritten(data: seq<seq<string>>, start: nat, batchSize: int, w: nat, negRatio: nat,
                                 table: seq<string>, negPick: nat -> nat): Result<Columns, BatchError>
    requires start <= |data|
  {
    PairColumnsAsWritten(BatchPairs(data, start, Kept(|data|, start, batchSize), w), w, negRatio, table, negPick)
  }

  /**
   * As written, `generate_batch` never returns: with no pairs the unpacking fails, and with
   * some pairs the window is at least 1, so the negative array has rows and their
   * separation fails.
   */
  lemma AsWrittenNeverReturns(data: seq<seq<string>>, start: nat, batchSize: int, w: nat, negRatio: nat,
                              table: seq<string>, negPick: nat -> nat)
    requires start <= |data|
    ensures BatchColumnsAsWritten(data, start, batchSize, w, negRatio, table, negPick).Failure?
  {
  }

  /** Each component of a pair of a walk is a token of that walk. */
  lemma PairsFromPath(path: seq<string>, w: nat, n: nat)
    requires n <= |path|
    ensures forall k :: 0 <= k < |SlidePairs(path, w, n)| ==>
      SlidePairs(path, w, n)[k].0 in path && SlidePairs(path, w, n)[k].1 in path
  {
    var pairs := SlidePairs(path, w, n);
    forall k | 0 <= k < |pairs|
      ensures pairs[k].0 in path && pairs[k].1 in path
    {
      var pos, m := PairPosition(path, w, n, k);
      SlidePairsAt(path, w, n, pos, m);
      PairsAtEntry(path, pos, w, m);
    }
  }

  /** The position and context rank behind pair `k` of the first `n` positions. */
  lemma {:induction false} PairPosition(path: seq<string>, w: nat, n: nat, k: nat) returns (pos: nat, m: nat)
    requires n <= |path| && k < |SlidePairs(path, w, n)|
    ensures pos < n && m < WindowSize(|path|, pos, w) && k == PairCount(|path|, w, pos) + m
  {
    SlidePairsCount(path, w, n);
    SlidePairsCount(path, w, n - 1);
    if k < PairCount(|path|, w, n - 1) {
      pos, m := PairPosition(path, w, n - 1, k);
    } else {
      pos, m := n - 1, k - PairCount(|path|, w, n - 1);
    }
  }

  /** Every token of every walk of the corpus is a well-formed `"<T>_<id>"`. */
  ghost predicate Decodable(data: seq<seq<string>>)
  {
    forall i, t :: 0 <= i < |data| && t in data[i] ==> Decode(t).Success?
  }

  /** The tokens of the batch pairs come from the walks, so they decode when the walks' tokens do. */
  lemma {:induction false} BatchPairsDecode(data: seq<seq<string>>, start: nat, k: nat, w: nat)
    requires start + k <= |data| && Decodable(data)
    ensures forall j :: 0 <= j < |BatchPairs(data, start, k, w)| ==>
      Decode(BatchPairs(data, start, k, w)[j].0).Success? && Decode(BatchPairs(data, start, k, w)[j].1).Success?
  {
    if k > 0 {
      BatchPairsDecode(data, start, k - 1, w);
      var path := data[start + k - 1];
      PairsFromPath(path, w, |path|);
      var front := BatchPairs(data, start, k - 1, w);
      var here := SlidePairs(path, w, |path|);
      var all: seq<(string, string)> := front + here;
      assert BatchPairs(data, start, k, w) == all;
      forall j | |front| <= j < |all|
        ensures Decode(all[j].0).Success? && Decode(all[j].1).Success?
      {
        assert all[j] == here[j - |front|];
      }
    }
  }

  /** What the batch decodes depends on the walks `start .. start + k - 1` only. */
  lemma {:induction false} BatchPairsPrefix(data: seq<seq<string>>, more: seq<seq<string>>, start: nat, k: nat, w: nat)
    requires start + k <= |data|
    ensures BatchPairs(data + more, start, k, w) == BatchPairs(data, start, k, w)
  {
    if k > 0 {
      BatchPairsPrefix(data, more, start, k - 1, w);
      assert (data + more)[start + k - 1] == data[start + k - 1];
    }
  }

  /** Replacing the last walk of the corpus never changes a batch: its pairs are never emitted. */
  lemma LastWalkNeverEmitted(data: seq<seq<string>>, other: seq<string>, start: nat, batchSize: int, w: nat)
    requires start < |data|
    ensures var changed := data[..|data| - 1] + [other];
      BatchPairs(changed, start, Kept(|data|, start, batchSize), w)
        == BatchPairs(data, start, Kept(|data|, start, batchSize), w)
  {
    var k := Kept(|data|, start, batchSize);
    var init := data[..|data| - 1];
    BatchPairsPrefix(init, [other], start, k, w);
    assert data == init + [data[|data| - 1]];
    BatchPairsPrefix(init, [data[|data| - 1]], start, k, w);
  }

  /** The cursor never goes back: once it sits on the last walk, every later call fails to unpack. */
  lemma Exhausted(data: seq<seq<string>>, batchSize: int, w: nat, negRatio: nat,
                  table: seq<string>, negPick: nat -> nat)
    requires |data| > 0
    ensures Kept(|data|, |data| - 1, batchSize) == 0
    ensures BatchColumns(data, |data| - 1, batchSize, w, negRatio, table, negPick) == Failure(NothingToUnpack)
  {
  }

  /**
   * With well-formed tokens everywhere and a table to draw from, the batch succeeds: `upos`
   * and `vpos` hold one column per pair, decoding its two tokens, and the negatives
   * `npairs * 2 * W * npairs * neg_ratio` columns, each decoding a drawn table entry.
   */
  lemma BatchSucceeds(data: seq<seq<string>>, start: nat, batchSize: int, w: nat, negRatio: nat,
                      table: seq<string>, negPick: nat -> nat)
    requires start <= |data| && Decodable(data)
    requires forall t :: t in table ==> Decode(t).Success?
    requires |BatchPairs(data, start, Kept(|data|, start, batchSize), w)| > 0
    requires |table| > 0
    ensures var pairs := BatchPairs(data, start, Kept(|data|, start, batchSize), w);
      var r := BatchColumns(data, start, batchSize, w, negRatio, table, negPick);
      && r.Success?
      && |r.value.u| == |r.value.v| == |pairs|
      && (forall j :: 0 <= j < |pairs| ==>
            Decode(pairs[j].0) == Success(r.value.u[j]) && Decode(pairs[j].1) == Success(r.value.v[j]))
      && |r.value.n| == Size(NegShape(|pairs|, w, negRatio))
      && (forall j :: 0 <= j < |r.value.n| ==> Decode(table[negPick(j) % |table|]) == Success(r.value.n[j]))
  {
    var k := Kept(|data|, start, batchSize);
    var pairs := BatchPairs(data, start, k, w);
    BatchPairsDecode(data, start, k, w);
    var us, vs := Firsts(pairs), Seconds(pairs);
    DecodeAllSuccess(us);
    DecodeAllSuccess(vs);
    var negs := Negatives(table, NegShape(|pairs|, w, negRatio), negPick);
    assert negs.Success?;
    DecodeAllSuccess(negs.value);
    var n := DecodeAll(negs.value);
    assert n.Success?;
    assert BatchColumns(data, start, batchSize, w, negRatio, table, negPick)
      == Success(Columns(DecodeAll(us).value, DecodeAll(vs).value, n.value));
  }

  // ---------------------------------------------------------------------------------------
  // The user-index maps of `__create_uid_index`
  // ---------------------------------------------------------------------------------------

  /** `int(line.strip())` for every line; the index of the first line that is no integer otherwise. */
  function ParseUids(lines: seq<string>): (r: Result<seq<int>, nat>)
    ensures r.Success? ==> |r.value| == |lines|
    ensures r.Failure? ==> r.error < |lines|
  {
    if |lines| == 0 then Success([])
    else
      var init := ParseUids(lines[..|lines| - 1]);
      if init.Failure? then init
      else match IntOf(Strip(lines[|lines| - 1]))
        case None => Failure(|lines| - 1)
        case Some(uid) => Success(init.value + [uid])
  }

  /** `uid2ind` after `uid2ind[0] = 0` and `uid2ind[uid] = ind` for the listed uids in order. */
  function UidIndex(uids: seq<int>): map<int, nat>
  {
    if |uids| == 0 then map[0 := 0] else UidIndex(uids[..|uids| - 1])[uids[|uids| - 1] := |uids| - 1]
  }

  /** `ind2uid` after `ind2uid[0] = 0` and `ind2uid[ind] = uid` for the listed uids in order. */
  function IndexUid(uids: seq<int>): map<nat, int>
  {
    if |uids| == 0 then map[0 := 0] else IndexUid(uids[..|uids| - 1])[|uids| - 1 := uids[|uids| - 1]]
  }

  /** `ind2uid[i]` is the `i`-th listed uid; index 0 maps to uid 0 only when no uid is listed. */
  lemma {:induction false} IndexUidValues(uids: seq<int>)
    ensures forall i: nat :: i in IndexUid(uids) <==> i == 0 || i < |uids|
    ensures forall i :: 0 <= i < |uids| ==> IndexUid(uids)[i] == uids[i]
    ensures |uids| == 0 ==> IndexUid(uids)[0] == 0
  {
    if |uids| > 0 {
      var init := uids[..|uids| - 1];
      IndexUidValues(init);
      assert forall i :: 0 <= i < |init| ==> init[i] == uids[i];
      var m := IndexUid(init);
      assert IndexUid(uids) == m[|uids| - 1 := uids[|uids| - 1]];
      forall i: nat
        ensures i in IndexUid(uids) <==> i == 0 || i < |uids|
      {
        assert i in IndexUid(uids) <==> i in m || i == |uids| - 1;
      }
    }
  }

  /**
   * `uid2ind` knows 0 and the listed uids; a listed uid maps to the last line that lists it,
   * and 0, when it is not listed, maps to 0.
   */
  lemma {:induction false} UidIndexValues(uids: seq<int>)
    ensures forall u :: u in UidIndex(uids) <==> u == 0 || u in uids
    ensures forall u :: u in uids ==>
      && UidIndex(uids)[u] < |uids| && uids[UidIndex(uids)[u]] == u
      && forall j :: UidIndex(uids)[u] < j < |uids| ==> uids[j] != u
    ensures 0 !in uids ==> UidIndex(uids)[0] == 0
  {
    if |uids| > 0 {
      var init := uids[..|uids| - 1];
      var last := uids[|uids| - 1];
      UidIndexValues(init);
      assert uids == init + [last];
      forall u | u in uids && u != last
        ensures u in init
      {
      }
    }
  }

  /**
   * With distinct uids the two maps are inverse on the listed users: `ind2uid[uid2ind[u]] == u`
   * and `uid2ind[ind2uid[i]] == i`.
   */
  lemma UidRoundTrip(uids: seq<int>)
    requires Distinct(uids)
    ensures forall u :: u in uids ==>
      && u in UidIndex(uids) && UidIndex(uids)[u] in IndexUid(uids)
      && IndexUid(uids)[UidIndex(uids)[u]] == u
    ensures forall i :: 0 <= i < |uids| ==> uids[i] in UidIndex(uids) && UidIndex(uids)[uids[i]] == i
  {
    UidIndexValues(uids);
    IndexUidValues(uids);
    forall i | 0 <= i < |uids|
      ensures UidIndex(uids)[uids[i]] == i
    {
      var j := UidIndex(uids)[uids[i]];
      assert uids[j] == uids[i];
    }
  }

  /**
   * The placeholder `uid2ind[0] = 0` shares index 0 with the first listed user: when 0 is not
   * a uid, `index2uid(uid2index(0))` is that user, not 0.
   */
  lemma ZeroShared(uids: seq<int>)
    requires |uids| > 0 && 0 !in uids
    ensures 0 in UidIndex(uids) && UidIndex(uids)[0] in IndexUid(uids)
    ensures IndexUid(uids)[UidIndex(uids)[0]] == uids[0] != 0
  {
    UidIndexValues(uids);
    IndexUidValues(uids);
  }

  /** Why an elementwise lookup raises. */
  datatype LookupError<K> =
    | MissingKey(key: K)  // `KeyError` from the dictionary
    | NoInput             // `np.vectorize` cannot infer an output type from an empty array

  /** `np.vectorize(lambda x: m[x])(vec)`: the first missing key raises. */
  function LookupAll<K, V>(m: map<K, V>, vec: seq<K>): (r: Result<seq<V>, LookupError<K>>)
    ensures r.Success? ==> |r.value| == |vec| && forall k :: 0 <= k < |vec| ==> vec[k] in m && r.value[k] == m[vec[k]]
    ensures r.Failure? <==> |vec| == 0 || exists k :: 0 <= k < |vec| && vec[k] !in m
  {
    if |vec| == 0 then Failure(NoInput) else LookupEach(m, vec)
  }

  function LookupEach<K, V>(m: map<K, V>, vec: seq<K>): (r: Result<seq<V>, LookupError<K>>)
    ensures r.Success? ==> |r.value| == |vec| && forall k :: 0 <= k < |vec| ==> vec[k] in m && r.value[k] == m[vec[k]]
    ensures r.Failure? <==> exists k :: 0 <= k < |vec| && vec[k] !in m
  {
    if |vec| == 0 then Success([])
    else if vec[0] !in m then Failure(MissingKey(vec[0]))
    else
      var rest := LookupEach(m, vec[1..]);
      if rest.Failure? then rest
      else
        assert forall k :: 1 <= k < |vec| ==> vec[k] == vec[1..][k - 1];
        Success([m[vec[0]]] + rest.value)
  }

  /** `index2uid(uid2index(vec)) == vec` for a non-empty vector of listed, distinct users. */
  lemma LookupRoundTrip(uids: seq<int>, vec: seq<int>)
    requires Distinct(uids) && |vec| > 0
    requires forall k :: 0 <= k < |vec| ==> vec[k] in uids
    ensures LookupAll(UidIndex(uids), vec).Success?
    ensures LookupAll(IndexUid(uids), LookupAll(UidIndex(uids), vec).value) == Success(vec)
  {
    UidRoundTrip(uids);
    UidIndexValues(uids);
    var ind := LookupAll(UidIndex(uids), vec);
    assert ind.Success?;
    var back := LookupAll(IndexUid(uids), ind.value);
    assert back.Success?;
    assert back.value == vec;
  }

  // ---------------------------------------------------------------------------------------
  // The loader
  // ---------------------------------------------------------------------------------------

  class DataLoader {
    var trainData: seq<seq<string>>
    var count: seq<(string, nat)>
    var sampleTable: seq<string>
    var uid2ind: map<int, nat>
    var ind2uid: map<nat, int>
    var userCount: nat
    var process: bool
    /** The module-level `data_index` cursor. */
    var dataIndex: nat

    /** The cursor is on a walk of the corpus, or at 0 for an empty corpus. */
    ghost predicate Valid()
      reads this
    {
      dataIndex < |trainData| || dataIndex == 0
    }

    /**
     * `__init__` up to the user index: the corpus is counted and the sample table assembled
     * from the multiplicity `mult(i)` of the `i`-th counted token.
     */
    constructor (data: seq<seq<string>>, mult: nat -> nat)
      ensures Valid() && trainData == data && dataIndex == 0 && process
      ensures count == Frequencies(data)
      ensures sampleTable == Table(count, seq(|count|, i requires 0 <= i => mult(i)), |count|)
      ensures uid2ind == map[] && ind2uid == map[] && userCount == 0
    {
      trainData := data;
      var counted := CountDataset(data);
      count := counted;
      var table := AssembleTable(counted, seq(|counted|, i requires 0 <= i => mult(i)));
      sampleTable := table;
      uid2ind, ind2uid := map[], map[];
      userCount := 0;
      process := true;
      dataIndex := 0;
    }

    /**
     * `__create_uid_index` over the lines of the user file. On a line that is no integer it
     * raises, returned here as that line's index, after the maps took the lines before it.
     */
    method CreateUidIndex(lines: seq<string>) returns (r: Result<nat, nat>)
      modifies this
      ensures trainData == old(trainData) && count == old(count) && sampleTable == old(sampleTable)
      ensures process == old(process) && dataIndex == old(dataIndex) && userCount == old(userCount)
      ensures ParseUids(lines).Success? ==>
        && r == Success(|lines|)
        && uid2ind == old(uid2ind) + UidIndex(ParseUids(lines).value)
        && ind2uid == old(ind2uid) + IndexUid(ParseUids(lines).value)
      ensures ParseUids(lines).Failure? ==>
        && r == Failure(ParseUids(lines).error)
        && ParseUids(lines[..ParseUids(lines).error]).Success?
        && uid2ind == old(uid2ind) + UidIndex(ParseUids(lines[..ParseUids(lines).error]).value)
        && ind2uid == old(ind2uid) + IndexUid(ParseUids(lines[..ParseUids(lines).error]).value)
    {
      uid2ind, ind2uid, r := IndexUsers(lines, uid2ind, ind2uid);
    }

    /** `uid2index(vec)`. */
    function Uid2Index(vec: seq<int>): (r: Result<seq<nat>, LookupError<int>>)
      reads this
      ensures r.Success? ==> |r.value| == |vec| && forall k :: 0 <= k < |vec| ==> vec[k] in uid2ind && r.value[k] == uid2ind[vec[k]]
      ensures r.Failure? <==> |vec| == 0 || exists k :: 0 <= k < |vec| && vec[k] !in uid2ind
    {
      LookupAll(uid2ind, vec)
    }

    /** `index2uid(vec)`. */
    function Index2Uid(vec: seq<nat>): (r: Result<seq<int>, LookupError<nat>>)
      reads this
      ensures r.Success? ==> |r.value| == |vec| && forall k :: 0 <= k < |vec| ==> vec[k] in ind2uid && r.value[k] == ind2uid[vec[k]]
      ensures r.Failure? <==> |vec| == 0 || exists k :: 0 <= k < |vec| && vec[k] !in ind2uid
    {
      LookupAll(ind2uid, vec)
    }

    /** `__slide_through(ind, W)`: the pairs of walk `ind`, position by position. */
    method SlideThrough(ind: nat, w: nat) returns (pairs: seq<(string, string)>)
      requires ind < |trainData|
      ensures pairs == SlidePairs(trainData[ind], w, |trainData[ind]|)
    {
      var metaPath := trainData[ind];
      pairs := [];
      for pos := 0 to |metaPath|
        invariant pairs == SlidePairs(metaPath, w, pos)
      {
        var lcontext := if pos - w >= 0 then metaPath[pos - w..pos] else metaPath[..pos];
        var rcontext := [];
        if pos + 1 < |metaPath| {
          rcontext := if pos + w < |metaPath| then (if w >= 1 then metaPath[pos + 1..pos + w] else [])
                      else metaPath[pos + 1..];
        }
        assert lcontext == LeftContext(metaPath, pos, w) && rcontext == RightContext(metaPath, pos, w);
        PairsAtContext(metaPath, pos, w);
        var context := lcontext + rcontext;
        pairs := pairs + seq(|context|, k requires 0 <= k < |context| => (metaPath[pos], context[k]));
      }
    }

    /**
     * `generate_batch(W, batch_size, neg_ratio)`, with the random draws of the negatives given
     * as `negPick`. The cursor moves past every walk whose pairs are kept; on the last walk
     * the loop clears `process` and breaks, so that walk is never used.
     */
    method GenerateBatch(w: nat, batchSize: int, negRatio: nat, negPick: nat -> nat) returns (r: Result<Batch, BatchError>)
      requires Valid()
      modifies this
      ensures Valid()
      ensures trainData == old(trainData) && count == old(count) && sampleTable == old(sampleTable)
      ensures uid2ind == old(uid2ind) && ind2uid == old(ind2uid) && userCount == old(userCount)
      ensures dataIndex == old(dataIndex) + Kept(|trainData|, old(dataIndex), batchSize)
      ensures process == (old(process) && !EndReached(|trainData|, old(dataIndex), batchSize))
      ensures var spec := BatchColumns(trainData, old(dataIndex), batchSize, w, negRatio, sampleTable, negPick);
        && (r.Success? <==> spec.Success?)
        && (r.Failure? ==> r.error == spec.error)
        && (r.Success? ==> Encodes(r.value.upos, spec.value.u) && Encodes(r.value.vpos, spec.value.v)
                           && Encodes(r.value.npos, spec.value.n))
    {
      var pairsList := CollectPairs(w, batchSize);
      r := SeparatePairs(pairsList, w, negRatio, sampleTable, negPick);
    }

    /**
     * The loop of `generate_batch`: the pairs of the walks from the cursor on, at most
     * `batch_size` of them, stopping before the last walk of the data.
     */
    method CollectPairs(w: nat, batchSize: int) returns (pairsList: seq<(string, string)>)
      requires Valid()
      modifies this
      ensures Valid()
      ensures trainData == old(trainData) && count == old(count) && sampleTable == old(sampleTable)
      ensures uid2ind == old(uid2ind) && ind2uid == old(ind2uid) && userCount == old(userCount)
      ensures dataIndex == old(dataIndex) + Kept(|trainData|, old(dataIndex), batchSize)
      ensures process == (old(process) && !EndReached(|trainData|, old(dataIndex), batchSize))
      ensures pairsList == BatchPairs(trainData, old(dataIndex), Kept(|trainData|, old(dataIndex), batchSize), w)
    {
      var data, start, ended := trainData, dataIndex, false;
      var batch := if batchSize + start < |data| then batchSize else |data| - start;
      pairsList := [];
      var i := 0;
      while i < batch && !ended
        invariant unchanged(this)
        invariant 0 <= i && start + i <= |data|
        invariant i <= Kept(|data|, start, batchSize)
        invariant ended ==> i == Kept(|data|, start, batchSize) && EndReached(|data|, start, batchSize)
        invariant !ended ==> i == 0 || start + i < |data|
        invariant pairsList == BatchPairs(data, start, i, w)
        decreases batch - i, !ended
      {
        var pairs := SlideThrough(start + i, w);
        if start + i + 1 < |data| {
          assert BatchPairs(data, start, i + 1, w) == pairsList + pairs;
          pairsList := pairsList + pairs;
          i := i + 1;
        } else {
          ended := true;
        }
      }
      dataIndex := start + i;
      if ended {
        process := false;
      }
    }
  }

  /**
   * The end of `generate_batch`: unpack the pairs, separate both sides, draw the negatives
   * and separate them.
   */
  method SeparatePairs(pairsList: seq<(string, string)>, w: nat, negRatio: nat, table: seq<string>, negPick: nat -> nat)
    returns (r: Result<Batch, BatchError>)
    ensures var spec := PairColumns(pairsList, w, negRatio, table, negPick);
      && (r.Success? <==> spec.Success?)
      && (r.Failure? ==> r.error == spec.error)
      && (r.Success? ==> Encodes(r.value.upos, spec.value.u) && Encodes(r.value.vpos, spec.value.v)
                         && Encodes(r.value.npos, spec.value.n))
  {
    if |pairsList| == 0 {
      return Failure(NothingToUnpack);
    }
    var upos := SeparateEntity(Firsts(pairsList));
    if upos.Failure? {
      return Failure(BadToken(upos.error));
    }
    var vpos := SeparateEntity(Seconds(pairsList));
    if vpos.Failure? {
      return Failure(BadToken(vpos.error));
    }
    var negSamples := Negatives(table, NegShape(|pairsList|, w, negRatio), negPick);
    if negSamples.Failure? {
      return Failure(negSamples.error);
    }
    var npos := SeparateEntity(negSamples.value);
    if npos.Failure? {
      return Failure(BadToken(npos.error));
    }
    return Success(Batch(upos.value, vpos.value, npos.value));
  }

  /**
   * One line of `__create_uid_index`: `uid = int(line.strip())`, then `uid2ind[uid] = ind`
   * and `ind2uid[ind] = uid`; the maps are left as they are when the line is no integer.
   */
  method AddUser(u2i: map<int, nat>, i2u: map<nat, int>, line: string, ind: nat,
                 ghost base1: map<int, nat>, ghost base2: map<nat, int>, ghost uids: seq<int>)
    returns (u2i': map<int, nat>, i2u': map<nat, int>, uid: Option<int>)
    requires |uids| == ind && u2i == base1 + UidIndex(uids) && i2u == base2 + IndexUid(uids)
    ensures uid == IntOf(Strip(line))
    ensures uid.None? ==> u2i' == u2i && i2u' == i2u
    ensures uid.Some? ==> u2i' == base1 + UidIndex(uids + [uid.value]) && i2u' == base2 + IndexUid(uids + [uid.value])
  {
    uid := IntOf(Strip(line));
    if uid.None? {
      return u2i, i2u, uid;
    }
    UnionUpdate(base1, UidIndex(uids), uid.value, ind);
    UnionUpdate(base2, IndexUid(uids), ind, uid.value);
    MapsSnoc(uids, uid.value);
    u2i', i2u' := u2i[uid.value := ind], i2u[ind := uid.value];
  }

  /**
   * The loop of `__create_uid_index` over the lines of the user file, from the maps `u2i0`
   * and `i2u0`: the maps after every line, or after the lines before the first one that is
   * no integer, whose index is then the error.
   */
  method IndexUsers(lines: seq<string>, u2i0: map<int, nat>, i2u0: map<nat, int>)
    returns (u2i: map<int, nat>, i2u: map<nat, int>, r: Result<nat, nat>)
    ensures ParseUids(lines).Success? ==>
      && r == Success(|lines|)
      && u2i == u2i0 + UidIndex(ParseUids(lines).value)
      && i2u == i2u0 + IndexUid(ParseUids(lines).value)
    ensures ParseUids(lines).Failure? ==>
      && r == Failure(ParseUids(lines).error)
      && ParseUids(lines[..ParseUids(lines).error]).Success?
      && u2i == u2i0 + UidIndex(ParseUids(lines[..ParseUids(lines).error]).value)
      && i2u == i2u0 + IndexUid(ParseUids(lines[..ParseUids(lines).error]).value)
  {
    u2i, i2u := u2i0[0 := 0], i2u0[0 := 0];
    ghost var uids: seq<int> := [];
    assert u2i == u2i0 + UidIndex(uids) && i2u == i2u0 + IndexUid(uids);
    for ind := 0 to |lines|
      invariant |uids| == ind && ParseUids(lines[..ind]) == Success(uids)
      invariant u2i == u2i0 + UidIndex(uids) && i2u == i2u0 + IndexUid(uids)
    {
      var uid;
      u2i, i2u, uid := AddUser(u2i, i2u, lines[ind], ind, u2i0, i2u0, uids);
      ParseUidsSnoc(lines, ind);
      if uid.None? {
        ParseUidsPrefixFailure(lines, ind + 1);
        return u2i, i2u, Failure(ind);
      }
      uids := uids + [uid.value];
    }
    assert lines[..|lines|] == lines;
    r := Success(|lines|);
  }

  /** Parsing one more line: its index when it is no integer, or its uid appended. */
  lemma ParseUidsSnoc(lines: seq<string>, k: nat)
    requires k < |lines| && ParseUids(lines[..k]).Success?
    ensures ParseUids(lines[..k + 1]) == match IntOf(Strip(lines[k]))
      case None => Failure(k)
      case Some(uid) => Success(ParseUids(lines[..k]).value + [uid])
  {
    assert lines[..k + 1][..k] == lines[..k];
  }

  /** Listing one more uid sets one entry in each map. */
  lemma MapsSnoc(uids: seq<int>, uid: int)
    ensures UidIndex(uids + [uid]) == UidIndex(uids)[uid := |uids|]
    ensures IndexUid(uids + [uid]) == IndexUid(uids)[|uids| := uid]
  {
    assert (uids + [uid])[..|uids|] == uids;
  }

  /** Setting a key after a merge is setting it in the right-hand map. */
  lemma UnionUpdate<K, V>(m: map<K, V>, a: map<K, V>, k: K, v: V)
    ensures (m + a)[k := v] == m + a[k := v]
  {
  }

  /** Once the uids of a prefix fail to parse, so do those of the whole file, at the same line. */
  lemma {:induction false} ParseUidsPrefixFailure(lines: seq<string>, k: nat)
    requires k <= |lines| && ParseUids(lines[..k]).Failure?
    ensures ParseUids(lines) == ParseUids(lines[..k])
    decreases |lines| - k
  {
    if k < |lines| {
      var init := lines[..|lines| - 1];
      assert init[..k] == lines[..k];
      ParseUidsPrefixFailure(init, k);
    } else {
      assert lines[..k] == lines;
    }
  }

  /**
   * `__init__` as a whole: the loader, or the index of the first user line that is no
   * integer. The user count is the number of lines.
   */
  method Load(data: seq<seq<string>>, mult: nat -> nat, userLines: seq<string>) returns (r: Result<DataLoader, nat>)
    ensures r.Success? <==> ParseUids(userLines).Success?
    ensures r.Failure? ==> r.error == ParseUids(userLines).error
    ensures r.Success? ==>
      var loader, uids := r.value, ParseUids(userLines).value;
      && fresh(loader) && loader.Valid() && loader.trainData == data && loader.dataIndex == 0 && loader.process
      && loader.count == Frequencies(data)
      && loader.sampleTable == Table(loader.count, seq(|loader.count|, i requires 0 <= i => mult(i)), |loader.count|)
      && loader.uid2ind == UidIndex(uids) && loader.ind2uid == IndexUid(uids)
      && loader.userCount == |userLines|
  {
    var loader := new DataLoader(data, mult);
    var users := loader.CreateUidIndex(userLines);
    if users.Failure? {
      return Failure(users.error);
    }
    loader.userCount := users.value;
    return Success(loader);
  }
}
