/**
 * `__separate_entity`: a list of tokens `"<T>_<id>"` becomes a 3 x n matrix whose column `j`
 * holds the id of token `j` in the row of its type (A -> 0, Q -> 1, R -> 2), zeros elsewhere.
 */
module Entities {
  import opened Outcomes
  import opened Text

  /** The exception the Python code raises on a malformed token. */
  datatype SepError =
    | UnknownType(prefix: string)  // `KeyError` from `D[split[0]]`
    | MissingId(item: string)      // `IndexError` from `split[1]`
    | BadId(text: string)          // `ValueError` from `int(split[1])`

  /** `D = {"A": 0, "Q": 1, "R": 2}`: the row of a one-letter type name. */
  function Row(prefix: string): (r: Option<nat>)
    ensures r.Some? ==> r.value < 3
  {
    if |prefix| != 1 then None
    else if prefix[0] == 'A' then Some(0)
    else if prefix[0] == 'Q' then Some(1)
    else if prefix[0] == 'R' then Some(2)
    else None
  }

  /** The type letter of row `row`: the inverse of `D`. */
  function TypeOf(row: nat): (t: string)
    requires row < 3
    ensures Row(t) == Some(row) && '_' !in t
  {
    [if row == 0 then 'A' else if row == 1 then 'Q' else 'R']
  }

  /**
   * `ent_type, ent_id = D[split[0]], int(split[1])` with `split = item.split("_")`, in
   * Python's left-to-right order: the type is looked up before the id is read.
   */
  function Decode(item: string): Result<(nat, int), SepError>
  {
    var split := Split(item, '_');
    match Row(split[0])
    case None => Failure(UnknownType(split[0]))
    case Some(row) =>
      if |split| < 2 then Failure(MissingId(item))
      else match IntOf(split[1])
        case None => Failure(BadId(split[1]))
        case Some(id) => Success((row, id))
  }

  /** How the walk generator names a node: its type letter, `_`, and its id. */
  function Encode(row: nat, id: int): string
    requires row < 3
  {
    TypeOf(row) + "_" + IntToString(id)
  }

  /** Every node name the generator writes decodes back to its type row and id. */
  lemma DecodeEncode(row: nat, id: int)
    requires row < 3
    ensures Decode(Encode(row, id)) == Success((row, id))
  {
    var t, digits := TypeOf(row), IntToString(id);
    IntToStringChars(id);
    assert Encode(row, id) == Join([t, digits], '_');
    SplitJoin([t, digits], '_');
    IntOfRoundTrip(id);
  }

  /** Only the first two `_`-separated fields matter: `"A_5_x"` reads as `(0, 5)`. */
  lemma DecodeIgnoresTail(row: nat, id: int, tail: string)
    requires row < 3
    ensures Decode(Encode(row, id) + "_" + tail) == Success((row, id))
  {
    var t, digits := TypeOf(row), IntToString(id);
    IntToStringChars(id);
    var rest := digits + ("_" + tail);
    assert Encode(row, id) + "_" + tail == t + ("_" + rest);
    SplitPrefix(t, "_" + rest, '_');
    assert ("_" + rest)[1..] == rest;
    assert Split("_" + rest, '_') == [""] + Split(rest, '_');
    SplitPrefix(digits, "_" + tail, '_');
    assert ("_" + tail)[1..] == tail;
    assert Split("_" + tail, '_')[0] == "";
    var split := Split(Encode(row, id) + "_" + tail, '_');
    assert split[0] == t && split[1] == digits;
    IntOfRoundTrip(id);
  }

  /** The tokens decoded in order; the first malformed one decides the error. */
  function DecodeAll(items: seq<string>): (r: Result<seq<(nat, int)>, SepError>)
    ensures r.Success? ==> |r.value| == |items|
  {
    if |items| == 0 then Success([])
    else
      var init := DecodeAll(items[..|items| - 1]);
      if init.Failure? then init
      else match Decode(items[|items| - 1])
        case Failure(e) => Failure(e)
        case Success(d) => Success(init.value + [d])
  }

  /** The position of the first token that does not decode, or `|items|` when all do. */
  function FirstBad(items: seq<string>): (k: nat)
    ensures k <= |items|
    ensures forall j :: 0 <= j < k ==> Decode(items[j]).Success?
    ensures k < |items| ==> Decode(items[k]).Failure?
  {
    if |items| == 0 then 0
    else if Decode(items[0]).Failure? then 0
    else 1 + FirstBad(items[1..])
  }

  /**
   * `DecodeAll` succeeds exactly when every token decodes, and then holds each token's
   * decoding, in order.
   */
  lemma {:induction false} DecodeAllSuccess(items: seq<string>)
    ensures DecodeAll(items).Success? <==> forall j :: 0 <= j < |items| ==> Decode(items[j]).Success?
    ensures DecodeAll(items).Success? ==>
      forall j :: 0 <= j < |items| ==> DecodeAll(items).value[j] == Decode(items[j]).value
  {
    if |items| > 0 {
      var init := items[..|items| - 1];
      DecodeAllSuccess(init);
      assert forall j :: 0 <= j < |init| ==> init[j] == items[j];
    }
  }

  /** Otherwise its error is that of the first token that does not decode. */
  lemma DecodeAllFailure(items: seq<string>)
    requires DecodeAll(items).Failure?
    ensures FirstBad(items) < |items|
    ensures DecodeAll(items).error == Decode(items[FirstBad(items)]).error
  {
    var k := FirstBad(items);
    if k == |items| {
      DecodeAllSuccess(items);
      assert false;
    }
    var before := items[..k];
    assert forall j :: 0 <= j < k ==> before[j] == items[j];
    DecodeAllSuccess(before);
    DecodeAllSnoc(items, k);
    DecodeAllPrefixFailure(items, k + 1);
  }

  /** Once a prefix fails to decode, the whole list fails with the same error. */
  lemma {:induction false} DecodeAllPrefixFailure(items: seq<string>, k: nat)
    requires k <= |items| && DecodeAll(items[..k]).Failure?
    ensures DecodeAll(items) == DecodeAll(items[..k])
    decreases |items| - k
  {
    if k < |items| {
      var init := items[..|items| - 1];
      assert init[..k] == items[..k];
      DecodeAllPrefixFailure(init, k);
    } else {
      assert items[..k] == items;
    }
  }

  /** Decoding one more token: the error of that token, or its decoding appended. */
  lemma DecodeAllSnoc(items: seq<string>, k: nat)
    requires k < |items| && DecodeAll(items[..k]).Success?
    ensures DecodeAll(items[..k + 1]) == match Decode(items[k])
      case Failure(e) => Failure(e)
      case Success(d) => Success(DecodeAll(items[..k]).value + [d])
  {
    assert items[..k + 1][..k] == items[..k];
  }

  /** Column `j` of `m` holds `d[j].1` in row `d[j].0` and zero in the other rows. */
  ghost predicate Encodes(m: array2<int>, d: seq<(nat, int)>)
    reads m
  {
    && m.Length0 == 3 && m.Length1 == |d|
    && forall r, j :: 0 <= r < 3 && 0 <= j < |d| ==> m[r, j] == if r == d[j].0 then d[j].1 else 0
  }

  /**
   * `__separate_entity(items)`: a zero 3 x n matrix filled column by column; the first
   * malformed token raises, and then no matrix is returned.
   */
  method SeparateEntity(items: seq<string>) returns (r: Result<array2<int>, SepError>)
    ensures r.Success? <==> DecodeAll(items).Success?
    ensures r.Failure? ==> r.error == DecodeAll(items).error
    ensures r.Success? ==> fresh(r.value) && Encodes(r.value, DecodeAll(items).value)
  {
    var sep := new int[3, |items|]((row, j) => 0);
    ghost var decoded: seq<(nat, int)> := [];
    var index := 0;
    while index < |items|
      invariant 0 <= index <= |items| && |decoded| == index
      invariant DecodeAll(items[..index]) == Success(decoded)
      invariant forall row, j :: 0 <= row < 3 && 0 <= j < |items| ==>
        sep[row, j] == if j < index && row == decoded[j].0 then decoded[j].1 else 0
    {
      var entity := Decode(items[index]);
      DecodeAllSnoc(items, index);
      if entity.Failure? {
        DecodeAllPrefixFailure(items, index + 1);
        return Failure(entity.error);
      }
      var (entType, entId) := entity.value;
      sep[entType, index] := entId;
      decoded := decoded + [entity.value];
      index := index + 1;
    }
    assert items[..index] == items;
    return Success(sep);
  }

  /**
   * The matrix gives each token back: a nonzero column has exactly one nonzero row, naming
   * the type, whose value is the id. An id of 0 leaves the column all zero and its type is lost.
   */
  lemma ColumnRecovers(m: array2<int>, d: seq<(nat, int)>, j: nat)
    requires Encodes(m, d) && j < |d| && d[j].0 < 3
    ensures d[j].1 != 0 ==> forall row :: 0 <= row < 3 ==> (m[row, j] != 0 <==> row == d[j].0)
    ensures d[j].1 != 0 ==> m[d[j].0, j] == d[j].1
    ensures d[j].1 == 0 ==> forall row :: 0 <= row < 3 ==> m[row, j] == 0
  {
  }
}
