/**
 * `extract_question_best_answerer`: for each record of the question/answer map, the user who
 * gave the question's best answer. The answer posts give two maps, answer id -> score
 * (`aid_score`) and answer id -> owner (`accaid_uaid`). A record names its best answer
 * directly when it has an accepted one, and otherwise by the highest score among its listed
 * answers. A record whose lookups raise is skipped.
 *
 * As written, the test for an accepted answer looks for the key `"AcceptedAnswerID"`, which
 * no record has (records spell it `"AcceptedAnswerId"`), so the highest-score fallback always
 * runs; and the scores are the stored strings, so `max` compares them as text. Both are
 * modelled (`BestAnswererAsWritten`), together with the evidently intended rule
 * (`BestAnswerer`), which `ExtractQuestionBestAnswerer` uses.
 */
module BestAnswer {
  import opened Outcomes
  import opened Text
  import QA

  /** An answer post as this pass reads it: `Id`, `Score` (`None` when absent), `OwnerUserId`. */
  datatype Post = Post(id: string, score: Option<string>, owner: string)

  // ---------------------------------------------------------------------------------------
  // Orders and Python's `max` / `index`

  /** Python's `a < b` on strings: code point by code point, a proper prefix first. */
  predicate StrLess(a: string, b: string)
    decreases |a|
  {
    if |a| == 0 then |b| > 0
    else if |b| == 0 then false
    else if a[0] != b[0] then a[0] < b[0]
    else StrLess(a[1..], b[1..])
  }

  /** `a < b` on integers. */
  predicate IntLess(a: int, b: int)
  {
    a < b
  }

  /** `less` is a strict total order. */
  ghost predicate StrictTotal<T(!new)>(less: (T, T) -> bool)
  {
    && (forall a :: !less(a, a))
    && (forall a, b :: a == b || less(a, b) || less(b, a))
    && (forall a, b, c :: less(a, b) && less(b, c) ==> less(a, c))
  }

  lemma {:induction false} StrLessIrreflexive(a: string)
    ensures !StrLess(a, a)
    decreases |a|
  {
    if |a| > 0 {
      StrLessIrreflexive(a[1..]);
    }
  }

  lemma {:induction false} StrLessTotal(a: string, b: string)
    ensures a == b || StrLess(a, b) || StrLess(b, a)
    decreases |a|
  {
    if |a| > 0 && |b| > 0 && a[0] == b[0] {
      StrLessTotal(a[1..], b[1..]);
      if a[1..] == b[1..] {
        assert a == [a[0]] + a[1..] && b == [b[0]] + b[1..];
      }
    }
  }

  lemma {:induction false} StrLessTransitive(a: string, b: string, c: string)
    requires StrLess(a, b) && StrLess(b, c)
    ensures StrLess(a, c)
    decreases |a|
  {
    if |a| > 0 && a[0] == b[0] && b[0] == c[0] {
      StrLessTransitive(a[1..], b[1..], c[1..]);
    }
  }

  lemma StrLessAsymmetric(a: string, b: string)
    requires StrLess(a, b)
    ensures !StrLess(b, a)
  {
    if StrLess(b, a) {
      StrLessTransitive(a, b, a);
      StrLessIrreflexive(a);
    }
  }

  /** Python's string comparison is a strict total order. */
  lemma StrLessOrder()
    ensures StrictTotal(StrLess)
  {
    forall a: string
      ensures !StrLess(a, a)
    {
      StrLessIrreflexive(a);
    }
    forall a: string, b: string
      ensures a == b || StrLess(a, b) || StrLess(b, a)
    {
      StrLessTotal(a, b);
    }
    forall a: string, b: string, c: string | StrLess(a, b) && StrLess(b, c)
      ensures StrLess(a, c)
    {
      StrLessTransitive(a, b, c);
    }
  }

  /** Integer comparison is a strict total order. */
  lemma IntLessOrder()
    ensures StrictTotal(IntLess)
  {
  }

  /** `max(xs)`: left to right, an item replaces the running maximum only when it is greater. */
  function Max<T>(xs: seq<T>, less: (T, T) -> bool): (m: T)
    requires |xs| > 0
    ensures m in xs
  {
    if |xs| == 1 then xs[0]
    else
      var m := Max(xs[..|xs| - 1], less);
      if less(m, xs[|xs| - 1]) then xs[|xs| - 1] else m
  }

  /** `xs.index(v)`: the first position holding `v`. */
  function IndexOf<T(==)>(xs: seq<T>, v: T): (i: nat)
    requires v in xs
    ensures i < |xs| && xs[i] == v
    ensures forall j :: 0 <= j < i ==> xs[j] != v
  {
    if xs[0] == v then 0 else 1 + IndexOf(xs[1..], v)
  }

  /** Under a strict total order no item is greater than `max(xs)`. */
  lemma {:induction false} MaxGreatest<T(!new)>(xs: seq<T>, less: (T, T) -> bool)
    requires |xs| > 0 && StrictTotal(less)
    ensures forall j :: 0 <= j < |xs| ==> !less(Max(xs, less), xs[j])
  {
    if |xs| > 1 {
      var init := xs[..|xs| - 1];
      MaxGreatest(init, less);
      assert forall j :: 0 <= j < |init| ==> init[j] == xs[j];
    }
  }

  /**
   * `xs.index(max(xs))` is the first greatest item: nothing is greater than it and every
   * earlier item is smaller.
   */
  lemma FirstGreatest<T(!new)>(xs: seq<T>, less: (T, T) -> bool)
    requires |xs| > 0 && StrictTotal(less)
    ensures var p := IndexOf(xs, Max(xs, less));
      && (forall j :: 0 <= j < |xs| ==> !less(xs[p], xs[j]))
      && (forall j :: 0 <= j < p ==> less(xs[j], xs[p]))
  {
    MaxGreatest(xs, less);
  }

  // ---------------------------------------------------------------------------------------
  // The answer maps

  /**
   * `aid_score` and `accaid_uaid` after the answer lines `posts`, in order: a later post
   * with the same id overwrites an earlier one, and both maps get every id.
   */
  function AnswerMaps(posts: seq<Post>): (r: (map<string, Option<string>>, map<string, string>))
    ensures r.0.Keys == r.1.Keys
  {
    if |posts| == 0 then (map[], map[])
    else
      var maps := AnswerMaps(posts[..|posts| - 1]);
      var p := posts[|posts| - 1];
      (maps.0[p.id := p.score], maps.1[p.id := p.owner])
  }

  /** The maps hold exactly the ids of the posts. */
  lemma {:induction false} AnswerMapsKeys(posts: seq<Post>, id: string)
    ensures id in AnswerMaps(posts).0 <==> exists i :: 0 <= i < |posts| && posts[i].id == id
  {
    if |posts| > 0 {
      var init := posts[..|posts| - 1];
      AnswerMapsKeys(init, id);
      if exists i :: 0 <= i < |init| && init[i].id == id {
        var i :| 0 <= i < |init| && init[i].id == id;
        assert posts[i].id == id;
      }
      if exists i :: 0 <= i < |posts| && posts[i].id == id {
        var i :| 0 <= i < |posts| && posts[i].id == id;
        if i < |init| {
          assert init[i].id == id;
        }
      }
    }
  }

  /** The last post with a given id decides its score and its owner. */
  lemma {:induction false} AnswerMapsLast(posts: seq<Post>, i: nat)
    requires i < |posts|
    requires forall j :: i < j < |posts| ==> posts[j].id != posts[i].id
    ensures posts[i].id in AnswerMaps(posts).0
    ensures AnswerMaps(posts).0[posts[i].id] == posts[i].score
    ensures AnswerMaps(posts).1[posts[i].id] == posts[i].owner
  {
    if i < |posts| - 1 {
      var init := posts[..|posts| - 1];
      AnswerMapsLast(init, i);
    }
  }

  /** The first loop: both maps filled post by post. */
  method BuildAnswerMaps(posts: seq<Post>) returns (aidScore: map<string, Option<string>>, accaidUaid: map<string, string>)
    ensures (aidScore, accaidUaid) == AnswerMaps(posts)
  {
    aidScore, accaidUaid := map[], map[];
    for i := 0 to |posts|
      invariant (aidScore, accaidUaid) == AnswerMaps(posts[..i])
    {
      assert posts[..i + 1][..i] == posts[..i];
      aidScore := aidScore[posts[i].id := posts[i].score];
      accaidUaid := accaidUaid[posts[i].id := posts[i].owner];
    }
    assert posts[..|posts|] == posts;
  }

  // ---------------------------------------------------------------------------------------
  // Choosing the best answer of one record

  /** `list(zip(*ans))[0]`: the answer ids of an `AnswerOwnerList`. */
  function AnswerIds(ans: seq<(string, string)>): (ids: seq<string>)
    ensures |ids| == |ans| && forall j :: 0 <= j < |ans| ==> ids[j] == ans[j].0
  {
    seq(|ans|, j requires 0 <= j < |ans| => ans[j].0)
  }

  /** Every answer has a post, so `aid_score[aid]` raises no `KeyError`. */
  predicate Known(ids: seq<string>, scores: map<string, Option<string>>)
  {
    forall j :: 0 <= j < |ids| ==> ids[j] in scores
  }

  /** Every answer has a score. */
  predicate Scored(ids: seq<string>, scores: map<string, Option<string>>)
  {
    forall j :: 0 <= j < |ids| ==> ids[j] in scores && scores[ids[j]].Some?
  }

  /** The stored score strings of the answers. */
  function ScoreTexts(ids: seq<string>, scores: map<string, Option<string>>): seq<string>
    requires Scored(ids, scores)
  {
    seq(|ids|, j requires 0 <= j < |ids| => scores[ids[j]].value)
  }

  /** Every answer has a score that reads as an integer, so `int(...)` raises no `ValueError`. */
  predicate Numeric(ids: seq<string>, scores: map<string, Option<string>>)
  {
    Scored(ids, scores) && forall j :: 0 <= j < |ids| ==> IntOf(scores[ids[j]].value).Some?
  }

  /** `int(aid_score[aid])`. */
  function ScoreOf(scores: map<string, Option<string>>, aid: string): int
    requires aid in scores && scores[aid].Some? && IntOf(scores[aid].value).Some?
  {
    IntOf(scores[aid].value).value
  }

  /** The scores of the answers as integers. */
  function ScoreValues(ids: seq<string>, scores: map<string, Option<string>>): seq<int>
    requires Numeric(ids, scores)
  {
    seq(|ids|, j requires 0 <= j < |ids| => ScoreOf(scores, ids[j]))
  }

  /**
   * The owner the code as written prints for record `e`, or `None` when the line raises and
   * is skipped. Only the fallback runs: an empty answer list raises `IndexError`, an answer
   * without a post `KeyError`; `max` over one score compares nothing, over several it raises
   * `TypeError` on a missing score and otherwise compares the score strings as text.
   */
  function BestAnswererAsWritten(e: QA.Entry, scores: map<string, Option<string>>, owners: map<string, string>): Option<string>
    requires scores.Keys == owners.Keys
  {
    var ids := AnswerIds(e.answers);
    if |ids| == 0 || !Known(ids, scores) then None
    else if |ids| == 1 then Some(owners[ids[0]])
    else if !Scored(ids, scores) then None
    else
      var texts := ScoreTexts(ids, scores);
      Some(owners[ids[IndexOf(texts, Max(texts, StrLess))]])
  }

  /**
   * The evidently intended rule: the owner of the accepted answer when the question has one;
   * otherwise the owner of the first answer with the highest score, read as an integer.
   * `None` when a lookup or a conversion raises and the record is skipped.
   */
  function BestAnswerer(e: QA.Entry, scores: map<string, Option<string>>, owners: map<string, string>): Option<string>
    requires scores.Keys == owners.Keys
  {
    if e.accepted != "" then
      if e.accepted in owners then Some(owners[e.accepted]) else None
    else
      var ids := AnswerIds(e.answers);
      if |ids| == 0 || !Numeric(ids, scores) then None
      else
        var values := ScoreValues(ids, scores);
        Some(owners[ids[IndexOf(values, Max(values, IntLess))]])
  }

  /**
   * As written, the chosen answer of a record with several scored answers is the first whose
   * score string is greatest as text.
   */
  lemma AsWrittenFirstGreatestText(e: QA.Entry, scores: map<string, Option<string>>, owners: map<string, string>)
    requires scores.Keys == owners.Keys
    requires |e.answers| >= 2 && Scored(AnswerIds(e.answers), scores)
    ensures exists i ::
              && 0 <= i < |e.answers|
              && BestAnswererAsWritten(e, scores, owners) == Some(owners[e.answers[i].0])
              && (forall j :: 0 <= j < |e.answers| ==> !StrLess(scores[e.answers[i].0].value, scores[e.answers[j].0].value))
              && (forall j :: 0 <= j < i ==> StrLess(scores[e.answers[j].0].value, scores[e.answers[i].0].value))
  {
    var ids := AnswerIds(e.answers);
    var texts := ScoreTexts(ids, scores);
    StrLessOrder();
    FirstGreatest(texts, StrLess);
    var i := IndexOf(texts, Max(texts, StrLess));
    assert forall j :: 0 <= j < |e.answers| ==> texts[j] == scores[e.answers[j].0].value;
    assert BestAnswererAsWritten(e, scores, owners) == Some(owners[e.answers[i].0]);
  }

  /** The chosen answer of a record with an accepted answer is the accepted one. */
  lemma AcceptedChosen(posts: seq<Post>, e: QA.Entry, i: nat)
    requires i < |posts| && e.accepted == posts[i].id != ""
    requires forall j :: i < j < |posts| ==> posts[j].id != posts[i].id
    ensures BestAnswerer(e, AnswerMaps(posts).0, AnswerMaps(posts).1) == Some(posts[i].owner)
  {
    AnswerMapsLast(posts, i);
  }

  /**
   * Without an accepted answer, the chosen answer is the first with the greatest integer
   * score.
   */
  lemma FallbackFirstGreatest(e: QA.Entry, scores: map<string, Option<string>>, owners: map<string, string>)
    requires scores.Keys == owners.Keys
    requires e.accepted == "" && |e.answers| > 0 && Numeric(AnswerIds(e.answers), scores)
    ensures exists i ::
              && 0 <= i < |e.answers|
              && BestAnswerer(e, scores, owners) == Some(owners[e.answers[i].0])
              && (forall j :: 0 <= j < |e.answers| ==>
                    ScoreOf(scores, e.answers[j].0) <= ScoreOf(scores, e.answers[i].0))
              && (forall j :: 0 <= j < i ==>
                    ScoreOf(scores, e.answers[j].0) < ScoreOf(scores, e.answers[i].0))
  {
    var ids := AnswerIds(e.answers);
    var values := ScoreValues(ids, scores);
    IntLessOrder();
    FirstGreatest(values, IntLess);
    var i := IndexOf(values, Max(values, IntLess));
    assert forall j :: 0 <= j < |e.answers| ==> values[j] == ScoreOf(scores, e.answers[j].0);
    forall j | 0 <= j < |e.answers|
      ensures ScoreOf(scores, e.answers[j].0) <= ScoreOf(scores, e.answers[i].0)
    {
      assert !IntLess(values[i], values[j]);
    }
    forall j | 0 <= j < i
      ensures ScoreOf(scores, e.answers[j].0) < ScoreOf(scores, e.answers[i].0)
    {
      assert IntLess(values[j], values[i]);
    }
    assert BestAnswerer(e, scores, owners) == Some(owners[e.answers[i].0]);
  }

  /** As written the accepted answer plays no part: the choice is the same without it. */
  lemma AsWrittenIgnoresAccepted(e: QA.Entry, scores: map<string, Option<string>>, owners: map<string, string>)
    requires scores.Keys == owners.Keys
    ensures BestAnswererAsWritten(e, scores, owners) == BestAnswererAsWritten(e.(accepted := ""), scores, owners)
  {
  }

  /**
   * A question whose accepted answer `a` scores lower, as text, than another listed answer
   * `b`: the code as written credits the owner of `b`, the intended rule the owner of `a`.
   */
  lemma AcceptedAnswerOverruled(e: QA.Entry, a: string, b: string, s: string, t: string, u: string, v: string)
    requires a != b && a != "" && e.accepted == a && e.answers == [(a, u), (b, v)] && StrLess(s, t)
    ensures BestAnswererAsWritten(e, map[a := Some(s), b := Some(t)], map[a := u, b := v]) == Some(v)
    ensures BestAnswerer(e, map[a := Some(s), b := Some(t)], map[a := u, b := v]) == Some(u)
  {
    var scores := map[a := Some(s), b := Some(t)];
    var ids := AnswerIds(e.answers);
    assert ids == [a, b];
    var texts := ScoreTexts(ids, scores);
    assert texts == [s, t];
    assert Max(texts, StrLess) == t;
  }

  /**
   * Two answers, `a` scored `s` and `b` scored `t`, where `s` is the greater as text but the
   * smaller as a number: the code as written credits the owner of `a`, the intended rule the
   * owner of `b`.
   */
  lemma TextScoresMisrank(e: QA.Entry, a: string, b: string, s: string, t: string, u: string, v: string)
    requires a != b && e.accepted == "" && e.answers == [(a, u), (b, v)]
    requires StrLess(t, s) && IntOf(s).Some? && IntOf(t).Some? && IntOf(s).value < IntOf(t).value
    ensures BestAnswererAsWritten(e, map[a := Some(s), b := Some(t)], map[a := u, b := v]) == Some(u)
    ensures BestAnswerer(e, map[a := Some(s), b := Some(t)], map[a := u, b := v]) == Some(v)
  {
    var scores := map[a := Some(s), b := Some(t)];
    var ids := AnswerIds(e.answers);
    assert ids == [a, b];
    assert Scored(ids, scores);
    var texts := ScoreTexts(ids, scores);
    assert texts == [s, t];
    StrLessAsymmetric(t, s);
    assert Max(texts, StrLess) == s && IndexOf(texts, s) == 0;
    assert Numeric(ids, scores);
    var values := ScoreValues(ids, scores);
    assert values == [IntOf(s).value, IntOf(t).value];
    assert Max(values, IntLess) == IntOf(t).value && IndexOf(values, IntOf(t).value) == 1;
  }

  /** Such scores exist: `"9"` is greater than `"10"` as text and smaller as a number. */
  lemma NineBeforeTen()
    ensures StrLess("10", "9") && IntOf("9") == Some(9) && IntOf("10") == Some(10)
  {
    IntOfRoundTrip(9);
    IntOfRoundTrip(10);
    assert IntToString(9) == "9" && IntToString(10) == "10";
  }

  // ---------------------------------------------------------------------------------------
  // The whole pass

  /** The lines `qid uaccid` written for the records, in order; a skipped record writes none. */
  function Lines(records: seq<QA.Entry>, scores: map<string, Option<string>>, owners: map<string, string>): (r: seq<(string, string)>)
    requires scores.Keys == owners.Keys
    ensures |r| <= |records|
  {
    if |records| == 0 then []
    else
      var init := Lines(records[..|records| - 1], scores, owners);
      var e := records[|records| - 1];
      match BestAnswerer(e, scores, owners)
      case None => init
      case Some(u) => init + [(e.questionId, u)]
  }

  /**
   * Every line names a record's question and its chosen answerer, and every record with a
   * chosen answerer has its line.
   */
  lemma {:induction false} LinesChosen(records: seq<QA.Entry>, scores: map<string, Option<string>>, owners: map<string, string>)
    requires scores.Keys == owners.Keys
    ensures forall l :: l in Lines(records, scores, owners) ==>
      exists i :: 0 <= i < |records| && records[i].questionId == l.0 && BestAnswerer(records[i], scores, owners) == Some(l.1)
    ensures forall i :: 0 <= i < |records| && BestAnswerer(records[i], scores, owners).Some? ==>
      (records[i].questionId, BestAnswerer(records[i], scores, owners).value) in Lines(records, scores, owners)
  {
    if |records| > 0 {
      var init := records[..|records| - 1];
      LinesChosen(init, scores, owners);
      assert forall i :: 0 <= i < |init| ==> init[i] == records[i];
    }
  }

  /** The positions of the records that get a line: exactly those with a chosen answerer, ascending. */
  ghost function ChosenIndices(records: seq<QA.Entry>, scores: map<string, Option<string>>, owners: map<string, string>): (r: seq<nat>)
    requires scores.Keys == owners.Keys
    ensures forall k :: 0 <= k < |r| ==> r[k] < |records| && BestAnswerer(records[r[k]], scores, owners).Some?
    ensures forall k, m :: 0 <= k < m < |r| ==> r[k] < r[m]
    ensures forall i :: 0 <= i < |records| && BestAnswerer(records[i], scores, owners).Some? ==> i in r
  {
    if |records| == 0 then []
    else
      var init := records[..|records| - 1];
      assert forall i :: 0 <= i < |init| ==> init[i] == records[i];
      var indices := ChosenIndices(init, scores, owners);
      if BestAnswerer(records[|records| - 1], scores, owners).Some? then indices + [|records| - 1] else indices
  }

  /**
   * The lines come in record order: line k is the line of the k-th record with a chosen
   * answerer, and there is one line per such record.
   */
  lemma {:induction false} LinesInOrder(records: seq<QA.Entry>, scores: map<string, Option<string>>, owners: map<string, string>)
    requires scores.Keys == owners.Keys
    ensures |Lines(records, scores, owners)| == |ChosenIndices(records, scores, owners)|
    ensures forall k :: 0 <= k < |Lines(records, scores, owners)| && k < |ChosenIndices(records, scores, owners)| ==>
      var i := ChosenIndices(records, scores, owners)[k];
      Lines(records, scores, owners)[k] == (records[i].questionId, BestAnswerer(records[i], scores, owners).value)
  {
    if |records| > 0 {
      var init := records[..|records| - 1];
      LinesInOrder(init, scores, owners);
      assert forall i :: 0 <= i < |init| ==> init[i] == records[i];
    }
  }

  /**
   * `extract_question_best_answerer` with the intended rule: the answer maps built from the
   * answer posts, then one line per record whose best answerer is found.
   */
  method ExtractQuestionBestAnswerer(posts: seq<Post>, records: seq<QA.Entry>) returns (lines: seq<(string, string)>)
    ensures lines == Lines(records, AnswerMaps(posts).0, AnswerMaps(posts).1)
  {
    var aidScore, accaidUaid := BuildAnswerMaps(posts);
    lines := [];
    for k := 0 to |records|
      invariant lines == Lines(records[..k], aidScore, accaidUaid)
    {
      assert records[..k + 1][..k] == records[..k];
      var chosen := BestAnswerer(records[k], aidScore, accaidUaid);
      if chosen.Some? {
        lines := lines + [(records[k].questionId, chosen.value)];
      }
    }
    assert records[..|records|] == records;
  }
}
