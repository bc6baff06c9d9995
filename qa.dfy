/**
 * `process_QA` and the participant-user bookkeeping of the preprocessing script. Question
 * and answer posts become the question/answer map; `count_Q` and `count_A` count how many
 * questions each user asked and answered; a question is a test candidate when its first
 * listed answer is the accepted one and both users are active enough; the sampled test
 * questions and the unanswered ones leave the map. `part_user` collects every asker and
 * answerer left in the map, and `write_part_users` lists them in ascending order.
 *
 * Post attributes are strings; a missing attribute is the empty string, which Python treats
 * as false exactly like `None`.
 */
module QA {
  import opened Outcomes
  import opened Text

  /** A question post: `Id`, `OwnerUserId`, `AcceptedAnswerId`. */
  datatype Question = Question(id: string, owner: string, accepted: string)

  /** An answer post: `Id`, `OwnerUserId`, `ParentId`. */
  datatype Answer = Answer(id: string, owner: string, parent: string)

  /** A `qa_map` value: `QuestionId`, `QuestionOwnerId`, `AcceptedAnswerId`, `AnswerOwnerList`. */
  datatype Entry = Entry(questionId: string, owner: string, accepted: string, answers: seq<(string, string)>)

  /** `count.get(k, 0)`. */
  function Get(count: map<string, nat>, k: string): nat
  {
    if k in count then count[k] else 0
  }

  /** `count[k] = count.get(k, 0) + 1`. */
  function Bump(count: map<string, nat>, k: string): (r: map<string, nat>)
    ensures r.Keys == count.Keys + {k}
  {
    count[k := Get(count, k) + 1]
  }

  // ---------------------------------------------------------------------------------------
  // Questions

  /** `if qid and owner_id`: only questions with an id and an owner enter the map. */
  predicate Listed(q: Question)
  {
    q.id != "" && q.owner != ""
  }

  /** One question line: a fresh entry with no answers, replacing any entry of the same id. */
  function AddQuestion(m: map<string, Entry>, q: Question): map<string, Entry>
  {
    if Listed(q) then m[q.id := Entry(q.id, q.owner, q.accepted, [])] else m
  }

  /** `qa_map` after the question lines `qs`, in order. */
  function QuestionsMap(m: map<string, Entry>, qs: seq<Question>): map<string, Entry>
  {
    if |qs| == 0 then m else AddQuestion(QuestionsMap(m, qs[..|qs| - 1]), qs[|qs| - 1])
  }

  /** `count_Q` after the question lines `qs`. */
  function QuestionCounts(count: map<string, nat>, qs: seq<Question>): map<string, nat>
  {
    if |qs| == 0 then count
    else
      var c := QuestionCounts(count, qs[..|qs| - 1]);
      if Listed(qs[|qs| - 1]) then Bump(c, qs[|qs| - 1].owner) else c
  }

  /** How many listed questions `owner` asked. */
  function Asked(qs: seq<Question>, owner: string): nat
  {
    if |qs| == 0 then 0
    else Asked(qs[..|qs| - 1], owner) + if Listed(qs[|qs| - 1]) && qs[|qs| - 1].owner == owner then 1 else 0
  }

  /** `count_Q[u]` grows by the number of listed questions `u` asked. */
  lemma {:induction false} QuestionCountsAsked(count: map<string, nat>, qs: seq<Question>, owner: string)
    ensures Get(QuestionCounts(count, qs), owner) == Get(count, owner) + Asked(qs, owner)
  {
    if |qs| > 0 {
      QuestionCountsAsked(count, qs[..|qs| - 1], owner);
    }
  }

  /** The map gains exactly the ids of the listed questions. */
  lemma {:induction false} QuestionsMapKeys(m: map<string, Entry>, qs: seq<Question>)
    ensures QuestionsMap(m, qs).Keys == m.Keys + set i | 0 <= i < |qs| && Listed(qs[i]) :: qs[i].id
  {
    if |qs| > 0 {
      var init := qs[..|qs| - 1];
      QuestionsMapKeys(m, init);
      var before := set i | 0 <= i < |init| && Listed(init[i]) :: init[i].id;
      var after := set i | 0 <= i < |qs| && Listed(qs[i]) :: qs[i].id;
      assert after == before + if Listed(qs[|qs| - 1]) then {qs[|qs| - 1].id} else {} by {
        forall id | id in after
          ensures id in before + if Listed(qs[|qs| - 1]) then {qs[|qs| - 1].id} else {}
        {
          var i :| 0 <= i < |qs| && Listed(qs[i]) && qs[i].id == id;
          if i < |init| {
            assert init[i] == qs[i];
          }
        }
        forall id | id in before
          ensures id in after
        {
          var i :| 0 <= i < |init| && Listed(init[i]) && init[i].id == id;
          assert qs[i] == init[i];
        }
      }
    }
  }

  /** The entry of a question id comes from the last listed question with that id, with no answers yet. */
  lemma {:induction false} QuestionsMapEntry(m: map<string, Entry>, qs: seq<Question>, i: nat)
    requires i < |qs| && Listed(qs[i])
    requires forall j :: i < j < |qs| && Listed(qs[j]) ==> qs[j].id != qs[i].id
    ensures qs[i].id in QuestionsMap(m, qs)
    ensures QuestionsMap(m, qs)[qs[i].id] == Entry(qs[i].id, qs[i].owner, qs[i].accepted, [])
  {
    if i < |qs| - 1 {
      QuestionsMapEntry(m, qs[..|qs| - 1], i);
    }
  }

  // ---------------------------------------------------------------------------------------
  // Answers

  /** `if aid and owner_id and par_id and entry`: the answer's question must be in the map. */
  predicate Attached(keys: set<string>, a: Answer)
  {
    a.id != "" && a.owner != "" && a.parent != "" && a.parent in keys
  }

  /** One answer line: `(aid, owner_id)` appended to its question's answer list. */
  function AddAnswer(m: map<string, Entry>, a: Answer): (r: map<string, Entry>)
    ensures r.Keys == m.Keys
  {
    if Attached(m.Keys, a) then m[a.parent := m[a.parent].(answers := m[a.parent].answers + [(a.id, a.owner)])]
    else m
  }

  /** `qa_map` after the answer lines `answers`, in order. */
  function AnswersMap(m: map<string, Entry>, answers: seq<Answer>): (r: map<string, Entry>)
    ensures r.Keys == m.Keys
  {
    if |answers| == 0 then m else AddAnswer(AnswersMap(m, answers[..|answers| - 1]), answers[|answers| - 1])
  }

  /** `count_A` after the answer lines, given the question ids in the map. */
  function AnswerCounts(keys: set<string>, count: map<string, nat>, answers: seq<Answer>): map<string, nat>
  {
    if |answers| == 0 then count
    else
      var c := AnswerCounts(keys, count, answers[..|answers| - 1]);
      var a := answers[|answers| - 1];
      if Attached(keys, a) then Bump(c, a.owner) else c
  }

  /** The `(aid, owner)` pairs of the answers attached to question `q`, in input order. */
  function AnswersTo(keys: set<string>, answers: seq<Answer>, q: string): seq<(string, string)>
  {
    if |answers| == 0 then []
    else
      var a := answers[|answers| - 1];
      AnswersTo(keys, answers[..|answers| - 1], q) + if Attached(keys, a) && a.parent == q then [(a.id, a.owner)] else []
  }

  /** How many attached answers `owner` wrote. */
  function Answered(keys: set<string>, answers: seq<Answer>, owner: string): nat
  {
    if |answers| == 0 then 0
    else
      var a := answers[|answers| - 1];
      Answered(keys, answers[..|answers| - 1], owner) + if Attached(keys, a) && a.owner == owner then 1 else 0
  }

  /**
   * Each question's answer list grows by the answers attached to it, in input order; its id,
   * owner and accepted answer stay as they were.
   */
  lemma {:induction false} AnswersMapEntries(m: map<string, Entry>, answers: seq<Answer>, q: string)
    requires q in m
    ensures AnswersMap(m, answers)[q] == m[q].(answers := m[q].answers + AnswersTo(m.Keys, answers, q))
  {
    if |answers| > 0 {
      AnswersMapEntries(m, answers[..|answers| - 1], q);
    } else {
      assert m[q].answers + [] == m[q].answers;
    }
  }

  /** `count_A[u]` grows by the number of attached answers `u` wrote. */
  lemma {:induction false} AnswerCountsAnswered(keys: set<string>, count: map<string, nat>, answers: seq<Answer>, owner: string)
    ensures Get(AnswerCounts(keys, count, answers), owner) == Get(count, owner) + Answered(keys, answers, owner)
  {
    if |answers| > 0 {
      AnswerCountsAnswered(keys, count, answers[..|answers| - 1], owner);
    }
  }

  // ---------------------------------------------------------------------------------------
  // Test candidates and the training map

  /** Every asker of the map has a `count_Q` entry and every answerer a `count_A` entry. */
  ghost predicate Counted(m: map<string, Entry>, countQ: map<string, nat>, countA: map<string, nat>)
  {
    forall q :: q in m ==> m[q].owner in countQ && forall k :: 0 <= k < |m[q].answers| ==> m[q].answers[k].1 in countA
  }

  /**
   * The test-candidate rule as written: an accepted answer id is needed, and the loop over the
   * answer list breaks after its first element, so only the first listed answer is compared
   * with it; then the asker and that answerer must both reach the threshold.
   */
  predicate Candidate(e: Entry, countQ: map<string, nat>, countA: map<string, nat>, threshold: int)
    requires e.owner in countQ && (|e.answers| > 0 ==> e.answers[0].1 in countA)
  {
    && e.accepted != ""
    && |e.answers| > 0
    && e.answers[0].0 == e.accepted
    && countQ[e.owner] >= threshold
    && countA[e.answers[0].1] >= threshold
  }

  /**
   * An accepted answer listed after another answer never makes its question a candidate,
   * however active its users are.
   */
  lemma LaterAcceptedIgnored(e: Entry, countQ: map<string, nat>, countA: map<string, nat>, threshold: int, k: nat)
    requires e.owner in countQ && (|e.answers| > 0 ==> e.answers[0].1 in countA)
    requires 0 < k < |e.answers| && e.answers[k].0 == e.accepted && e.answers[0].0 != e.accepted
    ensures !Candidate(e, countQ, countA, threshold)
  {
  }

  /** The training map: the sampled test questions and the unanswered ones removed. */
  function TrainMap(m: map<string, Entry>, test: set<string>): (r: map<string, Entry>)
    ensures r.Keys == m.Keys - test - set q | q in m && |m[q].answers| == 0
    ensures forall q :: q in r ==> r[q] == m[q] && |r[q].answers| > 0
  {
    map q | q in m && q !in test && |m[q].answers| > 0 :: m[q]
  }

  // ---------------------------------------------------------------------------------------
  // Participant users

  /** The `OwnerUserId` of every question in the map. */
  ghost function Askers(m: map<string, Entry>): set<string>
  {
    set q | q in m :: m[q].owner
  }

  /** The answer owner of every answer in the map. */
  ghost function Answerers(m: map<string, Entry>): set<string>
  {
    set q, k | q in m && 0 <= k < |m[q].answers| :: m[q].answers[k].1
  }

  /** `int(u)` succeeds on every user id of `users`. */
  ghost predicate AllParse(users: set<string>)
  {
    forall u :: u in users ==> IntOf(u).Some?
  }

  /** The integers `int(u)` of the user ids that parse. */
  ghost function Ids(users: set<string>): set<int>
  {
    set u | u in users && IntOf(u).Some? :: IntOf(u).value
  }

  /** `xs` is in strictly ascending order, so it has no duplicates. */
  predicate StrictlyAscending(xs: seq<int>)
  {
    forall i, j :: 0 <= i < j < |xs| ==> xs[i] < xs[j]
  }

  /** Some element of a nonempty set. */
  lemma Pick(s: set<int>) returns (x: int)
    requires s != {}
    ensures x in s
  {
    if forall y :: y !in s {
      assert false;
    }
    x :| x in s;
  }

  /** A nonempty set of integers has a least element. */
  lemma {:induction false} LeastExists(s: set<int>)
    requires s != {}
    ensures exists m :: m in s && forall y :: y in s ==> m <= y
    decreases |s|
  {
    var x := Pick(s);
    if s != {x} {
      LeastExists(s - {x});
      var m :| m in s - {x} && forall y :: y in s - {x} ==> m <= y;
      var least := if x < m then x else m;
      forall y | y in s
        ensures least <= y
      {
        if y != x {
          assert y in s - {x};
        }
      }
    } else {
      forall y | y in s
        ensures x <= y
      {
        assert y == x;
      }
    }
  }

  /** The module-level state of the preprocessing script, and the map `process_QA` builds. */
  class Preprocessor {
    var qaMap: map<string, Entry>
    var countQ: map<string, nat>
    var countA: map<string, nat>
    var partUser: set<int>

    ghost predicate Valid()
      reads this
    {
      Counted(qaMap, countQ, countA)
    }

    /** The script starts with empty counters, an empty user set and an empty map. */
    constructor()
      ensures Valid()
      ensures qaMap == map[] && countQ == map[] && countA == map[] && partUser == {}
    {
      qaMap, countQ, countA, partUser := map[], map[], map[], {};
    }

    /** The question loop of `process_QA`. */
    method AddQuestions(qs: seq<Question>)
      requires Valid()
      modifies this
      ensures Valid()
      ensures qaMap == QuestionsMap(old(qaMap), qs) && countQ == QuestionCounts(old(countQ), qs)
      ensures countA == old(countA) && partUser == old(partUser)
    {
      var m, count := qaMap, countQ;
      for i := 0 to |qs|
        invariant unchanged(this)
        invariant m == QuestionsMap(qaMap, qs[..i]) && count == QuestionCounts(countQ, qs[..i])
        invariant Counted(m, count, countA)
      {
        assert qs[..i + 1][..i] == qs[..i];
        var q := qs[i];
        if q.id != "" && q.owner != "" {
          m := m[q.id := Entry(q.id, q.owner, q.accepted, [])];
          count := count[q.owner := Get(count, q.owner) + 1];
        }
      }
      assert qs[..|qs|] == qs;
      qaMap, countQ := m, count;
    }

    /** The answer loop of `process_QA`. */
    method AddAnswers(answers: seq<Answer>)
      requires Valid()
      modifies this
      ensures Valid()
      ensures qaMap == AnswersMap(old(qaMap), answers) && countA == AnswerCounts(old(qaMap).Keys, old(countA), answers)
      ensures countQ == old(countQ) && partUser == old(partUser)
    {
      var m, count := qaMap, countA;
      for i := 0 to |answers|
        invariant unchanged(this)
        invariant m == AnswersMap(qaMap, answers[..i]) && count == AnswerCounts(qaMap.Keys, countA, answers[..i])
        invariant m.Keys == qaMap.Keys && Counted(m, countQ, count)
      {
        assert answers[..i + 1][..i] == answers[..i];
        var a := answers[i];
        if a.id != "" && a.owner != "" && a.parent != "" && a.parent in m {
          var entry := m[a.parent];
          m := m[a.parent := entry.(answers := entry.answers + [(a.id, a.owner)])];
          count := count[a.owner := Get(count, a.owner) + 1];
        }
      }
      assert answers[..|answers|] == answers;
      qaMap, countA := m, count;
    }

    /** The candidate loop of `process_QA`: the `sample_table` set the test questions are drawn from. */
    method SampleTable(threshold: int) returns (table: set<string>)
      requires Valid()
      ensures table == set q | q in qaMap && Candidate(qaMap[q], countQ, countA, threshold)
    {
      table := {};
      var todo := qaMap.Keys;
      while todo != {}
        invariant todo <= qaMap.Keys
        invariant table == set q | q in qaMap && q !in todo && Candidate(qaMap[q], countQ, countA, threshold)
        decreases |todo|
      {
        var q :| q in todo;
        var e := qaMap[q];
        if e.accepted != "" && |e.answers| > 0 {
          var (ansId, aid) := e.answers[0];
          if ansId == e.accepted && countQ[e.owner] >= threshold && countA[aid] >= threshold {
            table := table + {q};
          }
        }
        todo := todo - {q};
      }
    }

    /**
     * The deletion loop of `process_QA`, given the sampled test questions: what remains is
     * written out as the training map.
     */
    method SplitTrain(test: set<string>)
      requires Valid()
      modifies this
      ensures Valid()
      ensures qaMap == TrainMap(old(qaMap), test)
      ensures countQ == old(countQ) && countA == old(countA) && partUser == old(partUser)
    {
      var m := qaMap;
      var todo := qaMap.Keys;
      while todo != {}
        invariant unchanged(this)
        invariant todo <= qaMap.Keys
        invariant m == map q | q in qaMap && (q in todo || (q !in test && |qaMap[q].answers| > 0)) :: qaMap[q]
        decreases |todo|
      {
        var q :| q in todo;
        if q in test || |qaMap[q].answers| == 0 {
          m := m - {q};
        }
        todo := todo - {q};
      }
      qaMap := m;
    }

    /**
     * `extract_question_user`: `part_user.add(int(owner_id))` for every question of the
     * training map. An owner id that is no integer raises, leaving the set partly updated.
     */
    method ExtractQuestionUsers() returns (r: Result<(), string>)
      requires Valid()
      modifies this
      ensures Valid()
      ensures r.Success? <==> AllParse(Askers(qaMap))
      ensures r.Success? ==> partUser == old(partUser) + Ids(Askers(qaMap))
      ensures r.Failure? ==> r.error in Askers(qaMap) && IntOf(r.error).None?
                             && old(partUser) <= partUser <= old(partUser) + Ids(Askers(qaMap))
      ensures qaMap == old(qaMap) && countQ == old(countQ) && countA == old(countA)
    {
      var users := partUser;
      var todo := qaMap.Keys;
      ghost var done: set<string> := {};
      while todo != {}
        invariant unchanged(this)
        invariant todo <= qaMap.Keys && done == (set q | q in qaMap && q !in todo :: qaMap[q].owner)
        invariant AllParse(done) && users == partUser + Ids(done)
        decreases |todo|
      {
        var q :| q in todo;
        var owner := qaMap[q].owner;
        var uid := IntOf(owner);
        if uid.None? {
          partUser := users;
          return Failure(owner);
        }
        users := users + {uid.value};
        done := done + {owner};
        todo := todo - {q};
      }
      partUser := users;
      r := Success(());
    }

    /**
     * `extract_question_answer_user`: `part_user.add(int(ans_owner_id))` for every answer of
     * the training map.
     */
    method ExtractAnswerUsers() returns (r: Result<(), string>)
      requires Valid()
      modifies this
      ensures Valid()
      ensures r.Success? <==> AllParse(Answerers(qaMap))
      ensures r.Success? ==> partUser == old(partUser) + Ids(Answerers(qaMap))
      ensures r.Failure? ==> r.error in Answerers(qaMap) && IntOf(r.error).None?
                             && old(partUser) <= partUser <= old(partUser) + Ids(Answerers(qaMap))
      ensures qaMap == old(qaMap) && countQ == old(countQ) && countA == old(countA)
    {
      var users := partUser;
      var todo := qaMap.Keys;
      ghost var done: set<string> := {};
      while todo != {}
        invariant unchanged(this)
        invariant todo <= qaMap.Keys
        invariant done == set q, k | q in qaMap && q !in todo && 0 <= k < |qaMap[q].answers| :: qaMap[q].answers[k].1
        invariant AllParse(done) && users == partUser + Ids(done)
        decreases |todo|
      {
        var q :| q in todo;
        var bad;
        users, bad := AddOwners(users, qaMap[q].answers);
        if bad.Some? {
          partUser := users;
          return Failure(bad.value);
        }
        done := done + set k | 0 <= k < |qaMap[q].answers| :: qaMap[q].answers[k].1;
        todo := todo - {q};
      }
      partUser := users;
      r := Success(());
    }

    /** `write_part_users`: the participant ids, sorted, each once. */
    method WritePartUsers() returns (ids: seq<int>)
      ensures StrictlyAscending(ids)
      ensures forall u :: u in ids <==> u in partUser
    {
      ids := [];
      var rest := partUser;
      while rest != {}
        invariant rest <= partUser
        invariant StrictlyAscending(ids)
        invariant forall u :: u in ids <==> u in partUser && u !in rest
        invariant forall i, u :: 0 <= i < |ids| && u in rest ==> ids[i] < u
        decreases |rest|
      {
        LeastExists(rest);
        var least :| least in rest && forall u :: u in rest ==> least <= u;
        ids := ids + [least];
        rest := rest - {least};
      }
    }
  }

  /** The inner loop of `extract_question_answer_user` over one answer list. */
  method AddOwners(users: set<int>, answers: seq<(string, string)>)
    returns (users': set<int>, bad: Option<string>)
    ensures bad.None? <==> AllParse(set k | 0 <= k < |answers| :: answers[k].1)
    ensures bad.None? ==> users' == users + Ids(set k | 0 <= k < |answers| :: answers[k].1)
    ensures bad.Some? ==> bad.value in (set k | 0 <= k < |answers| :: answers[k].1) && IntOf(bad.value).None?
                          && users <= users' <= users + Ids(set k | 0 <= k < |answers| :: answers[k].1)
  {
    users' := users;
    for k := 0 to |answers|
      invariant AllParse(set j | 0 <= j < k :: answers[j].1)
      invariant users' == users + Ids(set j | 0 <= j < k :: answers[j].1)
    {
      var owner := answers[k].1;
      var uid := IntOf(owner);
      if uid.None? {
        return users', Some(owner);
      }
      users' := users' + {uid.value};
    }
    bad := None;
  }
}
