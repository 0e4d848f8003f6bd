/** The exam page (src/components/Quiz/Quiz.js): load the questions of one
    version with their answers grouped and shuffled, record one answer per
    question, move between questions, grade once every question is answered. */
module Quiz {

  import opened Common
  import opened Seqs
  import VersionList

  /** Row identifiers of the `Question` and `Answer` tables. */
  type Id = int

  datatype QuestionRow = QuestionRow(id: Id, question: string, etc: string)

  datatype AnswerRow = AnswerRow(id: Id, answer: string, correctYn: bool, etc: string, questionId: Id)

  /** A question on screen: its row, its answers in fetch order, and the order
      in which they are shown. */
  datatype QuizQuestion = QuizQuestion(
    id: Id, question: string, etc: string,
    answers: seq<AnswerRow>, shuffledAnswers: seq<AnswerRow>)

  datatype Score = Score(correct: nat, total: nat)

  /** The toast a version selection ends with. */
  datatype LoadNotice = Cleared | NoQuestions | Loaded(count: nat) | LoadFailed

  /** The toast a press of the grading button ends with. */
  datatype SubmitNotice = NothingToGrade | Incomplete(remaining: nat) | Graded(score: Score)

  /** The four looks of an answer after grading, and the one before. */
  datatype ChoiceStyle = Selectable | PickedCorrect | PickedWrong | MissedCorrect | Plain

  // ---------------------------------------------------------------------
  // Grouping answers by question
  // ---------------------------------------------------------------------

  function BelongsTo(qid: Id): AnswerRow -> bool {
    (a: AnswerRow) => a.questionId == qid
  }

  /** The fetched answers of question `qid`, in fetch order. */
  function AnswersOf(ans: seq<AnswerRow>, qid: Id): seq<AnswerRow> {
    Filter(ans, BelongsTo(qid))
  }

  /** `answersByQ[qid] || []`. */
  function ListFor(byQ: map<Id, seq<AnswerRow>>, qid: Id): seq<AnswerRow> {
    if qid in byQ then byQ[qid] else []
  }

  /** `answersByQ`: built by pushing every answer, in order, onto the list of
      its `questionId`. Looking any question up in it (`|| []` when absent)
      gives that question's answers in fetch order. */
  method GroupAnswers(ans: seq<AnswerRow>) returns (byQ: map<Id, seq<AnswerRow>>)
    ensures forall qid :: ListFor(byQ, qid) == AnswersOf(ans, qid)
  {
    byQ := map[];
    for i := 0 to |ans|
      invariant forall qid :: ListFor(byQ, qid) == AnswersOf(ans[..i], qid)
    {
      var a := ans[i];
      ghost var before := byQ;
      byQ := byQ[a.questionId := ListFor(byQ, a.questionId) + [a]];
      forall qid ensures ListFor(byQ, qid) == AnswersOf(ans[..i + 1], qid) {
        assert ans[..i + 1] == ans[..i] + [a];
        FilterConcat(ans[..i], [a], BelongsTo(qid));
        assert Filter([a], BelongsTo(qid)) == if a.questionId == qid then [a] else [];
        if qid != a.questionId {
          assert ListFor(byQ, qid) == ListFor(before, qid);
        }
      }
    }
    assert ans[..|ans|] == ans;
  }

  // ---------------------------------------------------------------------
  // Shuffling
  // ---------------------------------------------------------------------

  /** `shuffle(arr)`: a Fisher-Yates pass over a copy of `list`. `roll(i)`
      stands for the draw of `Math.random()` at step `i`; the index it picks is
      `roll(i) % (i + 1)`, which ranges over `[0, i]` as the floor of
      `Math.random() * (i + 1)` does. */
  method Shuffle(list: seq<AnswerRow>, roll: nat -> nat) returns (shuffled: seq<AnswerRow>)
    ensures |shuffled| == |list|
    ensures multiset(shuffled) == multiset(list)
  {
    var copy := new AnswerRow[|list|](k requires 0 <= k < |list| => list[k]);
    assert copy[..] == list;
    var i := copy.Length - 1;
    while i > 0
      invariant -1 <= i < copy.Length
      invariant multiset(copy[..]) == multiset(list)
    {
      var j := roll(i) % (i + 1);
      copy[i], copy[j] := copy[j], copy[i];
      i := i - 1;
    }
    shuffled := copy[..];
  }

  /** Question `m` is row `q` with the answer list `list` and a permutation
      of it. */
  ghost predicate Attached(m: QuizQuestion, q: QuestionRow, list: seq<AnswerRow>) {
    && m.id == q.id && m.question == q.question && m.etc == q.etc
    && m.answers == list
    && multiset(m.shuffledAnswers) == multiset(list)
  }

  /** `merged`: each fetched question, in order, with its own answers in
      fetch order and a shuffled copy of them. */
  ghost predicate MergedFrom(merged: seq<QuizQuestion>, qs: seq<QuestionRow>, ans: seq<AnswerRow>) {
    && |merged| == |qs|
    && forall k :: 0 <= k < |qs| ==> Attached(merged[k], qs[k], AnswersOf(ans, qs[k].id))
  }

  /** The same, with the answer lists read from the grouped map. */
  ghost predicate MergedWith(merged: seq<QuizQuestion>, qs: seq<QuestionRow>, byQ: map<Id, seq<AnswerRow>>) {
    && |merged| == |qs|
    && forall k :: 0 <= k < |qs| ==> Attached(merged[k], qs[k], ListFor(byQ, qs[k].id))
  }

  lemma MergedWithAppend(merged: seq<QuizQuestion>, qs: seq<QuestionRow>, byQ: map<Id, seq<AnswerRow>>,
                         m: QuizQuestion, q: QuestionRow)
    requires MergedWith(merged, qs, byQ) && Attached(m, q, ListFor(byQ, q.id))
    ensures MergedWith(merged + [m], qs + [q], byQ)
  {
  }

  /** A map that lists every question's answers merges as the answers do. */
  lemma MergedWithGrouping(merged: seq<QuizQuestion>, qs: seq<QuestionRow>, byQ: map<Id, seq<AnswerRow>>,
                           ans: seq<AnswerRow>)
    requires MergedWith(merged, qs, byQ)
    requires forall qid :: ListFor(byQ, qid) == AnswersOf(ans, qid)
    ensures MergedFrom(merged, qs, ans)
  {
    forall k | 0 <= k < |qs| ensures Attached(merged[k], qs[k], AnswersOf(ans, qs[k].id)) {
      assert ListFor(byQ, qs[k].id) == AnswersOf(ans, qs[k].id);
    }
  }

  /** The body of the `map`: question `q` with its answer list and a
      shuffled copy made with the draws `roll(k, _)`. */
  method Attach(q: QuestionRow, list: seq<AnswerRow>, roll: (nat, nat) -> nat, k: nat)
    returns (m: QuizQuestion)
    ensures Attached(m, q, list)
  {
    var draw: nat -> nat := i => roll(k, i);
    var shuffled := Shuffle(list, draw);
    m := QuizQuestion(q.id, q.question, q.etc, list, shuffled);
  }

  /** `(qs || []).map(...)` over the grouped answers. */
  method AttachAll(qs: seq<QuestionRow>, byQ: map<Id, seq<AnswerRow>>, roll: (nat, nat) -> nat)
    returns (merged: seq<QuizQuestion>)
    ensures MergedWith(merged, qs, byQ)
  {
    merged := [];
    for k := 0 to |qs|
      invariant MergedWith(merged, qs[..k], byQ)
    {
      var q := qs[k];
      var m := Attach(q, ListFor(byQ, q.id), roll, k);
      MergedWithAppend(merged, qs[..k], byQ, m, q);
      assert qs[..k + 1] == qs[..k] + [q];
      merged := merged + [m];
    }
    assert qs[..|qs|] == qs;
  }

  /** Grouping followed by the `map` over the fetched questions. `roll(k, i)`
      is the random draw at step `i` of the shuffle of question `k`. */
  method Merge(qs: seq<QuestionRow>, ans: seq<AnswerRow>, roll: (nat, nat) -> nat)
    returns (merged: seq<QuizQuestion>)
    ensures MergedFrom(merged, qs, ans)
  {
    var byQ := GroupAnswers(ans);
    merged := AttachAll(qs, byQ, roll);
    MergedWithGrouping(merged, qs, byQ, ans);
  }

  // ---------------------------------------------------------------------
  // Answers, grading
  // ---------------------------------------------------------------------

  /** `choices[q.id]`, `undefined` when nothing was chosen. */
  function Lookup(choices: map<Id, Id>, qid: Id): Option<Id> {
    if qid in choices then Some(choices[qid]) else None
  }

  /** `!!choices[q.id]`: an answer id is recorded and is truthy (not 0). */
  predicate IsAnswered(q: QuizQuestion, choices: map<Id, Id>): (b: bool)
    ensures b <==> Lookup(choices, q.id).Some? && Lookup(choices, q.id) != Some(0)
  {
    q.id in choices && choices[q.id] != 0
  }

  function Pending(choices: map<Id, Id>): QuizQuestion -> bool {
    (q: QuizQuestion) => !IsAnswered(q, choices)
  }

  /** Every unanswered question is listed, as often as it occurs, and no
      other: the count shown to the user is the number of unanswered
      questions. */
  lemma UnansweredExactly(questions: seq<QuizQuestion>, choices: map<Id, Id>)
    ensures forall q :: q in Unanswered(questions, choices) <==> q in questions && !IsAnswered(q, choices)
    ensures forall q :: multiset(Unanswered(questions, choices))[q] ==
                        if IsAnswered(q, choices) then 0 else multiset(questions)[q]
  {
    FilterMembers(questions, Pending(choices));
    forall q ensures multiset(Unanswered(questions, choices))[q] ==
                     if IsAnswered(q, choices) then 0 else multiset(questions)[q]
    {
      FilterMultiplicity(questions, Pending(choices), q);
    }
  }

  /** `unanswered`: the questions without a truthy choice, in order. */
  function Unanswered(questions: seq<QuizQuestion>, choices: map<Id, Id>): (r: seq<QuizQuestion>)
    ensures |r| <= |questions|
    ensures forall k :: 0 <= k < |r| ==> !IsAnswered(r[k], choices)
    ensures r == [] <==> forall i :: 0 <= i < |questions| ==> IsAnswered(questions[i], choices)
  {
    FilterLength(questions, Pending(choices));
    Filter(questions, Pending(choices))
  }

  /** `answers.find((a) => a.id === picked)`: the first answer with the
      picked id. */
  function FindAnswer(answers: seq<AnswerRow>, picked: Option<Id>): (r: Option<AnswerRow>)
    ensures r.Some? ==> r.value in answers && picked == Some(r.value.id)
    ensures r.Some? ==> exists k :: 0 <= k < |answers| && answers[k] == r.value &&
                          forall j :: 0 <= j < k ==> picked != Some(answers[j].id)
    ensures r.None? ==> forall a :: a in answers ==> picked != Some(a.id)
  {
    if answers == [] then None
    else if picked == Some(answers[0].id) then Some(answers[0])
    else
      var r := FindAnswer(answers[1..], picked);
      assert r.Some? ==> exists k :: 0 < k < |answers| && answers[k] == r.value &&
                           forall j :: 0 <= j < k ==> picked != Some(answers[j].id) by {
        if r.Some? {
          var k :| 0 <= k < |answers[1..]| && answers[1..][k] == r.value &&
                   forall j :: 0 <= j < k ==> picked != Some(answers[1..][j].id);
          assert answers[k + 1] == r.value;
        }
      }
      r
  }

  /** `isQuestionCorrect(q)`: the chosen answer is truthy and the first answer
      of `q` with that id is marked correct. */
  predicate IsQuestionCorrect(q: QuizQuestion, choices: map<Id, Id>): (b: bool)
    ensures b <==> IsAnswered(q, choices) &&
                   exists k :: 0 <= k < |q.answers| && q.answers[k].id == choices[q.id] && q.answers[k].correctYn &&
                     forall j :: 0 <= j < k ==> q.answers[j].id != choices[q.id]
  {
    IsAnswered(q, choices) &&
    match FindAnswer(q.answers, Lookup(choices, q.id))
    case Some(a) => a.correctYn
    case None => false
  }

  /** The test inside the grading loop of `handleSubmit`, which, unlike
      `isQuestionCorrect`, does not check that the choice is truthy. */
  predicate EarnsPoint(q: QuizQuestion, choices: map<Id, Id>): (b: bool)
    ensures b <==> q.id in choices &&
                   exists k :: 0 <= k < |q.answers| && q.answers[k].id == choices[q.id] && q.answers[k].correctYn &&
                     forall j :: 0 <= j < k ==> q.answers[j].id != choices[q.id]
    ensures IsAnswered(q, choices) ==> (b <==> IsQuestionCorrect(q, choices))
  {
    match FindAnswer(q.answers, Lookup(choices, q.id))
    case Some(a) => a.correctYn
    case None => false
  }

  function Correct(choices: map<Id, Id>): QuizQuestion -> bool {
    (q: QuizQuestion) => IsQuestionCorrect(q, choices)
  }

  function Earns(choices: map<Id, Id>): QuizQuestion -> bool {
    (q: QuizQuestion) => EarnsPoint(q, choices)
  }

  /** The number of questions `isQuestionCorrect` accepts. */
  function CorrectCount(questions: seq<QuizQuestion>, choices: map<Id, Id>): nat {
    |Filter(questions, Correct(choices))|
  }

  /** A score never exceeds the number of questions; it is full exactly
      when every question is correct and zero exactly when none is. */
  lemma CorrectCountBounds(questions: seq<QuizQuestion>, choices: map<Id, Id>)
    ensures CorrectCount(questions, choices) <= |questions|
    ensures CorrectCount(questions, choices) == |questions| <==>
            forall i :: 0 <= i < |questions| ==> IsQuestionCorrect(questions[i], choices)
    ensures CorrectCount(questions, choices) == 0 <==>
            forall i :: 0 <= i < |questions| ==> !IsQuestionCorrect(questions[i], choices)
  {
    FilterLength(questions, Correct(choices));
  }

  /** Once nothing is unanswered, the grading loop's test and
      `isQuestionCorrect` agree on every question. */
  lemma EarnsPointWhenAllAnswered(questions: seq<QuizQuestion>, choices: map<Id, Id>)
    requires Unanswered(questions, choices) == []
    ensures Filter(questions, Earns(choices)) == Filter(questions, Correct(choices))
  {
    FilterMembers(questions, Pending(choices));
    forall q | q in questions ensures Earns(choices)(q) == Correct(choices)(q) {
      assert !(q in Unanswered(questions, choices));
    }
    FilterAgree(questions, Earns(choices), Correct(choices));
  }

  /** The `for (const q of questions)` loop of `handleSubmit`. */
  method CountCorrect(questions: seq<QuizQuestion>, choices: map<Id, Id>) returns (correct: nat)
    ensures correct == |Filter(questions, Earns(choices))|
    ensures correct <= |questions|
    ensures Unanswered(questions, choices) == [] ==> correct == CorrectCount(questions, choices)
  {
    correct := 0;
    for i := 0 to |questions|
      invariant correct == |Filter(questions[..i], Earns(choices))|
    {
      var q := questions[i];
      assert questions[..i + 1] == questions[..i] + [q];
      FilterConcat(questions[..i], [q], Earns(choices));
      var ans := FindAnswer(q.answers, Lookup(choices, q.id));
      if ans.Some? && ans.value.correctYn {
        correct := correct + 1;
      }
    }
    assert questions[..|questions|] == questions;
    if Unanswered(questions, choices) == [] {
      EarnsPointWhenAllAnswered(questions, choices);
    }
  }

  /** `questions.findIndex((q) => q.id === id)`. */
  function FindIndexById(questions: seq<QuizQuestion>, id: Id): (r: int)
    ensures -1 <= r < |questions|
    ensures r >= 0 ==> questions[r].id == id
    ensures r >= 0 ==> forall j :: 0 <= j < r ==> questions[j].id != id
    ensures r == -1 ==> forall j :: 0 <= j < |questions| ==> questions[j].id != id
  {
    if questions == [] then -1
    else if questions[0].id == id then 0
    else
      var k := FindIndexById(questions[1..], id);
      if k == -1 then -1 else k + 1
  }

  /** Looking up the id of the first unanswered question finds that very
      question: the index `handleSubmit` jumps to is the first unanswered one,
      even when several questions share an id. */
  lemma FirstUnansweredIndex(questions: seq<QuizQuestion>, choices: map<Id, Id>)
    requires Unanswered(questions, choices) != []
    ensures var idx := FindIndexById(questions, Unanswered(questions, choices)[0].id);
            && 0 <= idx < |questions|
            && !IsAnswered(questions[idx], choices)
            && forall j :: 0 <= j < idx ==> IsAnswered(questions[j], choices)
  {
    var m := FilterFirst(questions, Pending(choices));
    var idx := FindIndexById(questions, questions[m].id);
    assert Pending(choices)(questions[m]);
    assert 0 <= idx <= m;
  }

  /** `getChoiceClass(q, a)`. */
  function ChoiceStyleOf(submitted: bool, choices: map<Id, Id>, q: QuizQuestion, a: AnswerRow): (r: ChoiceStyle)
    ensures !submitted <==> r == Selectable
    ensures submitted ==> (r in {PickedCorrect, PickedWrong} <==> Lookup(choices, q.id) == Some(a.id))
    ensures submitted ==> (r in {PickedCorrect, MissedCorrect} <==> a.correctYn)
  {
    if !submitted then Selectable
    else
      var isPicked := Lookup(choices, q.id) == Some(a.id);
      if a.correctYn && isPicked then PickedCorrect
      else if !a.correctYn && isPicked then PickedWrong
      else if a.correctYn then MissedCorrect
      else Plain
  }

  predicate DistinctAnswerIds(q: QuizQuestion) {
    forall i, j :: 0 <= i < j < |q.answers| ==> q.answers[i].id != q.answers[j].id
  }

  /** After grading, when the answers of a question have distinct ids, the
      question counts as correct exactly when it is answered and one of its
      answers is shown as a correct pick; at most one answer is shown picked. */
  lemma ChoiceStyleMatchesGrade(choices: map<Id, Id>, q: QuizQuestion)
    requires DistinctAnswerIds(q)
    ensures IsQuestionCorrect(q, choices) <==>
            IsAnswered(q, choices) &&
            exists i :: 0 <= i < |q.answers| && ChoiceStyleOf(true, choices, q, q.answers[i]) == PickedCorrect
    ensures forall i, j :: 0 <= i < j < |q.answers| ==>
              !(ChoiceStyleOf(true, choices, q, q.answers[i]) in {PickedCorrect, PickedWrong} &&
                ChoiceStyleOf(true, choices, q, q.answers[j]) in {PickedCorrect, PickedWrong})
  {
    var found := FindAnswer(q.answers, Lookup(choices, q.id));
    if IsAnswered(q, choices) {
      if found.Some? {
        var k :| 0 <= k < |q.answers| && q.answers[k] == found.value;
        if found.value.correctYn {
          assert ChoiceStyleOf(true, choices, q, q.answers[k]) == PickedCorrect;
        } else {
          forall i | 0 <= i < |q.answers|
            ensures ChoiceStyleOf(true, choices, q, q.answers[i]) != PickedCorrect
          {
            if i != k && Lookup(choices, q.id) == Some(q.answers[i].id) {
              assert false;
            }
          }
        }
      } else {
        forall i | 0 <= i < |q.answers|
          ensures ChoiceStyleOf(true, choices, q, q.answers[i]) != PickedCorrect
        {
          assert q.answers[i] in q.answers;
        }
      }
    }
  }

  /** `questions[0]?.id || null`: the question the results open on. */
  function FirstFocus(questions: seq<QuizQuestion>): (r: Option<Id>)
    ensures r.Some? ==> questions != [] && r.value == questions[0].id && r.value != 0
    ensures r.None? <==> questions == [] || questions[0].id == 0
  {
    if questions != [] && questions[0].id != 0 then Some(questions[0].id) else None
  }

  // ---------------------------------------------------------------------
  // The page's state
  // ---------------------------------------------------------------------

  class QuizSession {
    var versions: seq<string>
    var version: string
    var questions: seq<QuizQuestion>
    var currentIndex: nat
    var choices: map<Id, Id>
    var submitted: bool
    var score: Option<Score>
    var resultFocus: Option<Id>

    /** The cursor stays on a question (or at 0 with none); a score exists
        exactly after grading, and then every question is answered and the
        score is the count of correct ones for the choices, which are frozen. */
    ghost predicate Valid()
      reads this
    {
      && VersionList.StrictlySorted(versions)
      && (currentIndex == 0 || currentIndex < |questions|)
      && (submitted <==> score.Some?)
      && (submitted ==>
            && questions != []
            && Unanswered(questions, choices) == []
            && score.value == Score(CorrectCount(questions, choices), |questions|))
    }

    /** The `useState` initial values. */
    constructor ()
      ensures Valid()
      ensures versions == [] && version == "" && questions == [] && currentIndex == 0
      ensures choices == map[] && !submitted && score.None? && resultFocus.None?
    {
      versions, version, questions := [], "", [];
      currentIndex, choices := 0, map[];
      submitted, score, resultFocus := false, None, None;
    }

    /** The mount effect: the distinct versions of the `Question` table,
        sorted; left as it was when the fetch fails. */
    method LoadVersions(fetched: Fetch<seq<string>>)
      requires Valid()
      modifies this`versions
      ensures Valid()
      ensures fetched.Fetched? ==> versions == VersionList.UniqueSorted(fetched.data)
      ensures fetched.FetchFailed? ==> versions == old(versions)
    {
      if fetched.Fetched? {
        versions := VersionList.UniqueSorted(fetched.data);
      }
    }

    /** `handleVersionSelect(selected)`. `qs` is the answer to the question
        query, `ans` to the answer query (made only when `qs` is non-empty),
        `roll` the shuffle's random draws. */
    method SelectVersion(selected: string, qs: Fetch<seq<QuestionRow>>, ans: Fetch<seq<AnswerRow>>,
                         roll: (nat, nat) -> nat)
      returns (notice: LoadNotice)
      requires Valid()
      modifies this
      ensures Valid()
      ensures version == selected && versions == old(versions)
      ensures choices == map[] && currentIndex == 0 && !submitted && score.None? && resultFocus.None?
      ensures selected == "" ==> questions == [] && notice == Cleared
      ensures selected != "" && qs.FetchFailed? ==> questions == old(questions) && notice == LoadFailed
      ensures selected != "" && qs.Fetched? && qs.data == [] ==> questions == [] && notice == NoQuestions
      ensures selected != "" && qs.Fetched? && qs.data != [] && ans.FetchFailed? ==>
                questions == old(questions) && notice == LoadFailed
      ensures selected != "" && qs.Fetched? && qs.data != [] && ans.Fetched? ==>
                MergedFrom(questions, qs.data, ans.data) && notice == Loaded(|qs.data|)
    {
      version, submitted, score := selected, false, None;
      choices, currentIndex, resultFocus := map[], 0, None;
      if selected == "" {
        questions := [];
        return Cleared;
      }
      if qs.FetchFailed? {
        return LoadFailed;
      }
      if qs.data == [] {
        questions := [];
        return NoQuestions;
      }
      if ans.FetchFailed? {
        return LoadFailed;
      }
      questions := Merge(qs.data, ans.data, roll);
      notice := Loaded(|questions|);
    }

    /** `handleChoose(questionId, answerId)`: ignored after grading. */
    method Choose(questionId: Id, answerId: Id)
      requires Valid()
      modifies this`choices
      ensures Valid()
      ensures old(submitted) ==> choices == old(choices)
      ensures !old(submitted) ==> choices == old(choices)[questionId := answerId]
    {
      if !submitted {
        choices := choices[questionId := answerId];
      }
    }

    /** `goPrev`: one question back, unless on the first. */
    method Prev()
      requires Valid()
      modifies this`currentIndex
      ensures Valid()
      ensures currentIndex == if old(currentIndex) > 0 then old(currentIndex) - 1 else old(currentIndex)
    {
      if currentIndex > 0 {
        currentIndex := currentIndex - 1;
      }
    }

    /** `goNext`: one question on, unless on the last. */
    method Next()
      requires Valid()
      modifies this`currentIndex
      ensures Valid()
      ensures currentIndex == if old(currentIndex) < |questions| - 1 then old(currentIndex) + 1 else old(currentIndex)
    {
      if currentIndex < |questions| - 1 {
        currentIndex := currentIndex + 1;
      }
    }

    /** `handleSubmit`: nothing without questions; with unanswered questions,
        jump to the first of them and grade nothing; otherwise grade and lock. */
    method Submit() returns (notice: SubmitNotice)
      requires Valid()
      modifies this`currentIndex, this`submitted, this`score, this`resultFocus
      ensures Valid()
      ensures old(questions) == [] ==>
                notice == NothingToGrade && currentIndex == old(currentIndex) &&
                submitted == old(submitted) && score == old(score) && resultFocus == old(resultFocus)
      ensures old(questions) != [] && Unanswered(questions, choices) != [] ==>
                && notice == Incomplete(|Unanswered(questions, choices)|)
                && currentIndex < |questions|
                && !IsAnswered(questions[currentIndex], choices)
                && (forall j :: 0 <= j < currentIndex ==> IsAnswered(questions[j], choices))
                && submitted == old(submitted) && score == old(score) && resultFocus == old(resultFocus)
      ensures old(questions) != [] && Unanswered(questions, choices) == [] ==>
                && submitted
                && score == Some(Score(CorrectCount(questions, choices), |questions|))
                && notice == Graded(score.value)
                && resultFocus == FirstFocus(questions)
                && currentIndex == old(currentIndex)
    {
      if questions == [] {
        return NothingToGrade;
      }
      var unanswered := Unanswered(questions, choices);
      if |unanswered| > 0 {
        ShowFirstUnanswered();
        return Incomplete(|unanswered|);
      }
      Grade();
      notice := Graded(score.value);
    }

    /** The guard branch of `handleSubmit`: move to the first unanswered
        question, found by looking its id up with `findIndex`. */
    method ShowFirstUnanswered()
      requires Valid() && Unanswered(questions, choices) != []
      modifies this`currentIndex
      ensures Valid()
      ensures currentIndex < |questions|
      ensures !IsAnswered(questions[currentIndex], choices)
      ensures forall j :: 0 <= j < currentIndex ==> IsAnswered(questions[j], choices)
    {
      var idx := FindIndexById(questions, Unanswered(questions, choices)[0].id);
      FirstUnansweredIndex(questions, choices);
      if idx >= 0 {
        currentIndex := idx;
      }
    }

    /** The grading branch of `handleSubmit`. */
    method Grade()
      requires Valid() && questions != [] && Unanswered(questions, choices) == []
      modifies this`submitted, this`score, this`resultFocus
      ensures Valid()
      ensures submitted && score == Some(Score(CorrectCount(questions, choices), |questions|))
      ensures resultFocus == FirstFocus(questions)
    {
      var correct := CountCorrect(questions, choices);
      score := Some(Score(correct, |questions|));
      submitted := true;
      resultFocus := FirstFocus(questions);
    }

    /** `handleReset`: clear everything, then select the same version again,
        which reshuffles the answers. A failed reload leaves no questions. */
    method Reset(qs: Fetch<seq<QuestionRow>>, ans: Fetch<seq<AnswerRow>>, roll: (nat, nat) -> nat)
      returns (notice: LoadNotice)
      requires Valid()
      modifies this
      ensures Valid()
      ensures version == old(version) && versions == old(versions)
      ensures choices == map[] && currentIndex == 0 && !submitted && score.None? && resultFocus.None?
      ensures old(version) == "" ==> questions == [] && notice == Cleared
      ensures old(version) != "" && (qs.FetchFailed? || (qs.data != [] && ans.FetchFailed?)) ==>
                questions == [] && notice == LoadFailed
      ensures old(version) != "" && qs.Fetched? && qs.data == [] ==> questions == [] && notice == NoQuestions
      ensures old(version) != "" && qs.Fetched? && qs.data != [] && ans.Fetched? ==>
                MergedFrom(questions, qs.data, ans.data) && notice == Loaded(|qs.data|)
    {
      var v := version;
      version, questions, choices := "", [], map[];
      currentIndex, submitted, score, resultFocus := 0, false, None, None;
      notice := SelectVersion(v, qs, ans, roll);
    }
  }


}
