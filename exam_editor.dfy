/** The exam authoring screen (src/components/Test/Test.js): a version list,
    the question list of the chosen version, edited in memory and saved as a
    whole, and the answer list of the selected question. */
module ExamEditor {

  import opened Common
  import opened Seqs
  import opened Text
  import opened VersionList

  /** A cell value of a row as the browser holds it. */
  datatype Scalar = Num(n: int) | Str(s: string) | Flag(b: bool)

  /** A plain object: its own properties and their values. An absent key is
      `undefined`. */
  type Row = map<string, Scalar>

  /** `row.id`: `None` when the row has no `id`. */
  function IdOf(row: Row): Option<Scalar> {
    if "id" in row then Some(row["id"]) else None
  }

  // ---------------------------------------------------------------------
  // Pure pieces of the handlers
  // ---------------------------------------------------------------------

  /** `requiredFields.every((field) => row.hasOwnProperty(field))`. */
  predicate HasFields(row: Row, fields: seq<string>): (b: bool)
    ensures b <==> (set f | f in fields) <= row.Keys
  {
    forall i :: 0 <= i < |fields| ==> fields[i] in row
  }

  const QUESTION_FIELDS: seq<string> := ["question", "etc"]
  const ANSWER_FIELDS: seq<string> := ["answer", "correctYn", "etc"]

  /** `{ ...item, questionId: id }`: every field of the sheet row is kept and
      `questionId` is set; an undefined id leaves no `questionId` behind. */
  function WithQuestionId(item: Row, id: Option<Scalar>): (r: Row)
    ensures forall f :: f != "questionId" ==> (f in r <==> f in item) && (f in item ==> r[f] == item[f])
    ensures id.Some? ==> "questionId" in r && r["questionId"] == id.value
    ensures id.None? ==> "questionId" !in r
  {
    if id.Some? then item["questionId" := id.value] else item - {"questionId"}
  }

  /** `answersToInsert`: the sheet rows, in order, each tagged with the
      selected question's id. */
  function TagAnswers(json: seq<Row>, id: Option<Scalar>): (r: seq<Row>)
    ensures |r| == |json|
    ensures forall i :: 0 <= i < |r| ==> r[i] == WithQuestionId(json[i], id)
  {
    if json == [] then [] else [WithQuestionId(json[0], id)] + TagAnswers(json[1..], id)
  }

  /** Copies `field` of `from` into `to`, or leaves it out when `from` has
      none (JSON drops an `undefined` property). */
  function CopyField(to: Row, from: Row, field: string): Row {
    if field in from then to[field := from[field]] else to
  }

  /** `({ question, etc }) => ({ question, etc, version })`. */
  function SaveRow(q: Row, version: string): (r: Row)
    ensures r.Keys <= {"question", "etc", "version"}
    ensures "version" in r && r["version"] == Str(version)
    ensures forall f :: f == "question" || f == "etc" ==> (f in r <==> f in q) && (f in q ==> r[f] == q[f])
  {
    CopyField(CopyField(map["version" := Str(version)], q, "etc"), q, "question")
  }

  /** `dataToInsert`: one row per question, in order. */
  function SavePayload(questions: seq<Row>, version: string): (r: seq<Row>)
    ensures |r| == |questions|
    ensures forall i :: 0 <= i < |r| ==> r[i] == SaveRow(questions[i], version)
  {
    if questions == [] then [] else [SaveRow(questions[0], version)] + SavePayload(questions[1..], version)
  }

  /** The saved rows carry no id, whether a stored one or a temporary one:
      the backend numbers them afresh, and every row carries the version. */
  lemma SavePayloadDropsIds(questions: seq<Row>, version: string)
    ensures forall r :: r in SavePayload(questions, version) ==> IdOf(r).None? && r["version"] == Str(version)
  {
  }

  /** `answers.filter((a) => a.id !== answerId)`. */
  function KeepsAnswer(answerId: Scalar): Row -> bool {
    (a: Row) => IdOf(a) != Some(answerId)
  }

  function DropAnswer(answers: seq<Row>, answerId: Scalar): (r: seq<Row>)
    ensures |r| <= |answers|
    ensures forall k :: 0 <= k < |r| ==> IdOf(r[k]) != Some(answerId)
  {
    Filter(answers, KeepsAnswer(answerId))
  }

  /** Deleting an answer leaves, in order, exactly the answers with another
      id, and deleting it again changes nothing. */
  lemma DropAnswerExactly(answers: seq<Row>, answerId: Scalar)
    ensures forall a :: a in DropAnswer(answers, answerId) <==> a in answers && IdOf(a) != Some(answerId)
    ensures DropAnswer(DropAnswer(answers, answerId), answerId) == DropAnswer(answers, answerId)
    ensures (forall a :: a in answers ==> IdOf(a) != Some(answerId)) ==> DropAnswer(answers, answerId) == answers
  {
    FilterMembers(answers, KeepsAnswer(answerId));
    FilterTwice(answers, KeepsAnswer(answerId), KeepsAnswer(answerId), KeepsAnswer(answerId));
    if forall a :: a in answers ==> IdOf(a) != Some(answerId) {
      FilterAll(answers, KeepsAnswer(answerId));
    }
  }

  /** `questions.filter((_, i) => i !== index)`. */
  function RemoveAt(s: seq<Row>, index: nat): (r: seq<Row>)
    requires index < |s|
    ensures |r| == |s| - 1
    ensures forall j :: 0 <= j < index ==> r[j] == s[j]
    ensures forall j :: index <= j < |r| ==> r[j] == s[j + 1]
    ensures multiset(r) + multiset{s[index]} == multiset(s)
  {
    assert s == s[..index] + [s[index]] + s[index + 1..];
    s[..index] + s[index + 1..]
  }

  /** The value of one decimal digit character. */
  function DigitValue(c: char): nat {
    if '0' <= c <= '9' then c as int - '0' as int else 0
  }

  /** The number a string of decimal digits denotes. */
  function DigitsValue(s: string): nat {
    if s == [] then 0 else 10 * DigitsValue(s[..|s| - 1]) + DigitValue(s[|s| - 1])
  }

  /** The decimal digits of `n`, as `String(n)` writes them: digits only,
      no leading zero, and denoting `n`. */
  function Decimal(n: nat): (r: string)
    ensures r != []
    ensures forall i :: 0 <= i < |r| ==> '0' <= r[i] <= '9'
    ensures n < 10 <==> |r| == 1
    ensures |r| > 1 ==> r[0] != '0'
    ensures DigitsValue(r) == n
  {
    if n < 10 then [(48 + n) as char]
    else
      var d := Decimal(n / 10);
      var r := d + [(48 + n % 10) as char];
      assert r[..|r| - 1] == d;
      r
  }

  /** Different numbers are written differently. */
  lemma DecimalInjective(m: nat, n: nat)
    requires Decimal(m) == Decimal(n)
    ensures m == n
  {
  }

  /** `` `temp-${Date.now()}` ``, with the clock reading passed in. */
  function TempId(stamp: nat): (r: Scalar)
    ensures r.Str? && |r.s| > 5 && r.s[..5] == "temp-"
    ensures forall i :: 5 <= i < |r.s| ==> '0' <= r.s[i] <= '9'
    ensures DigitsValue(r.s[5..]) == stamp
  {
    var d := Decimal(stamp);
    assert ("temp-" + d)[5..] == d;
    Str("temp-" + d)
  }

  /** Temporary ids made at different instants differ, and none can equal a
      numeric id from the backend. */
  lemma TempIdsDistinct(s1: nat, s2: nat, backendId: int)
    ensures s1 != s2 ==> TempId(s1) != TempId(s2)
    ensures TempId(s1) != Num(backendId)
  {
    if TempId(s1) == TempId(s2) {
      var a, b := "temp-" + Decimal(s1), "temp-" + Decimal(s2);
      assert a[5..] == Decimal(s1) && b[5..] == Decimal(s2);
      DecimalInjective(s1, s2);
    }
  }

  /** The text inputs of the "add question" and "add answer" forms. */
  datatype QuestionDraft = QuestionDraft(question: string, etc: string)
  datatype AnswerDraft = AnswerDraft(answer: string, correctYn: bool, etc: string)

  const BLANK_QUESTION := QuestionDraft("", "")
  const BLANK_ANSWER := AnswerDraft("", false, "")

  /** `{ ...newQuestion, id }`. */
  function DraftRow(draft: QuestionDraft, id: Scalar): (r: Row)
    ensures r.Keys == {"question", "etc", "id"} && IdOf(r) == Some(id)
    ensures r["question"] == Str(draft.question) && r["etc"] == Str(draft.etc)
  {
    map["question" := Str(draft.question), "etc" := Str(draft.etc), "id" := id]
  }

  /** `{ ...newAnswer, questionId }`. */
  function AnswerDraftRow(draft: AnswerDraft, questionId: Option<Scalar>): (r: Row)
    ensures r.Keys - {"questionId"} == {"answer", "correctYn", "etc"}
    ensures r["answer"] == Str(draft.answer) && r["correctYn"] == Flag(draft.correctYn) && r["etc"] == Str(draft.etc)
    ensures questionId.Some? <==> "questionId" in r
    ensures questionId.Some? ==> r["questionId"] == questionId.value
  {
    WithQuestionId(map["answer" := Str(draft.answer), "correctYn" := Flag(draft.correctYn), "etc" := Str(draft.etc)],
                   questionId)
  }

  /** Why a handler declined to act. */
  datatype Reason =
    | NoVersion | NoQuestions | EmptySheet | MissingField | NoSelection | EmptyAnswer | EmptyQuestion

  /** What a handler reports: done, declined by a guard, or a backend error. */
  datatype Notice = Done | Rejected(reason: Reason) | Failed

  // ---------------------------------------------------------------------
  // The editor's state
  // ---------------------------------------------------------------------

  class Editor {
    var version: string
    var versions: seq<string>
    var questions: seq<Row>
    var selected: Option<Row>
    var answers: seq<Row>
    var newQuestion: QuestionDraft
    var newAnswer: AnswerDraft

    /** The version list is sorted without duplicates, and answers are only
        listed while a question is selected. */
    ghost predicate Valid()
      reads this
    {
      && StrictlySorted(versions)
      && (selected.None? ==> answers == [])
    }

    /** The `useState` initial values. */
    constructor ()
      ensures Valid()
      ensures version == "" && versions == [] && questions == [] && selected.None? && answers == []
      ensures newQuestion == BLANK_QUESTION && newAnswer == BLANK_ANSWER
    {
      version, versions, questions, selected, answers := "", [], [], None, [];
      newQuestion, newAnswer := BLANK_QUESTION, BLANK_ANSWER;
    }

    /** `fetchVersions()`: the distinct versions of all questions, sorted; a
        failed query leaves the list as it was. */
    method LoadVersions(fetched: Fetch<seq<string>>)
      requires Valid()
      modifies this`versions
      ensures Valid()
      ensures fetched.Fetched? ==> versions == UniqueSorted(fetched.data)
      ensures fetched.Fetched? ==> forall v :: v in versions <==> v in fetched.data
      ensures fetched.FetchFailed? ==> versions == old(versions)
    {
      if fetched.Fetched? {
        versions := UniqueSorted(fetched.data);
      }
    }

    /** The version text box: only the version changes. */
    method TypeVersion(text: string)
      requires Valid()
      modifies this`version
      ensures Valid() && version == text
    {
      version := text;
    }

    /** `handleVersionSelect(selectedVersion)`: the selection and answers are
        cleared; an empty version empties the questions, otherwise they are
        replaced by the fetched ones, or kept when the query fails. */
    method SelectVersion(selectedVersion: string, fetched: Fetch<seq<Row>>) returns (notice: Notice)
      requires Valid()
      modifies this`version, this`selected, this`answers, this`questions
      ensures Valid()
      ensures version == selectedVersion && selected.None? && answers == []
      ensures selectedVersion == "" ==> questions == [] && notice == Done
      ensures selectedVersion != "" && fetched.Fetched? ==> questions == fetched.data && notice == Done
      ensures selectedVersion != "" && fetched.FetchFailed? ==> questions == old(questions) && notice == Failed
    {
      version := selectedVersion;
      selected := None;
      answers := [];
      if selectedVersion == "" {
        questions := [];
        return Done;
      }
      if fetched.FetchFailed? {
        return Failed;
      }
      questions := fetched.data;
      notice := Done;
    }

    /** `handleQuestionSelect(question)`: the question becomes the selection
        and its answers are fetched; on failure the previous answers stay. */
    method SelectQuestion(question: Row, fetched: Fetch<seq<Row>>) returns (notice: Notice)
      requires Valid()
      modifies this`selected, this`answers
      ensures Valid()
      ensures selected == Some(question)
      ensures fetched.Fetched? ==> answers == fetched.data && notice == Done
      ensures fetched.FetchFailed? ==> answers == old(answers) && notice == Failed
    {
      selected := Some(question);
      if fetched.FetchFailed? {
        return Failed;
      }
      answers := fetched.data;
      notice := Done;
    }

    /** `handleExcelUpload(file, "question")`: an empty sheet or a first row
        without `question` and `etc` is refused; otherwise the rows are
        appended after the current questions. */
    method UploadQuestions(json: seq<Row>) returns (notice: Notice)
      requires Valid()
      modifies this`questions
      ensures Valid()
      ensures json == [] ==> notice == Rejected(EmptySheet)
      ensures json != [] && !HasFields(json[0], QUESTION_FIELDS) ==> notice == Rejected(MissingField)
      ensures notice == Done <==> json != [] && HasFields(json[0], QUESTION_FIELDS)
      ensures notice == Done ==> questions == old(questions) + json
      ensures notice != Done ==> questions == old(questions)
    {
      if json == [] {
        return Rejected(EmptySheet);
      }
      if !HasFields(json[0], QUESTION_FIELDS) {
        return Rejected(MissingField);
      }
      questions := questions + json;
      notice := Done;
    }

    /** `handleExcelUpload(file, "answer")`: refused for an empty sheet, when
        no question is selected, or when the first row lacks `answer`,
        `correctYn` or `etc`; otherwise every row, tagged with the selected
        question's id, is sent, and the rows the backend returns are
        appended. `sent` is what goes to the backend. */
    method UploadAnswers(json: seq<Row>, inserted: Fetch<seq<Row>>) returns (notice: Notice, sent: seq<Row>)
      requires Valid()
      modifies this`answers
      ensures Valid()
      ensures json == [] ==> notice == Rejected(EmptySheet)
      ensures json != [] && selected.None? ==> notice == Rejected(NoSelection)
      ensures json != [] && selected.Some? && !HasFields(json[0], ANSWER_FIELDS) ==> notice == Rejected(MissingField)
      ensures notice.Rejected? <==> sent == []
      ensures !notice.Rejected? <==> json != [] && selected.Some? && HasFields(json[0], ANSWER_FIELDS)
      ensures !notice.Rejected? ==> sent == TagAnswers(json, IdOf(selected.value))
      ensures notice == Done <==> !notice.Rejected? && inserted.Fetched?
      ensures notice == Done ==> answers == old(answers) + inserted.data
      ensures notice != Done ==> answers == old(answers)
    {
      sent := [];
      if json == [] {
        return Rejected(EmptySheet), sent;
      }
      if selected.None? {
        return Rejected(NoSelection), sent;
      }
      if !HasFields(json[0], ANSWER_FIELDS) {
        return Rejected(MissingField), sent;
      }
      sent := TagAnswers(json, IdOf(selected.value));
      if inserted.FetchFailed? {
        return Failed, sent;
      }
      answers := answers + inserted.data;
      notice := Done;
    }

    /** `handleSave()`: refused without a version or without questions;
        otherwise the payload is sent and, when the insert succeeds, the
        version joins the list (sorted, once) and the version is selected
        again to fetch the stored questions. `sent` is the payload. */
    method Save(insertOk: bool, refetched: Fetch<seq<Row>>) returns (notice: Notice, sent: seq<Row>)
      requires Valid()
      modifies this`versions, this`version, this`selected, this`answers, this`questions
      ensures Valid()
      ensures old(version) == "" ==> notice == Rejected(NoVersion)
      ensures old(version) != "" && old(questions) == [] ==> notice == Rejected(NoQuestions)
      ensures notice.Rejected? <==> old(version) == "" || old(questions) == []
      ensures !notice.Rejected? ==> sent == SavePayload(old(questions), old(version))
      ensures notice != Done ==>
                versions == old(versions) && questions == old(questions) && selected == old(selected)
                && answers == old(answers)
      ensures notice == Done <==> !notice.Rejected? && insertOk
      ensures notice == Done ==> versions == AddVersion(old(versions), old(version))
      ensures notice == Done ==> forall v :: v in versions <==> v in old(versions) || v == old(version)
      ensures notice == Done ==> selected.None? && answers == []
      ensures notice == Done && refetched.Fetched? ==> questions == refetched.data
      ensures notice == Done && refetched.FetchFailed? ==> questions == old(questions)
      ensures version == old(version)
    {
      sent := [];
      if version == "" {
        return Rejected(NoVersion), sent;
      }
      if questions == [] {
        return Rejected(NoQuestions), sent;
      }
      sent := SavePayload(questions, version);
      if !insertOk {
        return Failed, sent;
      }
      Saved(refetched);
      notice := Done;
    }

    /** What `handleSave` does after a successful insert: the version joins
        the list unless listed, then it is selected again. */
    method Saved(refetched: Fetch<seq<Row>>)
      requires Valid() && version != ""
      modifies this`versions, this`version, this`selected, this`answers, this`questions
      ensures Valid()
      ensures versions == AddVersion(old(versions), old(version))
      ensures forall v :: v in versions <==> v in old(versions) || v == old(version)
      ensures version == old(version) && selected.None? && answers == []
      ensures refetched.Fetched? ==> questions == refetched.data
      ensures refetched.FetchFailed? ==> questions == old(questions)
    {
      AddVersionKeepsListShape(versions, version);
      if version !in versions {
        versions := Sort(versions + [version]);
      }
      var _ := SelectVersion(version, refetched);
    }

    /** The "add answer" form's inputs. */
    method TypeAnswer(draft: AnswerDraft)
      requires Valid()
      modifies this`newAnswer
      ensures Valid() && newAnswer == draft
    {
      newAnswer := draft;
    }

    /** `handleAddAnswer()`: refused without a selection or with empty answer
        text (white space counts as text); otherwise the draft is sent with
        the question's id, and on success the returned rows are appended and
        the form is cleared. */
    method AddAnswer(inserted: Fetch<seq<Row>>) returns (notice: Notice, sent: seq<Row>)
      requires Valid()
      modifies this`answers, this`newAnswer
      ensures Valid()
      ensures selected.None? ==> notice == Rejected(NoSelection)
      ensures selected.Some? && old(newAnswer).answer == "" ==> notice == Rejected(EmptyAnswer)
      ensures notice.Rejected? <==> selected.None? || old(newAnswer).answer == ""
      ensures !notice.Rejected? ==> sent == [AnswerDraftRow(old(newAnswer), IdOf(selected.value))]
      ensures notice.Rejected? ==> sent == []
      ensures notice == Done <==> !notice.Rejected? && inserted.Fetched?
      ensures notice == Done ==> answers == old(answers) + inserted.data && newAnswer == BLANK_ANSWER
      ensures notice != Done ==> answers == old(answers) && newAnswer == old(newAnswer)
    {
      sent := [];
      if selected.None? {
        return Rejected(NoSelection), sent;
      }
      if newAnswer.answer == "" {
        return Rejected(EmptyAnswer), sent;
      }
      sent := [AnswerDraftRow(newAnswer, IdOf(selected.value))];
      if inserted.FetchFailed? {
        return Failed, sent;
      }
      answers := answers + inserted.data;
      newAnswer := BLANK_ANSWER;
      notice := Done;
    }

    /** `handleDeleteAnswer(answerId)`: when the backend delete succeeds,
        every listed answer with that id goes and the rest stay in order. */
    method DeleteAnswer(answerId: Scalar, deleteOk: bool) returns (notice: Notice)
      requires Valid()
      modifies this`answers
      ensures Valid()
      ensures deleteOk ==> notice == Done && answers == DropAnswer(old(answers), answerId)
      ensures deleteOk ==> forall a :: a in answers <==> a in old(answers) && IdOf(a) != Some(answerId)
      ensures !deleteOk ==> notice == Failed && answers == old(answers)
    {
      if !deleteOk {
        return Failed;
      }
      DropAnswerExactly(answers, answerId);
      answers := DropAnswer(answers, answerId);
      notice := Done;
    }

    /** The "add question" form's inputs. */
    method TypeQuestion(draft: QuestionDraft)
      requires Valid()
      modifies this`newQuestion
      ensures Valid() && newQuestion == draft
    {
      newQuestion := draft;
    }

    /** `handleAddQuestion()`: refused when the text is empty or only white
        space; otherwise exactly one row, with a temporary id made from the
        clock reading `stamp`, goes at the end and the form is cleared. */
    method AddQuestion(stamp: nat) returns (notice: Notice)
      requires Valid()
      modifies this`questions, this`newQuestion
      ensures Valid()
      ensures notice == Done <==> Trim(old(newQuestion).question) != ""
      ensures notice != Done ==> notice == Rejected(EmptyQuestion) && questions == old(questions) && newQuestion == old(newQuestion)
      ensures notice == Done ==> questions == old(questions) + [DraftRow(old(newQuestion), TempId(stamp))]
      ensures notice == Done ==> newQuestion == BLANK_QUESTION
    {
      if Trim(newQuestion.question) == "" {
        return Rejected(EmptyQuestion);
      }
      questions := questions + [DraftRow(newQuestion, TempId(stamp))];
      newQuestion := BLANK_QUESTION;
      notice := Done;
    }

    /** `handleDeleteQuestion(index)`: exactly that row leaves the list; the
        selection and its answers are cleared iff the deleted row's id equals
        the selected one's (two rows without an id count as equal). */
    method DeleteQuestion(index: nat)
      requires Valid()
      requires index < |questions|
      modifies this`questions, this`selected, this`answers
      ensures Valid()
      ensures questions == RemoveAt(old(questions), index)
      ensures |questions| == |old(questions)| - 1
      ensures old(selected).Some? && IdOf(old(selected).value) == IdOf(old(questions)[index]) ==>
                selected.None? && answers == []
      ensures !(old(selected).Some? && IdOf(old(selected).value) == IdOf(old(questions)[index])) ==>
                selected == old(selected) && answers == old(answers)
    {
      var doomed := questions[index];
      if selected.Some? && IdOf(selected.value) == IdOf(doomed) {
        selected := None;
        answers := [];
      }
      questions := RemoveAt(questions, index);
    }
  }

}
