/**
  The test service (src/modules/test/test.service.ts): assigning a subject
  to a candidate, handing out its questions in random order, scoring a
  submission, reassigning a test, and the filter of the listing of tests
  that can be reassigned.
 */
module TestService {
  import opened Wrappers
  import opened Tables
  import opened Store
  import opened Bank
  import opened Utils
  import opened Text
  import opened Shuffle
  import opened TestRepository
  import opened AuthRepository
  import AuthService

  const TEST_NOT_FOUND: string := "Test not found"
  const USER_NOT_FOUND: string := "User not found"
  const NOT_YET_COMPLETED: string := "The user has not yet completed the assigned test."
  const ALREADY_ASSIGNED: string := "The subject has already been assigned to  the user."
  const ALREADY_SUBMITTED: string := "The test has already been submitted."
  const USER_WITH_TEST_NOT_FOUND: string := "User associated with that test not found."
  const TEST_NOT_YET_TAKEN: string := "Test not yet taken"
  const ALREADY_COMPLETED: string := "The user has already completed the test."
  const LIMIT_EXCEEDED: string := "The user has exceeded the limit of attending the test. Cannot reassign."

  /** Most unfinished attempts a pair may have and still be reassigned. */
  const MAX_ATTEMPTS: int := 10

  /**
    Stand-in for the store's own message when it refuses a non-finite
    percentage; the text of that message is not part of this model.
   */
  const STORE_REJECTED: string := "Invalid value for percentage"

  // ------------------------------------------------------------------ assign

  /** A pending test blocks a new assignment unless its start flag is false. */
  predicate BlocksAssignment(pending: Option<Detail>)
  {
    pending.Some? && pending.value.isStart != Some(false)
  }

  /** The guards of `assignTest`, in order; `None` when the assignment may go ahead. */
  function AssignCheck(subjects: seq<Subject>, users: seq<User>, details: seq<Detail>, userId: int, subjectId: int): (r: Option<HttpError>)
    ensures FindTestById(subjects, subjectId).None? ==> r == Some(NotFound(TEST_NOT_FOUND))
    ensures FindTestById(subjects, subjectId).Some? && FindUserById(users, userId).None? ==>
              r == Some(NotFound(USER_NOT_FOUND))
    ensures FindTestById(subjects, subjectId).Some? && FindUserById(users, userId).Some? &&
            BlocksAssignment(FindTestStatus(details, userId)) ==>
              r == Some(BadRequest(NOT_YET_COMPLETED))
    ensures FindTestById(subjects, subjectId).Some? && FindUserById(users, userId).Some? &&
            !BlocksAssignment(FindTestStatus(details, userId)) && IsTestAssignedAlready(details, userId, subjectId) ==>
              r == Some(BadRequest(ALREADY_ASSIGNED))
    ensures r.None? <==>
              (exists i :: 0 <= i < |subjects| && subjects[i].id == subjectId && subjects[i].isActive) &&
              (exists i :: 0 <= i < |users| && users[i].id == userId && users[i].isActive && users[i].roleId == USER) &&
              !BlocksAssignment(FindTestStatus(details, userId)) &&
              forall i :: 0 <= i < |details| ==> !(details[i].userId == userId && details[i].subjectId == subjectId)
  {
    if FindTestById(subjects, subjectId).None? then Some(NotFound(TEST_NOT_FOUND))
    else if FindUserById(users, userId).None? then Some(NotFound(USER_NOT_FOUND))
    else if BlocksAssignment(FindTestStatus(details, userId)) then Some(BadRequest(NOT_YET_COMPLETED))
    else if IsTestAssignedAlready(details, userId, subjectId) then Some(BadRequest(ALREADY_ASSIGNED))
    else None
  }

  /** `assignTest`: the guards, then one new row for the pair. */
  method AssignTest(db: Db, userId: int, subjectId: int) returns (r: Outcome<HttpError>)
    modifies db`details
    ensures AssignCheck(old(db.subjects), old(db.users), old(db.details), userId, subjectId).Some? ==>
              r == Fail(AssignCheck(old(db.subjects), old(db.users), old(db.details), userId, subjectId).value) &&
              db.details == old(db.details)
    ensures AssignCheck(old(db.subjects), old(db.users), old(db.details), userId, subjectId).None? ==>
              r == Pass &&
              db.details == old(db.details) + [NewDetail(userId, subjectId, db.defaultIsStart, DEFAULT_REASSIGN_COUNT)]
  {
    var test := FindTestById(db.subjects, subjectId);
    if test.None? {
      return Fail(NotFound(TEST_NOT_FOUND));
    }
    var user := FindUserById(db.users, userId);
    if user.None? {
      return Fail(NotFound(USER_NOT_FOUND));
    }
    var status := FindTestStatus(db.details, user.value.id);
    if BlocksAssignment(status) {
      return Fail(BadRequest(NOT_YET_COMPLETED));
    }
    if IsTestAssignedAlready(db.details, userId, subjectId) {
      return Fail(BadRequest(ALREADY_ASSIGNED));
    }
    TestRepository.AssignTest(db, userId, subjectId);
    r := Pass;
  }

  /** A successful assignment keeps the row invariants. */
  lemma AssignmentKeepsConsistent(subjects: seq<Subject>, users: seq<User>, details: seq<Detail>,
                                  userId: int, subjectId: int, isStart: Option<bool>)
    requires Consistent(details)
    requires AssignCheck(subjects, users, details, userId, subjectId).None?
    ensures Consistent(details + [NewDetail(userId, subjectId, isStart, DEFAULT_REASSIGN_COUNT)])
  {
    AssignKeepsConsistent(details, userId, subjectId, isStart);
  }

  /** Once assigned, the same subject cannot be assigned to the same user again. */
  lemma NoSecondAssignment(subjects: seq<Subject>, users: seq<User>, details: seq<Detail>,
                           userId: int, subjectId: int, isStart: Option<bool>)
    ensures AssignCheck(subjects, users, details + [NewDetail(userId, subjectId, isStart, DEFAULT_REASSIGN_COUNT)],
                        userId, subjectId).Some?
  {
    var d := details + [NewDetail(userId, subjectId, isStart, DEFAULT_REASSIGN_COUNT)];
    assert d[|details|].userId == userId && d[|details|].subjectId == subjectId;
  }

  /** A pending test whose start flag is false does not block assigning another subject. */
  lemma UnstartedPendingTestDoesNotBlock(subjects: seq<Subject>, users: seq<User>, details: seq<Detail>,
                                         userId: int, subjectId: int)
    requires FindTestById(subjects, subjectId).Some? && FindUserById(users, userId).Some?
    requires FindTestStatus(details, userId).Some? && FindTestStatus(details, userId).value.isStart == Some(false)
    requires !IsTestAssignedAlready(details, userId, subjectId)
    ensures AssignCheck(subjects, users, details, userId, subjectId).None?
  {
  }

  // ---------------------------------------------------------------- hand-out

  /** The questions handed to a candidate, with the subject they belong to. */
  datatype Handout = Handout(subjectId: int, questionsWithOptions: seq<QuestionView>)

  /** Each question's options shuffled with that question's own choices. */
  function ShuffleOptions(qs: seq<QuestionView>, optionPicks: seq<seq<nat>>): (r: seq<QuestionView>)
    requires |optionPicks| == |qs|
    requires forall k :: 0 <= k < |qs| ==> ValidPicks(optionPicks[k], |qs[k].options|)
    ensures |r| == |qs|
    ensures forall k :: 0 <= k < |qs| ==> r[k].id == qs[k].id && r[k].text == qs[k].text
  {
    seq(|qs|, k requires 0 <= k < |qs| => qs[k].(options := Shuffled(qs[k].options, optionPicks[k])))
  }

  /** Random choices for shuffling the questions and then each shuffled question's options. */
  predicate ValidHandOutPicks(fetched: seq<QuestionView>, questionPicks: seq<nat>, optionPicks: seq<seq<nat>>)
  {
    ValidPicks(questionPicks, |fetched|) && |optionPicks| == |fetched| &&
    forall k :: 0 <= k < |fetched| ==> ValidPicks(optionPicks[k], |Shuffled(fetched, questionPicks)[k].options|)
  }

  /** The questions in shuffled order, each with its options shuffled. */
  function HandOut(fetched: seq<QuestionView>, questionPicks: seq<nat>, optionPicks: seq<seq<nat>>): seq<QuestionView>
    requires ValidHandOutPicks(fetched, questionPicks, optionPicks)
  {
    ShuffleOptions(Shuffled(fetched, questionPicks), optionPicks)
  }

  /** What a question is, whatever the order of its options. */
  datatype QuestionContent = QuestionContent(id: int, text: string, options: multiset<OptionView>)

  function Content(q: QuestionView): QuestionContent
  {
    QuestionContent(q.id, q.text, multiset(q.options))
  }

  /**
    The hand-out is a permutation of the fetched questions, each keeping its
    id, its text and its options up to order, whatever the random choices.
   */
  lemma HandOutPermutes(fetched: seq<QuestionView>, questionPicks: seq<nat>, optionPicks: seq<seq<nat>>)
    requires ValidHandOutPicks(fetched, questionPicks, optionPicks)
    ensures |HandOut(fetched, questionPicks, optionPicks)| == |fetched|
    ensures multiset(Map(HandOut(fetched, questionPicks, optionPicks), Content)) == multiset(Map(fetched, Content))
  {
    var t := Shuffled(fetched, questionPicks);
    var h := HandOut(fetched, questionPicks, optionPicks);
    forall k | 0 <= k < |t|
      ensures Content(h[k]) == Content(t[k])
    {
      ShuffledPermutes(t[k].options, optionPicks[k]);
    }
    assert Map(h, Content) == Map(t, Content);
    ShuffledMap(fetched, Content, questionPicks);
    ShuffledPermutes(Map(fetched, Content), questionPicks);
  }

  /** One question with its options shuffled in place through an array. */
  method ShuffleQuestionOptions(q: QuestionView, picks: seq<nat>) returns (r: QuestionView)
    requires ValidPicks(picks, |q.options|)
    ensures r == q.(options := Shuffled(q.options, picks))
    ensures multiset(r.options) == multiset(q.options)
  {
    var opts := new OptionView[|q.options|](i requires 0 <= i < |q.options| => q.options[i]);
    assert opts[..] == q.options;
    ShuffleArray(opts, picks);
    r := q.(options := opts[..]);
  }

  /** The loop of `startTest` that shuffles the options of every question. */
  method ShuffleEachQuestion(a: array<QuestionView>, optionPicks: seq<seq<nat>>)
    requires |optionPicks| == a.Length
    requires forall k :: 0 <= k < a.Length ==> ValidPicks(optionPicks[k], |a[k].options|)
    modifies a
    ensures a[..] == ShuffleOptions(old(a[..]), optionPicks)
  {
    ghost var before := a[..];
    for k := 0 to a.Length
      invariant forall j :: 0 <= j < k ==> a[j] == before[j].(options := Shuffled(before[j].options, optionPicks[j]))
      invariant forall j :: k <= j < a.Length ==> a[j] == before[j]
    {
      a[k] := ShuffleQuestionOptions(a[k], optionPicks[k]);
    }
    assert forall j :: 0 <= j < a.Length ==> a[..][j] == ShuffleOptions(before, optionPicks)[j];
  }

  /**
    `startTest`: the candidate's first active row names the subject; its
    active questions are shuffled in place, then each question's options.
   */
  method StartTest(db: Db, userId: int, questionPicks: seq<nat>, optionPicks: seq<seq<nat>>) returns (r: Result<Handout, HttpError>)
    requires FindSubjectByUserId(db.details, userId).Some? ==>
               ValidHandOutPicks(FetchQuestions(db.questions, db.options, FindSubjectByUserId(db.details, userId).value.subjectId),
                                 questionPicks, optionPicks)
    ensures FindSubjectByUserId(db.details, userId).None? ==> r == Err(BadRequest(USER_NOT_FOUND))
    ensures FindSubjectByUserId(db.details, userId).Some? ==>
              var subjectId := FindSubjectByUserId(db.details, userId).value.subjectId;
              r == Ok(Handout(subjectId, HandOut(FetchQuestions(db.questions, db.options, subjectId), questionPicks, optionPicks)))
  {
    var found := FindSubjectByUserId(db.details, userId);
    if found.None? {
      return Err(BadRequest(USER_NOT_FOUND));
    }
    var questions := FetchQuestions(db.questions, db.options, found.value.subjectId);
    var a := new QuestionView[|questions|](k requires 0 <= k < |questions| => questions[k]);
    assert a[..] == questions;
    ShuffleArray(a, questionPicks);
    ShuffleEachQuestion(a, optionPicks);
    r := Ok(Handout(found.value.subjectId, a[..]));
  }

  // ------------------------------------------------------------------ scoring

  /** One submitted answer: the option chosen for a question. */
  datatype Answer = Answer(questionId: int, optionId: int)

  /**
    Whether an answer scores: the named question is active and the chosen
    option is the first of its active, correct options.
   */
  predicate IsCorrect(questions: seq<Question>, options: seq<AnswerOption>, a: Answer)
  {
    match FindQuestionWithCorrectOption(questions, options, a.questionId)
    case None => false
    case Some(q) => |q.options| > 0 && a.optionId == q.options[0].id && q.options[0].isCorrect
  }

  /**
    An answer scores exactly when an active question has its id and the
    first active, correct option in the option table is the chosen one.
   */
  lemma IsCorrectMeaning(questions: seq<Question>, options: seq<AnswerOption>, a: Answer)
    ensures IsCorrect(questions, options, a) <==>
              FindQuestionWithCorrectOption(questions, options, a.questionId).Some? &&
              First(options, ActiveCorrectOptionOf(a.questionId)).Some? &&
              options[First(options, ActiveCorrectOptionOf(a.questionId)).value].id == a.optionId
  {
    if Count(options, ActiveCorrectOptionOf(a.questionId)) > 0 {
      FilterHeadIsFirst(options, ActiveCorrectOptionOf(a.questionId));
    }
  }

  function CorrectAnswer(questions: seq<Question>, options: seq<AnswerOption>): Answer -> bool
  {
    (a: Answer) => IsCorrect(questions, options, a)
  }

  /** The mark of a submission: the number of its answers that score. */
  function Mark(questions: seq<Question>, options: seq<AnswerOption>, answers: seq<Answer>): (m: nat)
    ensures m <= |answers|
    ensures m == 0 <==> forall k :: 0 <= k < |answers| ==> !IsCorrect(questions, options, answers[k])
  {
    Count(answers, CorrectAnswer(questions, options))
  }

  /** The scoring loop of `evaluateTest`. */
  method ScoreAnswers(questions: seq<Question>, options: seq<AnswerOption>, answers: seq<Answer>) returns (mark: nat)
    ensures mark == Mark(questions, options, answers)
  {
    var correct := CorrectAnswer(questions, options);
    mark := 0;
    for k := 0 to |answers|
      invariant mark == Count(answers[..k], correct)
    {
      if correct(answers[k]) {
        mark := mark + 1;
      }
      CountPrefix(answers, k, correct);
    }
    assert answers[..|answers|] == answers;
  }

  /** An answer naming no active question adds nothing to the mark. */
  lemma UnknownQuestionScoresNothing(questions: seq<Question>, options: seq<AnswerOption>, answers: seq<Answer>, a: Answer)
    requires forall i :: 0 <= i < |questions| ==> !(questions[i].id == a.questionId && questions[i].isActive)
    ensures Mark(questions, options, answers + [a]) == Mark(questions, options, answers)
  {
    CountAppend(answers, a, CorrectAnswer(questions, options));
  }

  /**
    The mark counts answers, not questions: the same right answer given
    twice scores twice, above the subject's question count.
   */
  lemma MarkCanExceedTotal()
    ensures var questions := [Question(1, 1, "q", true)];
      var options := [AnswerOption(7, 1, "a", true, true)];
      Mark(questions, options, [Answer(1, 7), Answer(1, 7)]) == 2 &&
      |ActiveQuestions(questions, 1)| == 1
  {
    var questions := [Question(1, 1, "q", true)];
    var options := [AnswerOption(7, 1, "a", true, true)];
    var answers := [Answer(1, 7), Answer(1, 7)];
    assert IsCorrect(questions, options, Answer(1, 7));
    CountAppend([Answer(1, 7)], Answer(1, 7), CorrectAnswer(questions, options));
    CountAppend([], Answer(1, 7), CorrectAnswer(questions, options));
    assert [] + [Answer(1, 7)] == [Answer(1, 7)];
    assert [Answer(1, 7)] + [Answer(1, 7)] == answers;
    assert Count(questions, ActiveQuestionOfSubject(1)) == 1 by {
      CountAppend([], questions[0], ActiveQuestionOfSubject(1));
      assert [] + [questions[0]] == questions;
    }
  }

  /**
    Nothing bounds the stored percentage by 100: on a one-question subject,
    the right answer given twice passes every guard of `evaluateTest` and
    the finished row records 200.
   */
  lemma PercentageCanExceedHundred()
    ensures var subjects := [Subject(1, "s", true)];
      var users := [User(5, "a", "b", "a@b.c", "9000000000", USER, true, None)];
      var questions := [Question(1, 1, "q", true)];
      var options := [AnswerOption(7, 1, "a", true, true)];
      var details := [NewDetail(5, 1, Some(true), 0)];
      var mark := Mark(questions, options, [Answer(1, 7), Answer(1, 7)]);
      var total := Count(questions, ActiveQuestionOfSubject(1));
      var percentage := Percentage(RoundedRatio(mark, total));
      EvaluateCheck(subjects, users, details, 5, 1).None? &&
      percentage == Finite(200) &&
      var finished := FinishActive(details, 5, 1, ScoreText(mark, total), percentage.value)[0];
      finished.isFinish && finished.percentage == Some(200)
  {
    var subjects := [Subject(1, "s", true)];
    var users := [User(5, "a", "b", "a@b.c", "9000000000", USER, true, None)];
    var details := [NewDetail(5, 1, Some(true), 0)];
    assert EvaluateCheck(subjects, users, details, 5, 1).None? by {
      assert subjects[0].id == 1 && subjects[0].isActive;
      assert users[0].id == 5 && users[0].isActive && users[0].roleId == USER;
      assert !details[0].isFinish;
    }
    var questions := [Question(1, 1, "q", true)];
    var options := [AnswerOption(7, 1, "a", true, true)];
    var mark := Mark(questions, options, [Answer(1, 7), Answer(1, 7)]);
    var total := Count(questions, ActiveQuestionOfSubject(1));
    assert mark == 2 && total == 1 by {
      MarkCanExceedTotal();
    }
    assert Percentage(RoundedRatio(mark, total)) == Finite(200) by {
      assert RoundedRatio(2, 1) == Finite(200);
    }
  }

  /** The score text, `${mark} / ${total}`. */
  function ScoreText(mark: nat, total: nat): string
  {
    DecimalText(mark) + " / " + DecimalText(total)
  }

  /** Reads a score text back into its mark and total. */
  function ParseScore(s: string): Option<(nat, nat)>
  {
    var parts := Split(s, ' ');
    if |parts| == 3 && parts[1] == "/" && AllDigits(parts[0]) && AllDigits(parts[2])
    then Some((ParseDecimal(parts[0]), ParseDecimal(parts[2])))
    else None
  }

  /** The score text holds the mark and the total and nothing else. */
  lemma ScoreTextParses(mark: nat, total: nat)
    ensures ParseScore(ScoreText(mark, total)) == Some((mark, total))
  {
    var m := DecimalText(mark);
    var t := DecimalText(total);
    assert ' ' !in m && ' ' !in t && ' ' !in "/";
    assert ScoreText(mark, total) == m + [' '] + ("/" + [' '] + t);
    SplitAtFirst(m, ' ', "/" + [' '] + t);
    SplitAtFirst("/", ' ', t);
    SplitWithoutSeparator(t, ' ');
    ParseDecimalText(mark);
    ParseDecimalText(total);
  }

  /** A number as JavaScript computes it here: finite, or the two results of dividing by zero. */
  datatype JsNumber = Finite(value: int) | NaN | Infinity

  /**
    `Math.round(mark / total * 100)`, the division taken exactly: the
    nearest integer to the percentage, halves rounded up.
   */
  function RoundedRatio(mark: nat, total: nat): (r: JsNumber)
    ensures total > 0 ==> r.Finite? && r.value >= 0 &&
                          2 * total * r.value <= 200 * mark + total < 2 * total * (r.value + 1)
    ensures total == 0 && mark == 0 ==> r == NaN
    ensures total == 0 && mark > 0 ==> r == Infinity
  {
    if total > 0 then
      var q := (200 * mark + total) / (2 * total);
      DivBounds(200 * mark + total, 2 * total);
      Finite(q)
    else if mark == 0 then NaN
    else Infinity
  }

  lemma DivBounds(a: nat, b: nat)
    requires b > 0
    ensures b * (a / b) <= a < b * (a / b + 1)
  {
  }

  lemma MulMonotone(a: int, b: int, c: int)
    requires 0 <= a && b <= c
    ensures a * b <= a * c
  {
  }

  /** `roundScore >= 0 ? roundScore : 0`: NaN fails the comparison and becomes 0. */
  function Percentage(x: JsNumber): (r: JsNumber)
    ensures !r.NaN?
    ensures r.Finite? ==> r.value >= 0
    ensures x.Finite? && x.value >= 0 ==> r == x
    ensures x.NaN? ==> r == Finite(0)
    ensures x.Infinity? ==> r == Infinity
  {
    match x
    case Finite(v) => if v >= 0 then x else Finite(0)
    case NaN => Finite(0)
    case Infinity => x
  }

  /** With at least one question and no more marks than questions, the percentage is in [0, 100]. */
  lemma PercentageInRange(mark: nat, total: nat)
    requires 0 < total && mark <= total
    ensures Percentage(RoundedRatio(mark, total)).Finite?
    ensures 0 <= Percentage(RoundedRatio(mark, total)).value <= 100
  {
    var p := RoundedRatio(mark, total).value;
    if p > 100 {
      MulMonotone(2 * total, 101, p);
    }
  }

  /** Full marks give 100; a subject with no questions and no marks gives 0. */
  lemma PercentageEdges(total: nat)
    ensures total > 0 ==> Percentage(RoundedRatio(total, total)) == Finite(100)
    ensures Percentage(RoundedRatio(0, 0)) == Finite(0)
  {
    if total > 0 {
      var p := RoundedRatio(total, total).value;
      if p < 100 {
        MulMonotone(2 * total, p + 1, 100);
      } else if p > 100 {
        MulMonotone(2 * total, 101, p);
      }
    }
  }

  /** The guards of `evaluateTest` that can fail, in order. */
  function EvaluateCheck(subjects: seq<Subject>, users: seq<User>, details: seq<Detail>, userId: int, subjectId: int): (r: Option<HttpError>)
    ensures FindTestById(subjects, subjectId).None? ==> r == Some(BadRequest(TEST_NOT_FOUND))
    ensures FindTestById(subjects, subjectId).Some? && FindUserById(users, userId).None? ==>
              r == Some(BadRequest(USER_NOT_FOUND))
    ensures FindTestById(subjects, subjectId).Some? && FindUserById(users, userId).Some? &&
            FindIfUserSubmittedTestAlready(details, userId, subjectId).Some? ==>
              r == Some(BadRequest(ALREADY_SUBMITTED))
    ensures r.None? <==>
              FindTestById(subjects, subjectId).Some? && FindUserById(users, userId).Some? &&
              forall i :: 0 <= i < |details| ==>
                !(details[i].userId == userId && details[i].subjectId == subjectId && details[i].isFinish && !details[i].isActive)
  {
    if FindTestById(subjects, subjectId).None? then Some(BadRequest(TEST_NOT_FOUND))
    else if FindUserById(users, userId).None? then Some(BadRequest(USER_NOT_FOUND))
    else if FindIfUserSubmittedTestAlready(details, userId, subjectId).Some? then Some(BadRequest(ALREADY_SUBMITTED))
    else None
  }

  /**
    `evaluateTest`: scores the answers against the subject's active
    questions, refuses a second submission, finishes the pair's active row
    and ends the candidate's session. It never looks at the start flag.
   */
  method EvaluateTest(db: Db, userId: int, subjectId: int, answers: seq<Answer>) returns (r: Outcome<HttpError>)
    modifies db`details, db`users
    ensures var check := EvaluateCheck(old(db.subjects), old(db.users), old(db.details), userId, subjectId);
      check.Some? ==> r == Fail(check.value) && db.details == old(db.details) && db.users == old(db.users)
    ensures var check := EvaluateCheck(old(db.subjects), old(db.users), old(db.details), userId, subjectId);
      var mark := Mark(old(db.questions), old(db.options), answers);
      var total := |ActiveQuestions(old(db.questions), subjectId)|;
      var percentage := Percentage(RoundedRatio(mark, total));
      check.None? && percentage.Infinity? ==>
        r == Fail(HttpError(INTERNAL_SERVER_ERROR, STORE_REJECTED)) &&
        db.details == old(db.details) && db.users == old(db.users)
    ensures var check := EvaluateCheck(old(db.subjects), old(db.users), old(db.details), userId, subjectId);
      var mark := Mark(old(db.questions), old(db.options), answers);
      var total := |ActiveQuestions(old(db.questions), subjectId)|;
      var percentage := Percentage(RoundedRatio(mark, total));
      check.None? && percentage.Finite? ==>
        var email := FindUserById(old(db.users), userId).value.email;
        IsExistingUser(old(db.users), old(db.details), email).Some? &&
        r == Pass &&
        db.details == FinishActive(old(db.details), userId, subjectId, ScoreText(mark, total), percentage.value) &&
        db.users == WithoutToken(old(db.users), IsExistingUser(old(db.users), old(db.details), email).value.user.id)
  {
    var test := FindTestById(db.subjects, subjectId);
    if test.None? {
      return Fail(BadRequest(TEST_NOT_FOUND));
    }
    var user := FindUserById(db.users, userId);
    if user.None? {
      return Fail(BadRequest(USER_NOT_FOUND));
    }
    var mark := ScoreAnswers(db.questions, db.options, answers);
    var total := |ActiveQuestions(db.questions, test.value.id)|;
    var score := ScoreText(mark, total);
    var percentage := Percentage(RoundedRatio(mark, total));
    if FindIfUserSubmittedTestAlready(db.details, user.value.id, test.value.id).Some? {
      return Fail(BadRequest(ALREADY_SUBMITTED));
    }
    if percentage.Infinity? {
      return Fail(HttpError(INTERNAL_SERVER_ERROR, STORE_REJECTED));
    }
    ghost var users0, details0 := db.users, db.details;
    assert user.value in users0 && user.value.isActive;
    TestRepository.UpdateMarks(db, userId, subjectId, score, percentage.value);
    IsExistingUserIgnoresDetails(users0, details0, db.details, user.value.email);
    r := AuthService.Logout(db, user.value.email);
  }

  // ----------------------------------------------------------------- reassign

  /** The guards of `reassignTest`, in order; `None` when the reassignment may go ahead. */
  function ReassignCheck(details: seq<Detail>, userId: int, subjectId: int): (r: Option<HttpError>)
    ensures FindUserWithSubject(details, userId, subjectId).None? ==> r == Some(NotFound(USER_WITH_TEST_NOT_FOUND))
    ensures FindUserWithSubject(details, userId, subjectId).Some? && IsTestStarted(details, userId, subjectId).None? ==>
              r == Some(BadRequest(TEST_NOT_YET_TAKEN))
    ensures IsTestStarted(details, userId, subjectId).Some? &&
            FindIfUserCompletedTestAlready(details, userId, subjectId).Some? ==>
              r == Some(BadRequest(ALREADY_COMPLETED))
    ensures IsTestStarted(details, userId, subjectId).Some? &&
            FindIfUserCompletedTestAlready(details, userId, subjectId).None? &&
            FindReassignCount(details, userId, subjectId) > MAX_ATTEMPTS ==>
              r == Some(BadRequest(LIMIT_EXCEEDED))
    ensures r.None? <==>
              IsTestStarted(details, userId, subjectId).Some? &&
              FindIfUserCompletedTestAlready(details, userId, subjectId).None? &&
              FindReassignCount(details, userId, subjectId) <= MAX_ATTEMPTS
  {
    if FindUserWithSubject(details, userId, subjectId).None? then Some(NotFound(USER_WITH_TEST_NOT_FOUND))
    else if IsTestStarted(details, userId, subjectId).None? then Some(BadRequest(TEST_NOT_YET_TAKEN))
    else if FindIfUserCompletedTestAlready(details, userId, subjectId).Some? then Some(BadRequest(ALREADY_COMPLETED))
    else if FindReassignCount(details, userId, subjectId) > MAX_ATTEMPTS then Some(BadRequest(LIMIT_EXCEEDED))
    else None
  }

  /** `reassignTest`: the guards, then the repository's deactivate-and-insert. */
  method ReassignTest(db: Db, userId: int, subjectId: int) returns (r: Outcome<HttpError>)
    modifies db`details
    ensures ReassignCheck(old(db.details), userId, subjectId).Some? ==>
              r == Fail(ReassignCheck(old(db.details), userId, subjectId).value) && db.details == old(db.details)
    ensures ReassignCheck(old(db.details), userId, subjectId).None? ==>
              r == Pass && db.details == Reassigned(old(db.details), userId, subjectId, db.defaultIsStart)
  {
    if FindUserWithSubject(db.details, userId, subjectId).None? {
      return Fail(NotFound(USER_WITH_TEST_NOT_FOUND));
    }
    if IsTestStarted(db.details, userId, subjectId).None? {
      return Fail(BadRequest(TEST_NOT_YET_TAKEN));
    }
    if FindIfUserCompletedTestAlready(db.details, userId, subjectId).Some? {
      return Fail(BadRequest(ALREADY_COMPLETED));
    }
    var currentAttempts := FindReassignCount(db.details, userId, subjectId);
    if currentAttempts > MAX_ATTEMPTS {
      return Fail(BadRequest(LIMIT_EXCEEDED));
    }
    TestRepository.ReassignTest(db, userId, subjectId);
    r := Pass;
  }

  // ------------------------------------------------ reassignment listing filter

  /** The constraints of the listing of started, unfinished tests. */
  datatype ReassignFilter = ReassignFilter(subjectId: Option<int>, positionId: Option<int>, search: Option<string>)

  /** The filter `fetchReassignTests` builds: a non-positive id or an empty search sets no constraint. */
  function BuildReassignFilter(subjectId: int, positionId: int, search: string): (f: ReassignFilter)
    ensures f.subjectId.Some? <==> subjectId > 0
    ensures f.positionId.Some? <==> positionId > 0
    ensures f.search.Some? <==> |search| > 0
    ensures f.subjectId.Some? ==> f.subjectId.value == subjectId
    ensures f.positionId.Some? ==> f.positionId.value == positionId
    ensures f.search.Some? ==> f.search.value == search
  {
    ReassignFilter(
      if subjectId > 0 then Some(subjectId) else None,
      if positionId > 0 then Some(positionId) else None,
      if |search| > 0 then Some(search) else None)
  }

  /** Whether a joined row is listed under the filter. */
  predicate MatchesReassignFilter(f: ReassignFilter, row: Joined)
  {
    row.detail.isStart == Some(true) && !row.detail.isFinish && row.detail.isActive &&
    (f.subjectId.Some? ==> row.detail.subjectId == f.subjectId.value) &&
    (f.positionId.Some? ==> exists k :: 0 <= k < |row.infos| && row.infos[k].positionId == f.positionId.value) &&
    (f.search.Some? ==>
       Contains(row.user.firstName, f.search.value) || Contains(row.user.lastName, f.search.value) ||
       Contains(row.user.email, f.search.value) || Contains(row.user.mobile, f.search.value))
  }

  /**
    Only rows of tests that were started and are still active and
    unfinished are listed, and with no subject, position or search given,
    all of them are.
   */
  lemma ReassignListingIsPendingStarted(subjectId: int, positionId: int, search: string, row: Joined)
    ensures MatchesReassignFilter(BuildReassignFilter(subjectId, positionId, search), row) ==>
              row.detail.isStart == Some(true) && !row.detail.isFinish && row.detail.isActive
    ensures subjectId <= 0 && positionId <= 0 && search == [] ==>
              (MatchesReassignFilter(BuildReassignFilter(subjectId, positionId, search), row) <==>
               row.detail.isStart == Some(true) && !row.detail.isFinish && row.detail.isActive)
  {
  }

  /**
    Every row a pair can be reassigned from is listed when the listing is
    unfiltered: the reassignment guards imply the listing's conditions.
   */
  lemma ReassignableRowsAreListed(details: seq<Detail>, userId: int, subjectId: int, user: User, infos: seq<UserInfo>)
    requires ReassignCheck(details, userId, subjectId).None?
    ensures var row := IsTestStarted(details, userId, subjectId).value;
      MatchesReassignFilter(BuildReassignFilter(0, 0, ""), Joined(row, user, infos))
  {
  }
}
