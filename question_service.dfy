/**
  The question service (src/modules/test/question/question.service.ts):
  the guards in front of creating and updating a question.
 */
module QuestionService {
  import opened Wrappers
  import opened Store
  import opened Bank
  import opened Utils
  import opened TestRepository
  import opened QuestionRepository

  const SUBJECT_NOT_FOUND: string := "Subject not found"
  const QUESTION_NOT_FOUND: string := "Question not found"
  const NO_CORRECT_OPTION: string := "At least one option must be marked as correct."

  /**
    The guards of `createQuestion`, in order: the subject must be active
    (the same query as `isValidsubjectId`), then some option must be correct.
   */
  function CreateQuestionCheck(subjects: seq<Subject>, subjectId: int, inputs: seq<OptionInput>): (r: Option<HttpError>)
    ensures FindTestById(subjects, subjectId).None? ==> r == Some(NotFound(SUBJECT_NOT_FOUND))
    ensures FindTestById(subjects, subjectId).Some? && !SomeCorrect(inputs) ==> r == Some(BadRequest(NO_CORRECT_OPTION))
    ensures r.None? <==>
              (exists i :: 0 <= i < |subjects| && subjects[i].id == subjectId && subjects[i].isActive) &&
              exists k :: 0 <= k < |inputs| && inputs[k].isCorrect
  {
    if FindTestById(subjects, subjectId).None? then Some(NotFound(SUBJECT_NOT_FOUND))
    else if !SomeCorrect(inputs) then Some(BadRequest(NO_CORRECT_OPTION))
    else None
  }

  /**
    The guards of `updateQuestion`, in order: the question must be active,
    then options must be given and some must be correct.
   */
  function UpdateQuestionCheck(questions: seq<Question>, questionId: int, inputs: Option<seq<OptionInput>>): (r: Option<HttpError>)
    ensures IsValidQuestionId(questions, questionId).None? ==> r == Some(BadRequest(QUESTION_NOT_FOUND))
    ensures IsValidQuestionId(questions, questionId).Some? && inputs.None? ==> r == Some(BadRequest(NO_CORRECT_OPTION))
    ensures r.None? <==>
              (exists i :: 0 <= i < |questions| && questions[i].id == questionId && questions[i].isActive) &&
              inputs.Some? && exists k :: 0 <= k < |inputs.value| && inputs.value[k].isCorrect
  {
    if IsValidQuestionId(questions, questionId).None? then Some(BadRequest(QUESTION_NOT_FOUND))
    else if inputs.None? || !SomeCorrect(inputs.value) then Some(BadRequest(NO_CORRECT_OPTION))
    else None
  }

  /** `createQuestion`: the guards, then the insert; a refused call writes nothing. */
  method CreateQuestion(db: Db, subjectId: int, question: string, inputs: seq<OptionInput>) returns (r: Outcome<HttpError>)
    modifies db`questions, db`options
    ensures var check := CreateQuestionCheck(old(db.subjects), subjectId, inputs);
      check.Some? ==> r == Fail(check.value) && db.questions == old(db.questions) && db.options == old(db.options)
    ensures var check := CreateQuestionCheck(old(db.subjects), subjectId, inputs);
      var id := NextQuestionId(old(db.questions));
      check.None? ==> (r == Pass &&
        db.questions == old(db.questions) + [Question(id, subjectId, question, true)] &&
        db.options == old(db.options) + NewOptions(id, NextOptionId(old(db.options)), inputs))
  {
    if FindTestById(db.subjects, subjectId).None? {
      return Fail(NotFound(SUBJECT_NOT_FOUND));
    }
    if !SomeCorrect(inputs) {
      return Fail(BadRequest(NO_CORRECT_OPTION));
    }
    QuestionRepository.CreateQuestion(db, subjectId, question, inputs);
    r := Pass;
  }

  /** `updateQuestion`: the guards, then the text update and option replacement. */
  method UpdateQuestion(db: Db, questionId: int, question: string, inputs: Option<seq<OptionInput>>) returns (r: Outcome<HttpError>)
    modifies db`questions, db`options
    ensures var check := UpdateQuestionCheck(old(db.questions), questionId, inputs);
      check.Some? ==> r == Fail(check.value) && db.questions == old(db.questions) && db.options == old(db.options)
    ensures var check := UpdateQuestionCheck(old(db.questions), questionId, inputs);
      check.None? ==> (r == Pass &&
        db.questions == WithQuestionText(old(db.questions), questionId, question) &&
        db.options == ReplaceOptions(old(db.options), questionId, inputs.value))
  {
    if IsValidQuestionId(db.questions, questionId).None? {
      return Fail(BadRequest(QUESTION_NOT_FOUND));
    }
    if inputs.None? || !SomeCorrect(inputs.value) {
      return Fail(BadRequest(NO_CORRECT_OPTION));
    }
    QuestionRepository.UpdateQuestion(db, questionId, question, inputs.value);
    r := Pass;
  }

  /**
    The guards keep the question bank answerable: whatever a successful
    create or update writes, every active question still has an active
    option marked correct, so scoring always has an option to compare with.
   */
  lemma GuardedWritesKeepAnswerable(questions: seq<Question>, options: seq<AnswerOption>, subjects: seq<Subject>,
                                    subjectId: int, questionId: int, question: string,
                                    inputs: seq<OptionInput>, update: Option<seq<OptionInput>>)
    requires Answerable(questions, options)
    ensures CreateQuestionCheck(subjects, subjectId, inputs).None? ==>
              var id := NextQuestionId(questions);
              Answerable(questions + [Question(id, subjectId, question, true)],
                         options + NewOptions(id, NextOptionId(options), inputs))
    ensures UpdateQuestionCheck(questions, questionId, update).None? ==>
              Answerable(WithQuestionText(questions, questionId, question),
                         ReplaceOptions(options, questionId, update.value))
  {
    if CreateQuestionCheck(subjects, subjectId, inputs).None? {
      CreateKeepsAnswerable(questions, options, subjectId, question, inputs);
    }
    if UpdateQuestionCheck(questions, questionId, update).None? {
      UpdateKeepsAnswerable(questions, options, questionId, question, update.value);
    }
  }

  /**
    On an answerable bank, every active question has a correct option to
    score against: the lookup `evaluateTest` makes finds a non-empty list.
   */
  lemma AnswerableQuestionsCanScore(questions: seq<Question>, options: seq<AnswerOption>, id: int)
    requires Answerable(questions, options)
    requires IsValidQuestionId(questions, id).Some?
    ensures FindQuestionWithCorrectOption(questions, options, id).Some?
    ensures |FindQuestionWithCorrectOption(questions, options, id).value.options| > 0
  {
    var i :| 0 <= i < |questions| && questions[i].id == id && questions[i].isActive;
  }
}
