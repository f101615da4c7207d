/**
  The question repository (src/modules/test/question/question.repository.ts):
  the active-record lookups, creating a question with its options, and
  updating a question by retiring its active options and appending new ones.
 */
module QuestionRepository {
  import opened Wrappers
  import opened Tables
  import opened Store
  import opened Bank

  /** One option as the caller supplies it. */
  datatype OptionInput = OptionInput(option: string, isCorrect: bool)

  /** What a stored option says, as the caller supplied it. */
  function InputOf(o: AnswerOption): OptionInput
  {
    OptionInput(o.text, o.isCorrect)
  }

  /** Some supplied option is marked correct, as `options.some((option) => option.isCorrect)`. */
  predicate SomeCorrect(inputs: seq<OptionInput>)
  {
    exists k :: 0 <= k < |inputs| && inputs[k].isCorrect
  }

  /** `isValidQuestionId`: the first active question with this id. */
  function IsValidQuestionId(questions: seq<Question>, id: int): (r: Option<Question>)
    ensures r.None? <==> forall i :: 0 <= i < |questions| ==> !(questions[i].id == id && questions[i].isActive)
    ensures r.Some? ==> r.value in questions && r.value.id == id && r.value.isActive
  {
    match First(questions, (q: Question) => q.id == id && q.isActive)
    case None => None
    case Some(i) => Some(questions[i])
  }

  /** The id the store gives the next row of a table: positive and above every id in it. */
  function NextId<T>(rows: seq<T>, idOf: T -> int): (id: int)
    ensures id >= 1
    ensures forall i :: 0 <= i < |rows| ==> idOf(rows[i]) < id
  {
    if rows == [] then 1
    else
      var rest := NextId(rows[..|rows| - 1], idOf);
      var last := idOf(rows[|rows| - 1]) + 1;
      if rest >= last then rest else last
  }

  function NextQuestionId(questions: seq<Question>): int
  {
    NextId(questions, (q: Question) => q.id)
  }

  function NextOptionId(options: seq<AnswerOption>): int
  {
    NextId(options, (o: AnswerOption) => o.id)
  }

  /**
    The option rows created for a question: one active row per supplied
    option, in order, with its text and correctness, under new ids.
   */
  function NewOptions(questionId: int, firstId: int, inputs: seq<OptionInput>): (r: seq<AnswerOption>)
    ensures Map(r, InputOf) == inputs
    ensures forall k :: 0 <= k < |r| ==> r[k].questionId == questionId && r[k].isActive && r[k].id == firstId + k
  {
    var r := seq(|inputs|, k requires 0 <= k < |inputs| =>
      AnswerOption(firstId + k, questionId, inputs[k].option, inputs[k].isCorrect, true));
    assert Map(r, InputOf) == inputs;
    r
  }

  /** The questions after the text of question `id` is replaced. */
  function WithQuestionText(questions: seq<Question>, id: int, text: string): (r: seq<Question>)
    ensures |r| == |questions|
    ensures forall i :: 0 <= i < |questions| && questions[i].id != id ==> r[i] == questions[i]
    ensures forall i :: 0 <= i < |questions| && questions[i].id == id ==> r[i] == questions[i].(text := text)
  {
    seq(|questions|, i requires 0 <= i < |questions| =>
      if questions[i].id == id then questions[i].(text := text) else questions[i])
  }

  /** The options after the question's active options are retired; nothing is deleted. */
  function RetireOptions(options: seq<AnswerOption>, questionId: int): (r: seq<AnswerOption>)
    ensures |r| == |options|
    ensures forall i :: 0 <= i < |options| && !(options[i].questionId == questionId && options[i].isActive) ==>
              r[i] == options[i]
    ensures forall i :: 0 <= i < |options| && options[i].questionId == questionId && options[i].isActive ==>
              r[i] == options[i].(isActive := false)
  {
    seq(|options|, i requires 0 <= i < |options| =>
      if options[i].questionId == questionId && options[i].isActive then options[i].(isActive := false) else options[i])
  }

  /** The options after `updateQuestion`: the old ones retired, the new ones appended. */
  function ReplaceOptions(options: seq<AnswerOption>, questionId: int, inputs: seq<OptionInput>): seq<AnswerOption>
  {
    RetireOptions(options, questionId) + NewOptions(questionId, NextOptionId(options), inputs)
  }

  /** `createQuestion`: one active question and its options. */
  method CreateQuestion(db: Db, subjectId: int, question: string, inputs: seq<OptionInput>)
    modifies db`questions, db`options
    ensures db.questions == old(db.questions) + [Question(NextQuestionId(old(db.questions)), subjectId, question, true)]
    ensures db.options == old(db.options) + NewOptions(NextQuestionId(old(db.questions)), NextOptionId(old(db.options)), inputs)
  {
    var id := NextQuestionId(db.questions);
    db.questions := db.questions + [Question(id, subjectId, question, true)];
    db.options := db.options + NewOptions(id, NextOptionId(db.options), inputs);
  }

  /** `updateQuestion`: the new text, the active options retired, the supplied ones appended. */
  method UpdateQuestion(db: Db, questionId: int, question: string, inputs: seq<OptionInput>)
    modifies db`questions, db`options
    ensures db.questions == WithQuestionText(old(db.questions), questionId, question)
    ensures db.options == ReplaceOptions(old(db.options), questionId, inputs)
  {
    db.questions := WithQuestionText(db.questions, questionId, question);
    db.options := ReplaceOptions(db.options, questionId, inputs);
  }

  /** The new question's id is taken by no earlier question, so its options are all its own. */
  lemma CreatedQuestionIsNew(questions: seq<Question>, options: seq<AnswerOption>, subjectId: int, question: string,
                             inputs: seq<OptionInput>)
    requires forall i :: 0 <= i < |options| ==> exists j :: 0 <= j < |questions| && questions[j].id == options[i].questionId
    ensures var id := NextQuestionId(questions);
      Map(ActiveOptions(options + NewOptions(id, NextOptionId(options), inputs), id), InputOf) == inputs
  {
    var id := NextQuestionId(questions);
    var added := NewOptions(id, NextOptionId(options), inputs);
    assert Count(options, ActiveOptionOf(id)) == 0 by {
      forall i | 0 <= i < |options|
        ensures !ActiveOptionOf(id)(options[i])
      {
        var j :| 0 <= j < |questions| && questions[j].id == options[i].questionId;
      }
    }
    FilterConcat(options, added, ActiveOptionOf(id));
    FilterAll(added, ActiveOptionOf(id));
    assert Filter(options, ActiveOptionOf(id)) == [];
  }

  /**
    After `updateQuestion` the question's active options are exactly the
    supplied list, in order.
   */
  lemma UpdateReplacesActiveOptions(options: seq<AnswerOption>, questionId: int, inputs: seq<OptionInput>)
    ensures Map(ActiveOptions(ReplaceOptions(options, questionId, inputs), questionId), InputOf) == inputs
  {
    var retired := RetireOptions(options, questionId);
    var added := NewOptions(questionId, NextOptionId(options), inputs);
    var p := ActiveOptionOf(questionId);
    assert Count(retired, p) == 0 by {
      forall i | 0 <= i < |retired|
        ensures !p(retired[i])
      {
      }
    }
    assert Filter(retired, p) == [];
    FilterConcat(retired, added, p);
    FilterAll(added, p);
    assert Filter(retired + added, p) == added;
    assert ReplaceOptions(options, questionId, inputs) == retired + added;
  }

  /** `updateQuestion` leaves the active options of every other question as they were. */
  lemma UpdateKeepsOtherQuestions(options: seq<AnswerOption>, questionId: int, inputs: seq<OptionInput>, other: int)
    requires other != questionId
    ensures ActiveOptions(ReplaceOptions(options, questionId, inputs), other) == ActiveOptions(options, other)
  {
    var retired := RetireOptions(options, questionId);
    var added := NewOptions(questionId, NextOptionId(options), inputs);
    FilterConcat(retired, added, ActiveOptionOf(other));
    assert Count(added, ActiveOptionOf(other)) == 0;
    assert Filter(added, ActiveOptionOf(other)) == [];
    FilterPointwise(options, retired, ActiveOptionOf(other));
    assert Filter(retired, ActiveOptionOf(other)) + [] == Filter(retired, ActiveOptionOf(other));
  }

  /** Every active question has an active option marked correct. */
  ghost predicate Answerable(questions: seq<Question>, options: seq<AnswerOption>)
  {
    forall i :: 0 <= i < |questions| && questions[i].isActive ==>
      Count(options, ActiveCorrectOptionOf(questions[i].id)) > 0
  }

  /** Options supplied with a correct one give their question an active correct option. */
  lemma NewOptionsAnswer(questionId: int, firstId: int, inputs: seq<OptionInput>)
    requires SomeCorrect(inputs)
    ensures Count(NewOptions(questionId, firstId, inputs), ActiveCorrectOptionOf(questionId)) > 0
  {
    var k :| 0 <= k < |inputs| && inputs[k].isCorrect;
    var r := NewOptions(questionId, firstId, inputs);
    assert InputOf(r[k]) == Map(r, InputOf)[k];
  }

  /** Creating a question with a correct option keeps every active question answerable. */
  lemma CreateKeepsAnswerable(questions: seq<Question>, options: seq<AnswerOption>, subjectId: int, question: string,
                              inputs: seq<OptionInput>)
    requires Answerable(questions, options)
    requires SomeCorrect(inputs)
    ensures var id := NextQuestionId(questions);
      Answerable(questions + [Question(id, subjectId, question, true)],
                 options + NewOptions(id, NextOptionId(options), inputs))
  {
    var id := NextQuestionId(questions);
    var qs := questions + [Question(id, subjectId, question, true)];
    var added := NewOptions(id, NextOptionId(options), inputs);
    forall i | 0 <= i < |qs| && qs[i].isActive
      ensures Count(options + added, ActiveCorrectOptionOf(qs[i].id)) > 0
    {
      CountConcat(options, added, ActiveCorrectOptionOf(qs[i].id));
      if i == |questions| {
        NewOptionsAnswer(id, NextOptionId(options), inputs);
      }
    }
  }

  /** Updating a question with a correct option keeps every active question answerable. */
  lemma UpdateKeepsAnswerable(questions: seq<Question>, options: seq<AnswerOption>, questionId: int, question: string,
                              inputs: seq<OptionInput>)
    requires Answerable(questions, options)
    requires SomeCorrect(inputs)
    ensures Answerable(WithQuestionText(questions, questionId, question), ReplaceOptions(options, questionId, inputs))
  {
    var qs := WithQuestionText(questions, questionId, question);
    var retired := RetireOptions(options, questionId);
    var added := NewOptions(questionId, NextOptionId(options), inputs);
    forall i | 0 <= i < |qs| && qs[i].isActive
      ensures Count(retired + added, ActiveCorrectOptionOf(qs[i].id)) > 0
    {
      var id := qs[i].id;
      CountConcat(retired, added, ActiveCorrectOptionOf(id));
      if id == questionId {
        NewOptionsAnswer(questionId, NextOptionId(options), inputs);
      } else {
        CountPointwise(options, retired, ActiveCorrectOptionOf(id), ActiveCorrectOptionOf(id));
        assert questions[i].id == id && questions[i].isActive;
      }
    }
  }
}
