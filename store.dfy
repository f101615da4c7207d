/**
  The persistent tables the application reads and writes, held in memory as
  sequences of rows in insertion order. Rows are never removed: the
  application deactivates or soft-deletes them instead.
 */
module Store {
  import opened Wrappers

  /** Role ids of the role table (src/common/enum/enum.ts). */
  const SUPER_ADMIN: int := 1
  const ADMIN: int := 2
  const USER: int := 3

  /** A row of the user table. `token` is the current session token, or NULL. */
  datatype User = User(
    id: int,
    firstName: string,
    lastName: string,
    email: string,
    mobile: string,
    roleId: int,
    isActive: bool,
    token: Option<string>)

  /** A test subject ("Test" table). */
  datatype Subject = Subject(id: int, name: string, isActive: bool)

  /** A question of a subject. */
  datatype Question = Question(id: int, subjectId: int, text: string, isActive: bool)

  /** An answer option of a question, with its correctness flag. */
  datatype AnswerOption = AnswerOption(id: int, questionId: int, text: string, isCorrect: bool, isActive: bool)

  /**
    One attempt of one subject by one user ("UserTestDetails"). `isStart` is
    nullable; `score` and `percentage` stay NULL until the attempt is
    evaluated; `deleted` stands for a non-NULL `deletedAt`.
   */
  datatype Detail = Detail(
    userId: int,
    subjectId: int,
    isActive: bool,
    isStart: Option<bool>,
    isFinish: bool,
    score: Option<string>,
    percentage: Option<int>,
    reassignCount: int,
    deleted: bool)

  /** A row of a candidate's profile: the position applied for and whether a fresher. */
  datatype UserInfo = UserInfo(positionId: int, isFresher: bool)

  /**
    A test row joined with its user and the user's profile rows, as the
    listings' relation filters see it.
   */
  datatype Joined = Joined(detail: Detail, user: User, infos: seq<UserInfo>)

  /** The database: one field per table. */
  class Db {
    var users: seq<User>
    var subjects: seq<Subject>
    var questions: seq<Question>
    var options: seq<AnswerOption>
    var details: seq<Detail>

    /**
      The value the schema gives `isStart` when a row is inserted without
      one. The schema is not part of this model, so it is a parameter.
     */
    const defaultIsStart: Option<bool>

    constructor (defaultIsStart: Option<bool>)
      ensures this.defaultIsStart == defaultIsStart
      ensures users == [] && subjects == [] && questions == [] && options == [] && details == []
    {
      this.defaultIsStart := defaultIsStart;
      users, subjects, questions, options, details := [], [], [], [], [];
    }
  }
}

/** Row conditions on the question bank shared by the repositories. */
module Bank {
  import opened Wrappers
  import opened Tables
  import opened Store

  function ActiveQuestionOfSubject(subjectId: int): Question -> bool
  {
    (q: Question) => q.subjectId == subjectId && q.isActive
  }

  function ActiveOptionOf(questionId: int): AnswerOption -> bool
  {
    (o: AnswerOption) => o.questionId == questionId && o.isActive
  }

  function ActiveCorrectOptionOf(questionId: int): AnswerOption -> bool
  {
    (o: AnswerOption) => o.questionId == questionId && o.isActive && o.isCorrect
  }

  /** The active questions of a subject, in table order. */
  function ActiveQuestions(questions: seq<Question>, subjectId: int): (r: seq<Question>)
    ensures forall q :: q in r ==> q in questions && q.subjectId == subjectId && q.isActive
    ensures |r| == Count(questions, ActiveQuestionOfSubject(subjectId))
  {
    Filter(questions, ActiveQuestionOfSubject(subjectId))
  }

  /**
    The active questions of a subject are all of them, each as often as the
    table holds it, and nothing else, in table order: the table read at
    strictly increasing positions, which are exactly the qualifying ones.
   */
  lemma ActiveQuestionsExact(questions: seq<Question>, subjectId: int)
    ensures var r := ActiveQuestions(questions, subjectId);
      (forall i :: 0 <= i < |questions| && questions[i].subjectId == subjectId && questions[i].isActive ==>
         questions[i] in r && multiset(r)[questions[i]] == multiset(questions)[questions[i]]) &&
      InOrderAt(r, questions, FilterIndices(questions, ActiveQuestionOfSubject(subjectId))) &&
      (forall i :: 0 <= i < |questions| ==>
         (ActiveQuestionOfSubject(subjectId)(questions[i]) <==> i in FilterIndices(questions, ActiveQuestionOfSubject(subjectId))))
  {
    FilterExact(questions, ActiveQuestionOfSubject(subjectId));
    FilterInTableOrder(questions, ActiveQuestionOfSubject(subjectId));
  }

  /** The active options of a question, in table order. */
  function ActiveOptions(options: seq<AnswerOption>, questionId: int): (r: seq<AnswerOption>)
    ensures forall o :: o in r ==> o in options && o.questionId == questionId && o.isActive
    ensures |r| == Count(options, ActiveOptionOf(questionId))
  {
    Filter(options, ActiveOptionOf(questionId))
  }

  /**
    The active options of a question are all of them, each as often as the
    table holds it, and nothing else, in table order.
   */
  lemma ActiveOptionsExact(options: seq<AnswerOption>, questionId: int)
    ensures var r := ActiveOptions(options, questionId);
      (forall i :: 0 <= i < |options| && options[i].questionId == questionId && options[i].isActive ==>
         options[i] in r && multiset(r)[options[i]] == multiset(options)[options[i]]) &&
      InOrderAt(r, options, FilterIndices(options, ActiveOptionOf(questionId))) &&
      (forall i :: 0 <= i < |options| ==>
         (ActiveOptionOf(questionId)(options[i]) <==> i in FilterIndices(options, ActiveOptionOf(questionId))))
  {
    FilterExact(options, ActiveOptionOf(questionId));
    FilterInTableOrder(options, ActiveOptionOf(questionId));
  }
}
