/**
  The test repository (src/modules/test/test.repository.ts): lookups and
  writes on the user-test-detail rows, one chain of rows per
  (user, subject) pair.

  Each write is a method on the shared `Db` that may change only
  `db.details`, specified by a function of the old rows; the invariants the
  writes keep are lemmas about those functions.
 */
module TestRepository {
  import opened Wrappers
  import opened Tables
  import opened Store
  import opened Bank

  /** `reassignCount` of a row created by a plain assignment (schema default). */
  const DEFAULT_REASSIGN_COUNT: int := 0

  // Row conditions of the queries, one per `where` clause.

  function OfPair(u: int, s: int): Detail -> bool
  {
    (r: Detail) => r.userId == u && r.subjectId == s
  }

  function ActiveOfPair(u: int, s: int): Detail -> bool
  {
    (r: Detail) => r.userId == u && r.subjectId == s && r.isActive
  }

  function StartedActiveOfPair(u: int, s: int): Detail -> bool
  {
    (r: Detail) => r.userId == u && r.subjectId == s && r.isStart == Some(true) && r.isActive
  }

  function FinishedOfPair(u: int, s: int): Detail -> bool
  {
    (r: Detail) => r.userId == u && r.subjectId == s && r.isFinish
  }

  function SubmittedOfPair(u: int, s: int): Detail -> bool
  {
    (r: Detail) => r.userId == u && r.subjectId == s && r.isFinish && !r.isActive
  }

  function UnfinishedOfPair(u: int, s: int): Detail -> bool
  {
    (r: Detail) => r.userId == u && r.subjectId == s && !r.isFinish
  }

  function ActiveOfUser(u: int): Detail -> bool
  {
    (r: Detail) => r.userId == u && r.isActive
  }

  function PendingOfUser(u: int): Detail -> bool
  {
    (r: Detail) => r.userId == u && !r.isFinish && r.isActive
  }

  /** The first row satisfying `p`, as a `findFirst` returns it. */
  function FindFirst<T>(s: seq<T>, p: T -> bool): (r: Option<T>)
    ensures r.None? <==> forall i :: 0 <= i < |s| ==> !p(s[i])
    ensures r.Some? ==> exists i :: 0 <= i < |s| && s[i] == r.value && p(s[i]) &&
                          forall j :: 0 <= j < i ==> !p(s[j])
  {
    match First(s, p)
    case None => None
    case Some(i) => Some(s[i])
  }

  // ---------------------------------------------------------------- queries

  /** True iff some row, in any state, belongs to the pair. */
  function IsTestAssignedAlready(d: seq<Detail>, u: int, s: int): (r: bool)
    ensures r <==> exists i :: 0 <= i < |d| && d[i].userId == u && d[i].subjectId == s
  {
    Count(d, OfPair(u, s)) > 0
  }

  /** The user's first active, unfinished row, for any subject. */
  function FindTestStatus(d: seq<Detail>, u: int): (r: Option<Detail>)
    ensures r.None? <==> forall i :: 0 <= i < |d| ==> !(d[i].userId == u && !d[i].isFinish && d[i].isActive)
    ensures r.Some? ==> exists i :: 0 <= i < |d| && d[i] == r.value &&
                          r.value.userId == u && !r.value.isFinish && r.value.isActive &&
                          forall j :: 0 <= j < i ==> !(d[j].userId == u && !d[j].isFinish && d[j].isActive)
  {
    FindFirst(d, PendingOfUser(u))
  }

  /** A row of the pair that is finished and no longer active. */
  function FindIfUserSubmittedTestAlready(d: seq<Detail>, u: int, s: int): (r: Option<Detail>)
    ensures r.None? <==> forall i :: 0 <= i < |d| ==> !(d[i].userId == u && d[i].subjectId == s && d[i].isFinish && !d[i].isActive)
    ensures r.Some? ==> r.value in d && r.value.userId == u && r.value.subjectId == s &&
                        r.value.isFinish && !r.value.isActive
  {
    FindFirst(d, SubmittedOfPair(u, s))
  }

  /** A row of the pair that is finished, whatever its other flags. */
  function FindIfUserCompletedTestAlready(d: seq<Detail>, u: int, s: int): (r: Option<Detail>)
    ensures r.None? <==> forall i :: 0 <= i < |d| ==> !(d[i].userId == u && d[i].subjectId == s && d[i].isFinish)
    ensures r.Some? ==> r.value in d && r.value.userId == u && r.value.subjectId == s && r.value.isFinish
  {
    FindFirst(d, FinishedOfPair(u, s))
  }

  /** An active row of the pair whose `isStart` is true. */
  function IsTestStarted(d: seq<Detail>, u: int, s: int): (r: Option<Detail>)
    ensures r.None? <==> forall i :: 0 <= i < |d| ==> !(d[i].userId == u && d[i].subjectId == s && d[i].isStart == Some(true) && d[i].isActive)
    ensures r.Some? ==> r.value in d && r.value.userId == u && r.value.subjectId == s &&
                        r.value.isStart == Some(true) && r.value.isActive
  {
    FindFirst(d, StartedActiveOfPair(u, s))
  }

  /** Number of rows of the pair with `isFinish` false, soft-deleted ones included. */
  function FindReassignCount(d: seq<Detail>, u: int, s: int): (n: nat)
    ensures n <= |d|
    ensures n == 0 <==> forall i :: 0 <= i < |d| ==> !(d[i].userId == u && d[i].subjectId == s && !d[i].isFinish)
  {
    Count(d, UnfinishedOfPair(u, s))
  }

  /** An active row of the pair. */
  function FindUserWithSubject(d: seq<Detail>, u: int, s: int): (r: Option<Detail>)
    ensures r.None? <==> forall i :: 0 <= i < |d| ==> !(d[i].userId == u && d[i].subjectId == s && d[i].isActive)
    ensures r.Some? ==> r.value in d && r.value.userId == u && r.value.subjectId == s && r.value.isActive
  {
    FindFirst(d, ActiveOfPair(u, s))
  }

  /** The user's first active row, for any subject. */
  function FindSubjectByUserId(d: seq<Detail>, u: int): (r: Option<Detail>)
    ensures r.None? <==> forall i :: 0 <= i < |d| ==> !(d[i].userId == u && d[i].isActive)
    ensures r.Some? ==> exists i :: 0 <= i < |d| && d[i] == r.value && r.value.userId == u && r.value.isActive &&
                          forall j :: 0 <= j < i ==> !(d[j].userId == u && d[j].isActive)
  {
    FindFirst(d, ActiveOfUser(u))
  }

  /** The first active subject with this id. */
  function FindTestById(subjects: seq<Subject>, id: int): (r: Option<Subject>)
    ensures r.None? <==> forall i :: 0 <= i < |subjects| ==> !(subjects[i].id == id && subjects[i].isActive)
    ensures r.Some? ==> r.value in subjects && r.value.id == id && r.value.isActive
  {
    FindFirst(subjects, (t: Subject) => t.id == id && t.isActive)
  }

  /** The first active user with this id whose role is User. */
  function FindUserById(users: seq<User>, id: int): (r: Option<User>)
    ensures r.None? <==> forall i :: 0 <= i < |users| ==> !(users[i].id == id && users[i].isActive && users[i].roleId == USER)
    ensures r.Some? ==> r.value in users && r.value.id == id && r.value.isActive && r.value.roleId == USER
  {
    FindFirst(users, (x: User) => x.id == id && x.isActive && x.roleId == USER)
  }

  /** A question together with the options the query includes for it. */
  datatype QuestionWithOptions = QuestionWithOptions(question: Question, options: seq<AnswerOption>)

  /**
    The first active question with this id, with its options narrowed to
    the active, correct ones.
   */
  function FindQuestionWithCorrectOption(questions: seq<Question>, options: seq<AnswerOption>, id: int): (r: Option<QuestionWithOptions>)
    ensures r.None? <==> forall i :: 0 <= i < |questions| ==> !(questions[i].id == id && questions[i].isActive)
    ensures r.Some? ==> exists i :: 0 <= i < |questions| && questions[i] == r.value.question && r.value.question.id == id &&
                          r.value.question.isActive &&
                          forall j :: 0 <= j < i ==> !(questions[j].id == id && questions[j].isActive)
    ensures r.Some? ==> forall o :: o in r.value.options ==>
                          o in options && o.questionId == id && o.isActive && o.isCorrect
    ensures r.Some? ==> |r.value.options| == Count(options, ActiveCorrectOptionOf(id))
  {
    match FindFirst(questions, (q: Question) => q.id == id && q.isActive)
    case None => None
    case Some(q) => Some(QuestionWithOptions(q, Filter(options, ActiveCorrectOptionOf(q.id))))
  }

  /**
    The options included with the question are all its active, correct
    options, each as often as the table holds it, and nothing else, in
    table order.
   */
  lemma CorrectOptionsExact(questions: seq<Question>, options: seq<AnswerOption>, id: int)
    ensures var r := FindQuestionWithCorrectOption(questions, options, id);
      r.Some? ==>
        (forall i :: 0 <= i < |options| && ActiveCorrectOptionOf(id)(options[i]) ==>
           options[i] in r.value.options && multiset(r.value.options)[options[i]] == multiset(options)[options[i]]) &&
        InOrderAt(r.value.options, options, FilterIndices(options, ActiveCorrectOptionOf(id))) &&
        (forall i :: 0 <= i < |options| ==>
           (ActiveCorrectOptionOf(id)(options[i]) <==> i in FilterIndices(options, ActiveCorrectOptionOf(id))))
  {
    FilterExact(options, ActiveCorrectOptionOf(id));
    FilterInTableOrder(options, ActiveCorrectOptionOf(id));
  }

  /** An answer option as handed out to a candidate: its correctness is not shown. */
  datatype OptionView = OptionView(id: int, text: string)

  /** A question as handed out to a candidate. */
  datatype QuestionView = QuestionView(id: int, text: string, options: seq<OptionView>)

  function OptionViews(os: seq<AnswerOption>): (r: seq<OptionView>)
    ensures |r| == |os|
    ensures forall k :: 0 <= k < |os| ==> r[k] == OptionView(os[k].id, os[k].text)
  {
    seq(|os|, k requires 0 <= k < |os| => OptionView(os[k].id, os[k].text))
  }

  /**
    The active questions of a subject in table order, one entry per
    question: entry `k` shows the `k`-th active question with its active
    options, without their correctness flags.
   */
  function FetchQuestions(questions: seq<Question>, options: seq<AnswerOption>, subjectId: int): (r: seq<QuestionView>)
    ensures |r| == Count(questions, ActiveQuestionOfSubject(subjectId))
    ensures |r| == |ActiveQuestions(questions, subjectId)|
    ensures forall k :: 0 <= k < |r| ==>
              var q := ActiveQuestions(questions, subjectId)[k];
              r[k] == QuestionView(q.id, q.text, OptionViews(ActiveOptions(options, q.id)))
  {
    var qs := ActiveQuestions(questions, subjectId);
    seq(|qs|, k requires 0 <= k < |qs| =>
      QuestionView(qs[k].id, qs[k].text, OptionViews(ActiveOptions(options, qs[k].id))))
  }

  // ------------------------------------------------------ writes, as values

  /** The row inserted for the pair; fields the insert omits take the schema defaults. */
  function NewDetail(u: int, s: int, isStart: Option<bool>, reassignCount: int): Detail
  {
    Detail(u, s, true, isStart, false, None, None, reassignCount, false)
  }

  /** The rows after `updateMarks`: every active row of the pair is finished and scored. */
  function FinishActive(d: seq<Detail>, u: int, s: int, score: string, percentage: int): (r: seq<Detail>)
    ensures |r| == |d|
    ensures forall i :: 0 <= i < |d| && !(d[i].userId == u && d[i].subjectId == s && d[i].isActive) ==> r[i] == d[i]
    ensures forall i :: 0 <= i < |d| && d[i].userId == u && d[i].subjectId == s && d[i].isActive ==>
              r[i].userId == u && r[i].subjectId == s && r[i].isFinish && !r[i].isActive &&
              r[i].score == Some(score) && r[i].percentage == Some(percentage) &&
              r[i].isStart == d[i].isStart && r[i].reassignCount == d[i].reassignCount && r[i].deleted == d[i].deleted
  {
    seq(|d|, i requires 0 <= i < |d| =>
      if d[i].userId == u && d[i].subjectId == s && d[i].isActive
      then d[i].(score := Some(score), percentage := Some(percentage), isFinish := true, isActive := false)
      else d[i])
  }

  /** The rows after the deactivation step of `reassignTest`: every row of the pair. */
  function DeactivatePair(d: seq<Detail>, u: int, s: int): (r: seq<Detail>)
    ensures |r| == |d|
    ensures forall i :: 0 <= i < |d| && !(d[i].userId == u && d[i].subjectId == s) ==> r[i] == d[i]
    ensures forall i :: 0 <= i < |d| && d[i].userId == u && d[i].subjectId == s ==>
              r[i] == d[i].(isActive := false, deleted := true)
  {
    seq(|d|, i requires 0 <= i < |d| =>
      if d[i].userId == u && d[i].subjectId == s then d[i].(isActive := false, deleted := true) else d[i])
  }

  /** The rows after `reassignTest`: the pair deactivated, then one new row counting its unfinished rows. */
  function Reassigned(d: seq<Detail>, u: int, s: int, isStart: Option<bool>): seq<Detail>
  {
    DeactivatePair(d, u, s) + [NewDetail(u, s, isStart, FindReassignCount(d, u, s))]
  }

  // ----------------------------------------------------------------- writes

  /** Inserts a fresh row for the pair. */
  method AssignTest(db: Db, u: int, s: int)
    modifies db`details
    ensures db.details == old(db.details) + [NewDetail(u, s, db.defaultIsStart, DEFAULT_REASSIGN_COUNT)]
    ensures |db.details| == |old(db.details)| + 1
    ensures forall i :: 0 <= i < |old(db.details)| ==> db.details[i] == old(db.details)[i]
  {
    db.details := db.details + [NewDetail(u, s, db.defaultIsStart, DEFAULT_REASSIGN_COUNT)];
  }

  /** Finishes and scores the pair's active rows; every other row is unchanged. */
  method UpdateMarks(db: Db, u: int, s: int, score: string, percentage: int)
    modifies db`details
    ensures db.details == FinishActive(old(db.details), u, s, score, percentage)
    ensures forall i :: 0 <= i < |old(db.details)| ==>
              var row := old(db.details)[i];
              (!(row.userId == u && row.subjectId == s && row.isActive) ==> db.details[i] == row)
  {
    db.details := FinishActive(db.details, u, s, score, percentage);
  }

  /**
    Deactivates and soft-deletes every row of the pair, counts the pair's
    unfinished rows, and inserts a new row carrying that count.
   */
  method ReassignTest(db: Db, u: int, s: int)
    modifies db`details
    ensures db.details == Reassigned(old(db.details), u, s, db.defaultIsStart)
    ensures forall i :: 0 <= i < |old(db.details)| ==>
              var row := old(db.details)[i];
              (!(row.userId == u && row.subjectId == s) ==> db.details[i] == row)
  {
    db.details := DeactivatePair(db.details, u, s);
    var reassignCount := FindReassignCount(db.details, u, s);
    DeactivationKeepsReassignCount(old(db.details), u, s);
    db.details := db.details + [NewDetail(u, s, db.defaultIsStart, reassignCount)];
  }

  // ------------------------------------------------------------- invariants

  /** No pair has two active rows. */
  ghost predicate AtMostOneActivePerPair(d: seq<Detail>)
  {
    forall i, j :: 0 <= i < j < |d| && d[i].isActive && d[j].isActive ==>
      d[i].userId != d[j].userId || d[i].subjectId != d[j].subjectId
  }

  /** A finished row is never active. */
  ghost predicate FinishedAreInactive(d: seq<Detail>)
  {
    forall i :: 0 <= i < |d| && d[i].isFinish ==> !d[i].isActive
  }

  /** A finished row carries its score text and its percentage. */
  ghost predicate FinishedAreScored(d: seq<Detail>)
  {
    forall i :: 0 <= i < |d| && d[i].isFinish ==> d[i].score.Some? && d[i].percentage.Some?
  }

  ghost predicate Consistent(d: seq<Detail>)
  {
    AtMostOneActivePerPair(d) && FinishedAreInactive(d) && FinishedAreScored(d)
  }

  /** Deactivating the pair does not change whether any row is finished, so the count is the same. */
  lemma DeactivationKeepsReassignCount(d: seq<Detail>, u: int, s: int)
    ensures FindReassignCount(DeactivatePair(d, u, s), u, s) == FindReassignCount(d, u, s)
  {
    var d' := DeactivatePair(d, u, s);
    forall i | 0 <= i < |d|
      ensures UnfinishedOfPair(u, s)(d[i]) == UnfinishedOfPair(u, s)(d'[i])
    {
    }
    CountPointwise(d, d', UnfinishedOfPair(u, s), UnfinishedOfPair(u, s));
  }

  /** An assignment guarded by `isTestAssignedAlready` keeps the rows consistent. */
  lemma AssignKeepsConsistent(d: seq<Detail>, u: int, s: int, isStart: Option<bool>)
    requires Consistent(d)
    requires !IsTestAssignedAlready(d, u, s)
    ensures Consistent(d + [NewDetail(u, s, isStart, DEFAULT_REASSIGN_COUNT)])
  {
    var d' := d + [NewDetail(u, s, isStart, DEFAULT_REASSIGN_COUNT)];
    forall i, j | 0 <= i < j < |d'| && d'[i].isActive && d'[j].isActive
      ensures d'[i].userId != d'[j].userId || d'[i].subjectId != d'[j].subjectId
    {
      if j == |d| {
        assert d'[i] == d[i];
      }
    }
  }

  /** `updateMarks` keeps the rows consistent. */
  lemma UpdateMarksKeepsConsistent(d: seq<Detail>, u: int, s: int, score: string, percentage: int)
    requires Consistent(d)
    ensures Consistent(FinishActive(d, u, s, score, percentage))
  {
  }

  /** `reassignTest` keeps the rows consistent. */
  lemma ReassignKeepsConsistent(d: seq<Detail>, u: int, s: int, isStart: Option<bool>)
    requires Consistent(d)
    ensures Consistent(Reassigned(d, u, s, isStart))
  {
    var d' := Reassigned(d, u, s, isStart);
    forall i, j | 0 <= i < j < |d'| && d'[i].isActive && d'[j].isActive
      ensures d'[i].userId != d'[j].userId || d'[i].subjectId != d'[j].subjectId
    {
      if j == |d| {
        assert d'[i] == DeactivatePair(d, u, s)[i];
      } else {
        assert d'[i] == DeactivatePair(d, u, s)[i] && d'[j] == DeactivatePair(d, u, s)[j];
      }
    }
  }

  /**
    After `reassignTest` the new row is the pair's only active row: every
    older row of the pair is inactive and soft-deleted, rows of other pairs
    are unchanged, and the new row counts the unfinished rows.
   */
  lemma {:induction false} ReassignLeavesOneActiveRow(d: seq<Detail>, u: int, s: int, isStart: Option<bool>)
    ensures var d' := Reassigned(d, u, s, isStart);
      |d'| == |d| + 1 &&
      d'[|d|] == NewDetail(u, s, isStart, FindReassignCount(d, u, s)) &&
      (forall i :: 0 <= i < |d| && OfPair(u, s)(d[i]) ==> !d'[i].isActive && d'[i].deleted) &&
      (forall i :: 0 <= i < |d| && !OfPair(u, s)(d[i]) ==> d'[i] == d[i]) &&
      Count(d', ActiveOfPair(u, s)) == 1
  {
    var e := DeactivatePair(d, u, s);
    var x := NewDetail(u, s, isStart, FindReassignCount(d, u, s));
    assert Count(e, ActiveOfPair(u, s)) == 0;
    assert e + [x] == Reassigned(d, u, s, isStart);
    CountAppend(e, x, ActiveOfPair(u, s));
  }

  /** With no active row for the pair, `updateMarks` changes nothing. */
  lemma UpdateMarksWithoutActiveRowIsIdentity(d: seq<Detail>, u: int, s: int, score: string, percentage: int)
    requires FindUserWithSubject(d, u, s).None?
    ensures FinishActive(d, u, s, score, percentage) == d
  {
  }

  /**
    The two "finished" lookups differ: a submitted row is a completed row,
    and on consistent rows the converse holds too.
   */
  lemma SubmittedImpliesCompleted(d: seq<Detail>, u: int, s: int)
    ensures FindIfUserSubmittedTestAlready(d, u, s).Some? ==> FindIfUserCompletedTestAlready(d, u, s).Some?
    ensures FinishedAreInactive(d) ==>
      (FindIfUserSubmittedTestAlready(d, u, s).Some? <==> FindIfUserCompletedTestAlready(d, u, s).Some?)
  {
  }

  /** A finished row that is still active is found by one lookup and not the other. */
  lemma CompletedButNotSubmitted()
    ensures var d := [Detail(1, 1, true, Some(true), true, None, None, 0, false)];
      FindIfUserCompletedTestAlready(d, 1, 1).Some? && FindIfUserSubmittedTestAlready(d, 1, 1).None?
  {
  }
}
