/**
  The life of one candidate's test across services: assigned once, opened
  at each login, reassigned by an administrator, and finally submitted.
  The lemmas here follow the test rows of one (user, subject) pair through
  those steps and show how many reassignments the guards allow.
 */
module Lifecycle {
  import opened Wrappers
  import opened Tables
  import opened Store
  import opened TestRepository
  import opened AuthRepository
  import opened TestService

  /** No row of `d`, in any state, belongs to the pair. */
  predicate NoRowsOf(d: seq<Detail>, u: int, s: int)
  {
    forall i :: 0 <= i < |d| ==> !(d[i].userId == u && d[i].subjectId == s)
  }

  /** No row of the pair is finished. */
  predicate NoneFinished(d: seq<Detail>, u: int, s: int)
  {
    forall i :: 0 <= i < |d| ==> !(d[i].userId == u && d[i].subjectId == s && d[i].isFinish)
  }

  /** One round: the candidate logs in (marking the active rows started), then the test is reassigned. */
  function Round(d: seq<Detail>, u: int, s: int, isStart: Option<bool>): seq<Detail>
  {
    Reassigned(StartActive(d, u), u, s, isStart)
  }

  /** `k` applications of `f`, starting from `x`. */
  function Iterate<T>(f: T -> T, x: T, k: nat): T
    decreases k
  {
    if k == 0 then x else Iterate(f, f(x), k - 1)
  }

  /** A measure that every step raises by one is raised by `k` in `k` steps. */
  lemma {:induction false} IterateCounts<T>(f: T -> T, m: T -> int, x: T, k: nat)
    requires forall y :: m(f(y)) == m(y) + 1
    ensures m(Iterate(f, x, k)) == m(x) + k
    decreases k
  {
    if k > 0 {
      IterateCounts(f, m, f(x), k - 1);
    }
  }

  /** A property that every step keeps holds after `k` steps. */
  lemma {:induction false} IterateKeeps<T>(f: T -> T, p: T -> bool, x: T, k: nat)
    requires forall y :: p(y) ==> p(f(y))
    requires p(x)
    ensures p(Iterate(f, x, k))
    decreases k
  {
    if k > 0 {
      IterateKeeps(f, p, f(x), k - 1);
    }
  }

  function RoundStep(u: int, s: int, isStart: Option<bool>): seq<Detail> -> seq<Detail>
  {
    d => Round(d, u, s, isStart)
  }

  /** The rows after the first assignment of the pair and `k` rounds. */
  function Attempts(base: seq<Detail>, u: int, s: int, isStart: Option<bool>, k: nat): seq<Detail>
  {
    Iterate(RoundStep(u, s, isStart), base + [NewDetail(u, s, isStart, DEFAULT_REASSIGN_COUNT)], k)
  }

  /** The pair's last row is its active one. */
  predicate EndsActive(d: seq<Detail>, u: int, s: int)
  {
    |d| > 0 && d[|d| - 1].userId == u && d[|d| - 1].subjectId == s && d[|d| - 1].isActive
  }

  /** Logging in does not change which rows are unfinished. */
  lemma StartActiveKeepsReassignCount(d: seq<Detail>, u: int, s: int)
    ensures FindReassignCount(StartActive(d, u), u, s) == FindReassignCount(d, u, s)
  {
    CountPointwise(d, StartActive(d, u), UnfinishedOfPair(u, s), UnfinishedOfPair(u, s));
  }

  /** Each round adds one unfinished row of the pair. */
  lemma RoundAddsAnAttempt(d: seq<Detail>, u: int, s: int, isStart: Option<bool>)
    ensures FindReassignCount(Round(d, u, s, isStart), u, s) == FindReassignCount(d, u, s) + 1
  {
    var e := StartActive(d, u);
    StartActiveKeepsReassignCount(d, u, s);
    DeactivationKeepsReassignCount(e, u, s);
    var x := NewDetail(u, s, isStart, FindReassignCount(e, u, s));
    CountAppend(DeactivatePair(e, u, s), x, UnfinishedOfPair(u, s));
  }

  /** A round finishes no row of the pair. */
  lemma RoundFinishesNothing(d: seq<Detail>, u: int, s: int, isStart: Option<bool>)
    requires NoneFinished(d, u, s)
    ensures NoneFinished(Round(d, u, s, isStart), u, s)
  {
  }

  /** A round ends with the pair's new active row. */
  lemma RoundEndsActive(d: seq<Detail>, u: int, s: int, isStart: Option<bool>)
    ensures var r := Round(d, u, s, isStart);
      |r| == |d| + 1 && r[|d|].userId == u && r[|d|].subjectId == s && r[|d|].isActive
  {
  }

  /** The first assignment is the pair's only unfinished row. */
  lemma AssignmentIsFirstAttempt(base: seq<Detail>, u: int, s: int, isStart: Option<bool>)
    requires NoRowsOf(base, u, s)
    ensures FindReassignCount(base + [NewDetail(u, s, isStart, DEFAULT_REASSIGN_COUNT)], u, s) == 1
  {
    CountAppend(base, NewDetail(u, s, isStart, DEFAULT_REASSIGN_COUNT), UnfinishedOfPair(u, s));
    assert FindReassignCount(base, u, s) == 0;
  }

  /**
    After the assignment and `k` rounds the pair has `k + 1` unfinished
    rows, none of them finished, and its last row is active.
   */
  lemma AttemptsShape(base: seq<Detail>, u: int, s: int, isStart: Option<bool>, k: nat)
    requires NoRowsOf(base, u, s)
    ensures var d := Attempts(base, u, s, isStart, k);
      FindReassignCount(d, u, s) == k + 1 && NoneFinished(d, u, s) && EndsActive(d, u, s)
  {
    var first := base + [NewDetail(u, s, isStart, DEFAULT_REASSIGN_COUNT)];
    var step := RoundStep(u, s, isStart);
    AssignmentIsFirstAttempt(base, u, s, isStart);
    forall y
      ensures FindReassignCount(step(y), u, s) == FindReassignCount(y, u, s) + 1
      ensures NoneFinished(y, u, s) ==> NoneFinished(step(y), u, s)
      ensures EndsActive(step(y), u, s)
    {
      RoundAddsAnAttempt(y, u, s, isStart);
      if NoneFinished(y, u, s) {
        RoundFinishesNothing(y, u, s, isStart);
      }
      RoundEndsActive(y, u, s, isStart);
    }
    IterateCounts(step, d => FindReassignCount(d, u, s), first, k);
    IterateKeeps(step, d => NoneFinished(d, u, s), first, k);
    IterateKeeps(step, d => EndsActive(d, u, s), first, k);
  }

  /**
    The reassignment limit: after the assignment and `k` rounds, with the
    candidate logged in once more, the pair can be reassigned again exactly
    when `k < 10`. So ten reassignments go through and the eleventh is
    refused with the limit message.
   */
  lemma ReassignmentLimit(base: seq<Detail>, u: int, s: int, isStart: Option<bool>, k: nat)
    requires NoRowsOf(base, u, s)
    ensures var d := StartActive(Attempts(base, u, s, isStart, k), u);
      (ReassignCheck(d, u, s).None? <==> k < MAX_ATTEMPTS) &&
      (k >= MAX_ATTEMPTS ==> ReassignCheck(d, u, s) == Some(Utils.BadRequest(LIMIT_EXCEEDED)))
  {
    var a := Attempts(base, u, s, isStart, k);
    AttemptsShape(base, u, s, isStart, k);
    StartActiveKeepsReassignCount(a, u, s);
    LoginStartsPendingTest(a, u, s);
  }

  /**
    When the pair's last row is active and none of its rows is finished,
    logging in leaves a started row and no completed one.
   */
  lemma LoginStartsPendingTest(a: seq<Detail>, u: int, s: int)
    requires EndsActive(a, u, s) && NoneFinished(a, u, s)
    ensures IsTestStarted(StartActive(a, u), u, s).Some?
    ensures FindIfUserCompletedTestAlready(StartActive(a, u), u, s).None?
  {
    var d := StartActive(a, u);
    var last := |a| - 1;
    assert d[last].userId == u && d[last].subjectId == s && d[last].isActive && d[last].isStart == Some(true);
  }

  /**
    Once the candidate submits, the test cannot be reassigned: the scored
    row is finished, so the reassignment guard refuses it.
   */
  lemma SubmittedTestCannotBeReassigned(d: seq<Detail>, u: int, s: int, score: string, percentage: int)
    requires FindUserWithSubject(d, u, s).Some?
    ensures ReassignCheck(FinishActive(d, u, s, score, percentage), u, s).Some?
    ensures FindIfUserSubmittedTestAlready(FinishActive(d, u, s, score, percentage), u, s).Some?
  {
    var i :| 0 <= i < |d| && d[i].userId == u && d[i].subjectId == s && d[i].isActive;
    var f := FinishActive(d, u, s, score, percentage);
    assert f[i].userId == u && f[i].subjectId == s && f[i].isFinish && !f[i].isActive;
  }

  /** Once the candidate submits, a second submission of the same test is refused. */
  lemma NoSecondSubmission(subjects: seq<Subject>, users: seq<User>, d: seq<Detail>,
                           u: int, s: int, score: string, percentage: int)
    requires FindUserWithSubject(d, u, s).Some?
    ensures EvaluateCheck(subjects, users, FinishActive(d, u, s, score, percentage), u, s).Some?
  {
    SubmittedTestCannotBeReassigned(d, u, s, score, percentage);
  }
}
