/**
  The authentication repository (src/modules/auth/auth.repository.ts):
  user lookups by email and by password, the session-token writes, and the
  start flag that a candidate's login sets on their active test rows.
 */
module AuthRepository {
  import opened Wrappers
  import opened Tables
  import opened Store
  import opened Bank
  import opened TestRepository

  /** An active user found by email, with that user's active test rows in table order. */
  datatype ExistingUser = ExistingUser(user: User, activeTests: seq<Detail>)

  /** `isExistingUser`: the first active user with this email, and that user's active test rows. */
  function IsExistingUser(users: seq<User>, details: seq<Detail>, email: string): (r: Option<ExistingUser>)
    ensures r.None? <==> forall i :: 0 <= i < |users| ==> !(users[i].isActive && users[i].email == email)
    ensures r.Some? ==> exists i :: 0 <= i < |users| && users[i] == r.value.user && r.value.user.isActive &&
                          r.value.user.email == email &&
                          forall j :: 0 <= j < i ==> !(users[j].isActive && users[j].email == email)
    ensures r.Some? ==> forall x :: x in r.value.activeTests ==>
                          x in details && x.userId == r.value.user.id && x.isActive
    ensures r.Some? ==> |r.value.activeTests| == Count(details, ActiveOfUser(r.value.user.id))
  {
    match FindFirst(users, (x: User) => x.isActive && x.email == email)
    case None => None
    case Some(x) => Some(ExistingUser(x, Filter(details, ActiveOfUser(x.id))))
  }

  /**
    The test rows included with the user found are all that user's active
    rows, each as often as the table holds it, and nothing else, in table
    order.
   */
  lemma ExistingUserTestsExact(users: seq<User>, details: seq<Detail>, email: string)
    ensures var r := IsExistingUser(users, details, email);
      r.Some? ==>
        var u := r.value.user.id;
        (forall i :: 0 <= i < |details| && details[i].userId == u && details[i].isActive ==>
           details[i] in r.value.activeTests &&
           multiset(r.value.activeTests)[details[i]] == multiset(details)[details[i]]) &&
        InOrderAt(r.value.activeTests, details, FilterIndices(details, ActiveOfUser(u))) &&
        (forall i :: 0 <= i < |details| ==> (ActiveOfUser(u)(details[i]) <==> i in FilterIndices(details, ActiveOfUser(u))))
  {
    match IsExistingUser(users, details, email)
    case None =>
    case Some(e) =>
      FilterExact(details, ActiveOfUser(e.user.id));
      FilterInTableOrder(details, ActiveOfUser(e.user.id));
  }

  /** `CheckPassword`: a user with this id whose stored mobile number equals the password. */
  function CheckPassword(users: seq<User>, id: int, password: string): (r: Option<User>)
    ensures r.None? <==> forall i :: 0 <= i < |users| ==> !(users[i].id == id && users[i].mobile == password)
    ensures r.Some? ==> r.value in users && r.value.id == id && r.value.mobile == password
  {
    FindFirst(users, (x: User) => x.id == id && x.mobile == password)
  }

  /** The first active user with this id: the row `updateToken` writes and returns. */
  function ActiveUserById(users: seq<User>, id: int): (r: Option<User>)
    ensures r.None? <==> forall i :: 0 <= i < |users| ==> !(users[i].id == id && users[i].isActive)
    ensures r.Some? ==> r.value in users && r.value.id == id && r.value.isActive
  {
    FindFirst(users, (x: User) => x.id == id && x.isActive)
  }

  /** `findQuestionCount`: the number of active questions of the subject. */
  function FindQuestionCount(questions: seq<Question>, subjectId: int): (n: nat)
    ensures n == |ActiveQuestions(questions, subjectId)|
    ensures n == 0 <==> forall i :: 0 <= i < |questions| ==> !(questions[i].subjectId == subjectId && questions[i].isActive)
  {
    Count(questions, ActiveQuestionOfSubject(subjectId))
  }

  /** The users after the token update: active rows with this id carry the token. */
  function WithToken(users: seq<User>, id: int, token: string): (r: seq<User>)
    ensures |r| == |users|
    ensures forall i :: 0 <= i < |users| && !(users[i].id == id && users[i].isActive) ==> r[i] == users[i]
    ensures forall i :: 0 <= i < |users| && users[i].id == id && users[i].isActive ==>
              r[i] == users[i].(token := Some(token))
  {
    seq(|users|, i requires 0 <= i < |users| =>
      if users[i].id == id && users[i].isActive then users[i].(token := Some(token)) else users[i])
  }

  /** The users after logout: rows with this id, active or not, have no token. */
  function WithoutToken(users: seq<User>, id: int): (r: seq<User>)
    ensures |r| == |users|
    ensures forall i :: 0 <= i < |users| && users[i].id != id ==> r[i] == users[i]
    ensures forall i :: 0 <= i < |users| && users[i].id == id ==> r[i] == users[i].(token := None)
  {
    seq(|users|, i requires 0 <= i < |users| =>
      if users[i].id == id then users[i].(token := None) else users[i])
  }

  /** The test rows after a candidate's login: the user's active rows are marked started. */
  function StartActive(d: seq<Detail>, u: int): (r: seq<Detail>)
    ensures |r| == |d|
    ensures forall i :: 0 <= i < |d| && !(d[i].userId == u && d[i].isActive) ==> r[i] == d[i]
    ensures forall i :: 0 <= i < |d| && d[i].userId == u && d[i].isActive ==>
              r[i] == d[i].(isStart := Some(true))
  {
    seq(|d|, i requires 0 <= i < |d| =>
      if d[i].userId == u && d[i].isActive then d[i].(isStart := Some(true)) else d[i])
  }

  /**
    `updateToken`: stores the token on the active user with this id and, for
    role User, marks that user's active test rows started. Returns the
    updated user; with no such user nothing is written.
   */
  method UpdateToken(db: Db, id: int, roleId: int, token: string) returns (r: Option<User>)
    modifies db`users, db`details
    ensures ActiveUserById(old(db.users), id).None? ==>
              r.None? && db.users == old(db.users) && db.details == old(db.details)
    ensures ActiveUserById(old(db.users), id).Some? ==>
              db.users == WithToken(old(db.users), id, token) &&
              db.details == (if roleId == USER then StartActive(old(db.details), id) else old(db.details)) &&
              r == ActiveUserById(db.users, id) && r.Some? && r.value.token == Some(token)
  {
    if ActiveUserById(db.users, id).None? {
      return None;
    }
    var i := First(db.users, (x: User) => x.id == id && x.isActive).value;
    db.users := WithToken(db.users, id, token);
    if roleId == USER {
      db.details := StartActive(db.details, id);
    }
    r := ActiveUserById(db.users, id);
    assert db.users[i].id == id && db.users[i].isActive;
  }

  /** `logout`: clears the token of the rows with this id. */
  method Logout(db: Db, id: int)
    modifies db`users
    ensures db.users == WithoutToken(old(db.users), id)
  {
    db.users := WithoutToken(db.users, id);
  }

  /** Marking rows started twice is the same as once. */
  lemma StartActiveIdempotent(d: seq<Detail>, u: int)
    ensures StartActive(StartActive(d, u), u) == StartActive(d, u)
  {
  }

  /** Marking rows started changes neither `isActive`, `isFinish` nor the score, so the row invariants hold. */
  lemma StartActiveKeepsConsistent(d: seq<Detail>, u: int)
    requires Consistent(d)
    ensures Consistent(StartActive(d, u))
  {
  }

  /**
    The first of the active rows `isExistingUser` includes is the row
    `findSubjectByUserId` returns: login and the hand-out of questions read
    the same assignment.
   */
  lemma SnapshotHeadIsFirstActiveRow(users: seq<User>, details: seq<Detail>, email: string)
    requires IsExistingUser(users, details, email).Some?
    requires IsExistingUser(users, details, email).value.activeTests != []
    ensures var x := IsExistingUser(users, details, email).value;
      FindSubjectByUserId(details, x.user.id).Some? &&
      x.activeTests[0] == FindSubjectByUserId(details, x.user.id).value
  {
    var x := IsExistingUser(users, details, email).value;
    FilterHeadIsFirst(details, ActiveOfUser(x.user.id));
  }

  /** Which user an email finds does not depend on the test rows. */
  lemma IsExistingUserIgnoresDetails(users: seq<User>, d1: seq<Detail>, d2: seq<Detail>, email: string)
    ensures IsExistingUser(users, d1, email).Some? == IsExistingUser(users, d2, email).Some?
    ensures IsExistingUser(users, d1, email).Some? ==>
              IsExistingUser(users, d1, email).value.user == IsExistingUser(users, d2, email).value.user
  {
  }
}
