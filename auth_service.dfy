/**
  The authentication service (src/modules/auth/auth.service.ts): login,
  which for a candidate also opens the assigned test, and logout.
 */
module AuthService {
  import opened Wrappers
  import opened Tables
  import opened Store
  import opened Utils
  import opened TestRepository
  import opened AuthRepository
  import opened Bank

  const TEST_NOT_ASSIGNED: string := "Test has not been assigned to the user. Cannot proceed."
  const TEST_ALREADY_TAKEN: string :=
    "Test already taken. In case there were any network issues during the test, please contact HR for assistance."

  /**
    What a login returns: staff get their session; a candidate also gets the
    number of questions of the assigned subject; any other role gets nothing.
   */
  datatype LoginResult =
    | StaffSession(user: User)
    | CandidateSession(user: User, questionCount: nat)
    | NoSession

  /** The credential checks of `login`: an active user with this email whose password matches. */
  function Authenticate(users: seq<User>, details: seq<Detail>, email: string, password: string): (r: Result<ExistingUser, HttpError>)
    ensures (forall i :: 0 <= i < |users| ==> !(users[i].isActive && users[i].email == email)) <==>
            r == Err(BadRequest(NOT_A_EXISTING_USER))
    ensures r.Ok? <==> IsExistingUser(users, details, email).Some? &&
                       exists i :: 0 <= i < |users| &&
                         users[i].id == IsExistingUser(users, details, email).value.user.id && users[i].mobile == password
    ensures r.Ok? ==> r == Ok(IsExistingUser(users, details, email).value)
    ensures r.Err? ==> r.error.status == BAD_REQUEST
  {
    match IsExistingUser(users, details, email)
    case None => Err(BadRequest(NOT_A_EXISTING_USER))
    case Some(x) =>
      if CheckPassword(users, x.user.id, password).None? then Err(BadRequest(PASSWORD_MISMATCH))
      else Ok(x)
  }

  /**
    The role checks of `login`, on the snapshot read before the token
    update: staff pass; a candidate needs an active test row whose start
    flag is not true, and gets that subject's active-question count.
   */
  function LoginGate(x: ExistingUser, updated: User, questions: seq<Question>): (r: Result<LoginResult, HttpError>)
    ensures x.user.roleId == ADMIN || x.user.roleId == SUPER_ADMIN ==> r == Ok(StaffSession(updated))
    ensures x.user.roleId == USER && x.activeTests == [] ==> r == Err(BadRequest(TEST_NOT_ASSIGNED))
    ensures x.user.roleId == USER && x.activeTests != [] && x.activeTests[0].isStart == Some(true) ==>
              r == Err(BadRequest(TEST_ALREADY_TAKEN))
    ensures x.user.roleId == USER && r.Ok? ==>
              x.activeTests != [] && x.activeTests[0].isStart != Some(true) &&
              r == Ok(CandidateSession(updated, |ActiveQuestions(questions, x.activeTests[0].subjectId)|))
    ensures x.user.roleId !in {ADMIN, SUPER_ADMIN, USER} ==> r == Ok(NoSession)
  {
    if x.user.roleId == ADMIN || x.user.roleId == SUPER_ADMIN then Ok(StaffSession(updated))
    else if x.user.roleId == USER then
      if |x.activeTests| == 0 then Err(BadRequest(TEST_NOT_ASSIGNED))
      else if x.activeTests[0].isStart == Some(true) then Err(BadRequest(TEST_ALREADY_TAKEN))
      else Ok(CandidateSession(updated, FindQuestionCount(questions, x.activeTests[0].subjectId)))
    else Ok(NoSession)
  }

  /**
    `login`. The token (from the token generator, outside this model) is
    stored and, for a candidate, the active test rows are marked started,
    BEFORE the role checks run on the earlier snapshot: a rejected candidate
    login has still written both.
   */
  method Login(db: Db, email: string, password: string, token: string) returns (r: Result<LoginResult, HttpError>)
    modifies db`users, db`details
    ensures Authenticate(old(db.users), old(db.details), email, password).Err? ==>
              r == Err(Authenticate(old(db.users), old(db.details), email, password).error) &&
              db.users == old(db.users) && db.details == old(db.details)
    ensures Authenticate(old(db.users), old(db.details), email, password).Ok? ==>
              var x := Authenticate(old(db.users), old(db.details), email, password).value;
              db.users == WithToken(old(db.users), x.user.id, token) &&
              db.details == (if x.user.roleId == USER then StartActive(old(db.details), x.user.id) else old(db.details)) &&
              ActiveUserById(db.users, x.user.id).Some? &&
              r == LoginGate(x, ActiveUserById(db.users, x.user.id).value, db.questions)
  {
    var auth := Authenticate(db.users, db.details, email, password);
    if auth.Err? {
      return Err(auth.error);
    }
    var x := auth.value;
    var i := First(db.users, (y: User) => y.isActive && y.email == email).value;
    assert db.users[i].id == x.user.id && db.users[i].isActive;
    var updated := UpdateToken(db, x.user.id, x.user.roleId, token);
    r := LoginGate(x, updated.value, db.questions);
  }

  /** `logout`: an unknown email is rejected; otherwise that user's token is cleared. */
  method Logout(db: Db, email: string) returns (r: Outcome<HttpError>)
    modifies db`users
    ensures IsExistingUser(old(db.users), old(db.details), email).None? ==>
              r == Fail(BadRequest(NOT_A_EXISTING_USER)) && db.users == old(db.users)
    ensures IsExistingUser(old(db.users), old(db.details), email).Some? ==>
              r == Pass && db.users == WithoutToken(old(db.users), IsExistingUser(old(db.users), old(db.details), email).value.user.id)
  {
    var found := IsExistingUser(db.users, db.details, email);
    if found.None? {
      return Fail(BadRequest(NOT_A_EXISTING_USER));
    }
    AuthRepository.Logout(db, found.value.user.id);
    r := Pass;
  }

  /** A login changes neither emails, mobiles, roles nor activity, so the same credentials find the same user. */
  lemma {:induction false} LoginKeepsCredentials(users: seq<User>, details: seq<Detail>, details': seq<Detail>,
                                                 email: string, password: string, token: string)
    requires Authenticate(users, details, email, password).Ok?
    ensures var x := Authenticate(users, details, email, password).value;
      var a := Authenticate(WithToken(users, x.user.id, token), details', email, password);
      a.Ok? && a.value.user.id == x.user.id && a.value.user.roleId == x.user.roleId &&
      a.value.activeTests == Filter(details', ActiveOfUser(x.user.id))
  {
    var x := Authenticate(users, details, email, password).value;
    var id := x.user.id;
    var users' := WithToken(users, id, token);
    var byEmail := (y: User) => y.isActive && y.email == email;
    FirstPointwise(users, users', byEmail, byEmail);
    var i := First(users, byEmail).value;
    assert users'[i].id == id && users'[i].roleId == x.user.roleId;
    var k :| 0 <= k < |users| && users[k].id == id && users[k].mobile == password;
    assert users'[k].id == id && users'[k].mobile == password;
  }

  /** After the start flags are set, the user's active rows are still there and the first is started. */
  lemma StartedSnapshot(details: seq<Detail>, id: int)
    requires Count(details, ActiveOfUser(id)) > 0
    ensures var f := Filter(StartActive(details, id), ActiveOfUser(id));
      f != [] && f[0].isStart == Some(true)
  {
    CountPointwise(details, StartActive(details, id), ActiveOfUser(id), ActiveOfUser(id));
    var f := Filter(StartActive(details, id), ActiveOfUser(id));
    assert f[0] in f;
  }

  /**
    A candidate who got past the credential checks with an assigned test
    cannot log in a second time: the first login marked the active rows
    started, so the next one fails with "Test already taken", whatever the
    outcome of the first.
   */
  lemma SecondLoginIsRejected(users: seq<User>, details: seq<Detail>, questions: seq<Question>,
                              email: string, password: string, token: string, updated: User)
    requires Authenticate(users, details, email, password).Ok?
    requires Authenticate(users, details, email, password).value.user.roleId == USER
    requires Authenticate(users, details, email, password).value.activeTests != []
    ensures var x := Authenticate(users, details, email, password).value;
      var users' := WithToken(users, x.user.id, token);
      var details' := StartActive(details, x.user.id);
      Authenticate(users', details', email, password).Ok? &&
      LoginGate(Authenticate(users', details', email, password).value, updated, questions) ==
        Err(BadRequest(TEST_ALREADY_TAKEN))
  {
    var x := Authenticate(users, details, email, password).value;
    LoginKeepsCredentials(users, details, StartActive(details, x.user.id), email, password, token);
    StartedSnapshot(details, x.user.id);
  }
}
