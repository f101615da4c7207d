/**
  The user service (src/modules/user/user.service.ts): who may create or
  update which kind of account, the shape checks on email addresses and
  mobile numbers, whitespace clean-up, and the validation of a spreadsheet
  of candidates before a bulk upload.
 */
module UserService {
  import opened Wrappers
  import opened Tables
  import opened Store
  import opened Utils
  import opened Text

  const ONLY_SUPER_ADMIN_CREATES: string := "Only a Super Admin can create an Admin."
  const CREATE_FAILED: string := "Failed to create a user"
  const USER_NOT_FOUND: string := "User not found"
  const ONLY_SUPER_ADMIN_UPDATES: string := "Only a Super Admin can update an Admin."
  const UPDATE_FAILED: string := "Failed to update a user"

  /** The repository write a permitted create or update makes. */
  datatype UserWrite = WriteAdmin | WriteUser

  // ---------------------------------------------------------------------
  // Role rules
  // ---------------------------------------------------------------------

  /** `isExistingEmail`: some active user has this email. */
  predicate EmailTaken(users: seq<User>, email: string)
  {
    Count(users, (u: User) => u.isActive && u.email == email) > 0
  }

  /** `isExistingMobile`: some active user has this mobile number. */
  predicate MobileTaken(users: seq<User>, mobile: string)
  {
    Count(users, (u: User) => u.isActive && u.mobile == mobile) > 0
  }

  /** `isEmailExistExceptId`: some other active user has this email. */
  predicate EmailTakenByOther(users: seq<User>, id: int, email: string)
  {
    Count(users, (u: User) => u.isActive && u.email == email && u.id != id) > 0
  }

  /** `isMobileExistExceptId`: some other active user has this mobile number. */
  predicate MobileTakenByOther(users: seq<User>, id: int, mobile: string)
  {
    Count(users, (u: User) => u.isActive && u.mobile == mobile && u.id != id) > 0
  }

  /**
    `createUser` by a caller of role `creatorRole`: an email, then a mobile
    number, already held by an active user is refused; an Admin or Super
    Admin account needs a Super Admin creator; a User account may be created
    by anyone; any other role is refused.
   */
  function CreateUserCheck(users: seq<User>, creatorRole: int, email: string, mobile: string, roleId: int)
    : (r: Result<UserWrite, HttpError>)
    ensures r.Ok? ==> forall i :: 0 <= i < |users| && users[i].isActive ==>
                        users[i].email != email && users[i].mobile != mobile
    ensures (exists i :: 0 <= i < |users| && users[i].isActive && users[i].email == email) ==>
              r == Err(BadRequest(EMAIL_ALREADY_EXIST))
    ensures (forall i :: 0 <= i < |users| && users[i].isActive ==> users[i].email != email) &&
            (exists i :: 0 <= i < |users| && users[i].isActive && users[i].mobile == mobile) ==>
              r == Err(BadRequest(MOBILE_ALREADY_EXIST))
    ensures r == Ok(WriteAdmin) <==>
              !EmailTaken(users, email) && !MobileTaken(users, mobile) &&
              (roleId == ADMIN || roleId == SUPER_ADMIN) && creatorRole == SUPER_ADMIN
    ensures r == Ok(WriteUser) <==> !EmailTaken(users, email) && !MobileTaken(users, mobile) && roleId == USER
    ensures r == Err(BadRequest(ONLY_SUPER_ADMIN_CREATES)) <==>
              !EmailTaken(users, email) && !MobileTaken(users, mobile) &&
              (roleId == ADMIN || roleId == SUPER_ADMIN) && creatorRole != SUPER_ADMIN
    ensures r == Err(BadRequest(CREATE_FAILED)) <==>
              !EmailTaken(users, email) && !MobileTaken(users, mobile) &&
              roleId != ADMIN && roleId != SUPER_ADMIN && roleId != USER
  {
    if EmailTaken(users, email) then Err(BadRequest(EMAIL_ALREADY_EXIST))
    else if MobileTaken(users, mobile) then Err(BadRequest(MOBILE_ALREADY_EXIST))
    else if roleId == ADMIN || roleId == SUPER_ADMIN then
      if creatorRole == SUPER_ADMIN then Ok(WriteAdmin) else Err(BadRequest(ONLY_SUPER_ADMIN_CREATES))
    else if roleId == USER then Ok(WriteUser)
    else Err(BadRequest(CREATE_FAILED))
  }

  /** `findUserById`: the first active user with this id. */
  function FindUserById(users: seq<User>, id: int): (r: Option<User>)
    ensures r.None? <==> forall i :: 0 <= i < |users| ==> !(users[i].id == id && users[i].isActive)
    ensures r.Some? ==> r.value in users && r.value.id == id && r.value.isActive
  {
    match First(users, (u: User) => u.id == id && u.isActive)
    case None => None
    case Some(i) => Some(users[i])
  }

  /**
    `updateUser` of account `userId` by a caller of role `updaterRole`: the
    account must be active; its new email, then its new mobile number, must
    not belong to another active user; an Admin account needs a Super Admin
    updater; a User account may be updated by anyone; any other account, a
    Super Admin included, is refused.
   */
  function UpdateUserCheck(users: seq<User>, updaterRole: int, userId: int, email: string, mobile: string)
    : (r: Result<UserWrite, HttpError>)
    ensures FindUserById(users, userId).None? ==> r == Err(NotFound(USER_NOT_FOUND))
    ensures FindUserById(users, userId).Some? &&
            (exists i :: 0 <= i < |users| && users[i].isActive && users[i].email == email && users[i].id != userId) ==>
              r == Err(BadRequest(EMAIL_ALREADY_EXIST))
    ensures FindUserById(users, userId).Some? && !EmailTakenByOther(users, userId, email) &&
            (exists i :: 0 <= i < |users| && users[i].isActive && users[i].mobile == mobile && users[i].id != userId) ==>
              r == Err(BadRequest(MOBILE_ALREADY_EXIST))
    ensures r == Err(BadRequest(ONLY_SUPER_ADMIN_UPDATES)) <==>
              FindUserById(users, userId).Some? && FindUserById(users, userId).value.roleId == ADMIN &&
              !EmailTakenByOther(users, userId, email) && !MobileTakenByOther(users, userId, mobile) &&
              updaterRole != SUPER_ADMIN
    ensures r.Ok? ==> forall i :: 0 <= i < |users| && users[i].isActive && users[i].id != userId ==>
                        users[i].email != email && users[i].mobile != mobile
    ensures r == Ok(WriteAdmin) <==>
              FindUserById(users, userId).Some? && FindUserById(users, userId).value.roleId == ADMIN &&
              !EmailTakenByOther(users, userId, email) && !MobileTakenByOther(users, userId, mobile) &&
              updaterRole == SUPER_ADMIN
    ensures r == Ok(WriteUser) <==>
              FindUserById(users, userId).Some? && FindUserById(users, userId).value.roleId == USER &&
              !EmailTakenByOther(users, userId, email) && !MobileTakenByOther(users, userId, mobile)
    ensures FindUserById(users, userId).Some? && FindUserById(users, userId).value.roleId == SUPER_ADMIN &&
            !EmailTakenByOther(users, userId, email) && !MobileTakenByOther(users, userId, mobile) ==>
              r == Err(BadRequest(UPDATE_FAILED))
  {
    match FindUserById(users, userId)
    case None => Err(NotFound(USER_NOT_FOUND))
    case Some(target) =>
      if EmailTakenByOther(users, userId, email) then Err(BadRequest(EMAIL_ALREADY_EXIST))
      else if MobileTakenByOther(users, userId, mobile) then Err(BadRequest(MOBILE_ALREADY_EXIST))
      else if target.roleId == ADMIN then
        if updaterRole == SUPER_ADMIN then Ok(WriteAdmin) else Err(BadRequest(ONLY_SUPER_ADMIN_UPDATES))
      else if target.roleId == USER then Ok(WriteUser)
      else Err(BadRequest(UPDATE_FAILED))
  }

  /**
    Only a Super Admin can make or change an Admin: an Admin caller can
    create and update User accounts and nothing else.
   */
  lemma OnlySuperAdminManagesAdmins(users: seq<User>, callerRole: int, userId: int, email: string, mobile: string,
                                    roleId: int)
    requires callerRole != SUPER_ADMIN
    ensures CreateUserCheck(users, callerRole, email, mobile, roleId).Ok? ==>
              CreateUserCheck(users, callerRole, email, mobile, roleId) == Ok(WriteUser) && roleId == USER
    ensures UpdateUserCheck(users, callerRole, userId, email, mobile).Ok? ==>
              UpdateUserCheck(users, callerRole, userId, email, mobile) == Ok(WriteUser) &&
              FindUserById(users, userId).value.roleId == USER
  {
  }

  // ---------------------------------------------------------------------
  // Email and mobile shapes
  // ---------------------------------------------------------------------

  /** A character the class `[^\s@]` matches. */
  predicate EmailChar(ch: char)
  {
    !IsSpace(ch) && ch != '@'
  }

  /**
    What `/^[^\s@]+@[^\s@]+\.[^\s@]+$/` matches, read off the pattern: an
    `@` at `i` and a `.` at `j` cut the string into three non-empty runs of
    `[^\s@]` (the dot itself is such a character).
   */
  ghost predicate MatchesEmailPattern(s: string)
  {
    exists i, j :: 0 < i && i + 1 < j && j + 1 < |s| && s[i] == '@' && s[j] == '.' &&
      forall k :: 0 <= k < |s| && k != i ==> EmailChar(s[k])
  }

  /** The domain has a `.` with text on both sides. */
  predicate HasInnerDot(domain: string)
  {
    exists p :: 0 < p < |domain| - 1 && domain[p] == '.'
  }

  /**
    `isValidEmail`: no whitespace, exactly one `@` with a non-empty local
    part before it, and a domain after it with a `.` that has text on
    both sides.
   */
  predicate IsValidEmail(s: string)
  {
    '@' in s &&
    var i := IndexOf(s, '@');
    0 < i && (forall k :: 0 <= k < |s| && k != i ==> EmailChar(s[k])) && HasInnerDot(s[i + 1..])
  }

  /** The check and the regular expression accept the same strings. */
  lemma IsValidEmailMatchesPattern(s: string)
    ensures IsValidEmail(s) <==> MatchesEmailPattern(s)
  {
    if IsValidEmail(s) {
      var i := IndexOf(s, '@');
      var p :| 0 < p < |s[i + 1..]| - 1 && s[i + 1..][p] == '.';
      assert s[i + 1 + p] == '.';
    }
    if MatchesEmailPattern(s) {
      var i, j :| 0 < i && i + 1 < j && j + 1 < |s| && s[i] == '@' && s[j] == '.' &&
                  forall k :: 0 <= k < |s| && k != i ==> EmailChar(s[k]);
      assert IndexOf(s, '@') == i;
      assert s[i + 1..][j - i - 1] == '.';
    }
  }

  /** `isValidIndianMobileNumber`: the pattern `^[6-9]{1}[0-9]{9}$`, ten digits led by 6 to 9. */
  predicate IsValidMobile(s: string)
  {
    |s| == 10 && '6' <= s[0] <= '9' && AllDigits(s)
  }

  /**
    A spreadsheet cell holding a number passes the mobile check as its
    decimal text, which happens exactly for the numbers from 6000000000 to
    9999999999.
   */
  lemma NumericMobileIsValid(n: nat)
    ensures IsValidMobile(DecimalText(n)) <==> 6000000000 <= n <= 9999999999
  {
    var s := DecimalText(n);
    var m := |s| - 1;
    ParseDecimalText(n);
    ParseDecimalBounds(s);
    var d, p := DigitValue(s[0]), Pow10(m);
    TenPowers();
    if m < 9 {
      Pow10Monotone(m + 1, 9);
      MulLe(d + 1, 10, p);
    } else if m > 9 {
      Pow10Monotone(10, m);
      MulLe(1, d, p);
    } else {
      assert p == 1000000000;
    }
  }

  // ---------------------------------------------------------------------
  // Whitespace clean-up
  // ---------------------------------------------------------------------

  /** `s` after its leading whitespace. */
  function SkipSpaces(s: string): (r: string)
    ensures |r| <= |s| && r == s[|s| - |r|..]
    ensures s != [] && IsSpace(s[0]) ==> |r| < |s|
    ensures r != [] ==> !IsSpace(r[0])
    ensures forall k :: 0 <= k < |s| - |r| ==> IsSpace(s[k])
  {
    if s != [] && IsSpace(s[0]) then SkipSpaces(s[1..]) else s
  }

  /** `s` before its trailing whitespace. */
  function SkipTrailingSpaces(s: string): (r: string)
    ensures |r| <= |s| && r == s[..|r|]
    ensures r != [] ==> !IsSpace(r[|r| - 1])
    ensures forall k :: |r| <= k < |s| ==> IsSpace(s[k])
  {
    if s != [] && IsSpace(s[|s| - 1]) then SkipTrailingSpaces(s[..|s| - 1]) else s
  }

  /** Every run of whitespace replaced by one space, as `replace(/\s+/g, ' ')`. */
  function CollapseSpaces(s: string): (r: string)
    ensures forall k :: 0 <= k < |r| && IsSpace(r[k]) ==> r[k] == ' '
    ensures forall k :: 0 <= k < |r| - 1 ==> !(r[k] == ' ' && r[k + 1] == ' ')
    ensures s != [] && !IsSpace(s[0]) ==> r != [] && r[0] == s[0]
    decreases |s|
  {
    if s == [] then []
    else if IsSpace(s[0]) then [' '] + CollapseSpaces(SkipSpaces(s))
    else [s[0]] + CollapseSpaces(s[1..])
  }

  /** `trim()`: it strips the same characters as `\s` matches. */
  function Trim(s: string): string
  {
    SkipTrailingSpaces(SkipSpaces(s))
  }

  /** `removeWhiteSpaces`: whitespace runs become one space, then the ends are trimmed. */
  function RemoveWhiteSpaces(s: string): string
  {
    Trim(CollapseSpaces(s))
  }

  /**
    The normal form: the only whitespace is the plain space, never two in a
    row and never at either end.
   */
  predicate Normalized(t: string)
  {
    (forall k :: 0 <= k < |t| && IsSpace(t[k]) ==> t[k] == ' ') &&
    (forall k :: 0 <= k < |t| - 1 ==> !(t[k] == ' ' && t[k + 1] == ' ')) &&
    (t != [] ==> !IsSpace(t[0]) && !IsSpace(t[|t| - 1]))
  }

  /** The characters that are not whitespace, in order. */
  function Visible(s: string): string
  {
    Filter(s, (ch: char) => !IsSpace(ch))
  }

  /** Whitespace other than the plain space never occurs, and spaces never come in pairs. */
  predicate SingleSpaced(t: string)
  {
    (forall k :: 0 <= k < |t| && IsSpace(t[k]) ==> t[k] == ' ') &&
    (forall k :: 0 <= k < |t| - 1 ==> !(t[k] == ' ' && t[k + 1] == ' '))
  }

  /** Dropping leading whitespace keeps the text single-spaced. */
  lemma {:induction false} SkipSpacesKeepsSingleSpaced(s: string)
    requires SingleSpaced(s)
    ensures SingleSpaced(SkipSpaces(s))
  {
    if s != [] && IsSpace(s[0]) {
      assert forall k :: 0 <= k < |s| - 1 ==> s[1..][k] == s[k + 1];
      SkipSpacesKeepsSingleSpaced(s[1..]);
    }
  }

  /** Dropping trailing whitespace keeps the text single-spaced. */
  lemma {:induction false} SkipTrailingKeepsSingleSpaced(s: string)
    requires SingleSpaced(s)
    ensures SingleSpaced(SkipTrailingSpaces(s))
  {
    if s != [] && IsSpace(s[|s| - 1]) {
      SkipTrailingKeepsSingleSpaced(s[..|s| - 1]);
    }
  }

  /** The clean-up always produces the normal form. */
  lemma RemoveWhiteSpacesNormalizes(s: string)
    ensures Normalized(RemoveWhiteSpaces(s))
  {
    var c := CollapseSpaces(s);
    SkipSpacesKeepsSingleSpaced(c);
    SkipTrailingKeepsSingleSpaced(SkipSpaces(c));
  }

  /** Text already in normal form is left as it is. */
  lemma {:induction false} CollapseKeepsNormalized(t: string)
    requires forall k :: 0 <= k < |t| && IsSpace(t[k]) ==> t[k] == ' '
    requires forall k :: 0 <= k < |t| - 1 ==> !(t[k] == ' ' && t[k + 1] == ' ')
    ensures CollapseSpaces(t) == t
    decreases |t|
  {
    if t != [] {
      if IsSpace(t[0]) {
        assert SkipSpaces(t) == t[1..] by {
          if |t| > 1 {
            assert !IsSpace(t[1]);
          }
        }
      }
      CollapseKeepsNormalized(t[1..]);
    }
  }

  /** The clean-up leaves normal-form text unchanged. */
  lemma NormalizedIsFixed(t: string)
    requires Normalized(t)
    ensures RemoveWhiteSpaces(t) == t
  {
    CollapseKeepsNormalized(t);
  }

  /** Cleaning up twice is cleaning up once. */
  lemma RemoveWhiteSpacesIdempotent(s: string)
    ensures RemoveWhiteSpaces(RemoveWhiteSpaces(s)) == RemoveWhiteSpaces(s)
  {
    RemoveWhiteSpacesNormalizes(s);
    NormalizedIsFixed(RemoveWhiteSpaces(s));
  }

  /** Putting a character in front adds it to the visible ones unless it is whitespace. */
  lemma VisibleCons(ch: char, s: string)
    ensures Visible([ch] + s) == (if IsSpace(ch) then [] else [ch]) + Visible(s)
  {
    FilterConcat([ch], s, (c: char) => !IsSpace(c));
    assert [ch][..0] == [];
  }

  /** Dropping leading whitespace keeps the visible characters. */
  lemma {:induction false} SkipSpacesKeepsVisible(s: string)
    ensures Visible(SkipSpaces(s)) == Visible(s)
  {
    if s != [] && IsSpace(s[0]) {
      VisibleCons(s[0], s[1..]);
      assert s == [s[0]] + s[1..];
      SkipSpacesKeepsVisible(s[1..]);
    }
  }

  /** Dropping trailing whitespace keeps the visible characters. */
  lemma {:induction false} SkipTrailingKeepsVisible(s: string)
    ensures Visible(SkipTrailingSpaces(s)) == Visible(s)
  {
    if s != [] && IsSpace(s[|s| - 1]) {
      SkipTrailingKeepsVisible(s[..|s| - 1]);
    }
  }

  /** Collapsing whitespace keeps every other character, in order. */
  lemma {:induction false} CollapseKeepsVisible(s: string)
    ensures Visible(CollapseSpaces(s)) == Visible(s)
    decreases |s|
  {
    if s != [] {
      if IsSpace(s[0]) {
        var rest := SkipSpaces(s);
        CollapseKeepsVisible(rest);
        VisibleCons(' ', CollapseSpaces(rest));
        SkipSpacesKeepsVisible(s);
      } else {
        CollapseKeepsVisible(s[1..]);
        VisibleCons(s[0], s[1..]);
        VisibleCons(s[0], CollapseSpaces(s[1..]));
        assert s == [s[0]] + s[1..];
      }
    }
  }

  /** The clean-up only changes whitespace: the other characters stay, in order. */
  lemma RemoveWhiteSpacesKeepsVisible(s: string)
    ensures Visible(RemoveWhiteSpaces(s)) == Visible(s)
  {
    var c := CollapseSpaces(s);
    CollapseKeepsVisible(s);
    SkipSpacesKeepsVisible(c);
    SkipTrailingKeepsVisible(SkipSpaces(c));
  }

  // ---------------------------------------------------------------------
  // Spreadsheet validation (`isValidData`)
  // ---------------------------------------------------------------------

  /** The columns every uploaded sheet must have (src/common/constant/constant.ts). */
  const REQUIRED_COLUMNS: seq<string> :=
    ["FirstName", "LastName", "Email", "Mobile", "DOB", "College", "Degree", "Specialization"]

  /** What the runtime throws when `Object.keys` is given the missing first row of an empty sheet. */
  const NO_FIRST_ROW: string := "Cannot convert undefined or null to object"

  /** A spreadsheet cell as the sheet reader gives it: text or a whole number. */
  datatype Cell = Text(text: string) | Number(n: nat)

  /** A sheet row: the column names it has a cell for, and the cells. */
  type Row = map<string, Cell>

  /** The cell of a column, absent when the row has none. */
  function Field(row: Row, column: string): Option<Cell>
  {
    if column in row then Some(row[column]) else None
  }

  /** `String(cell)`, which is also how a template literal and a regular expression test see it. */
  function CellString(c: Option<Cell>): string
  {
    match c
    case None => "undefined"
    case Some(Text(t)) => t
    case Some(Number(n)) => DecimalText(n)
  }

  function EmailOf(row: Row): string { CellString(Field(row, "Email")) }
  function MobileOf(row: Row): string { CellString(Field(row, "Mobile")) }

  /**
    `set.has(cell)` on a set that holds strings: only a text cell can be
    found, since a number is never the same value as a string.
   */
  predicate Has(seen: set<string>, c: Option<Cell>)
  {
    c.Some? && c.value.Text? && c.value.text in seen
  }

  // The column check

  /** The required columns the first row lacks, in the order they are required. */
  function MissingColumns(columns: set<string>): seq<string>
  {
    Filter(REQUIRED_COLUMNS, (c: string) => c !in columns)
  }

  /** Every missing required column is reported, and nothing else. */
  lemma MissingColumnsReportsEvery(columns: set<string>, c: string)
    ensures c in MissingColumns(columns) <==> c in REQUIRED_COLUMNS && c !in columns
  {
    if c in REQUIRED_COLUMNS && c !in columns {
      FilterKeeps(REQUIRED_COLUMNS, (c: string) => c !in columns, c);
    }
  }

  /** The loop that fills `errorFields`: the columns of `required` absent from `columns`. */
  method FindMissingColumns(required: seq<string>, columns: set<string>) returns (errorFields: seq<string>)
    ensures errorFields == Filter(required, (c: string) => c !in columns)
  {
    var missing := (c: string) => c !in columns;
    errorFields := [];
    for k := 0 to |required|
      invariant errorFields == Filter(required[..k], missing)
    {
      FilterPrefix(required, k, missing);
      if required[k] !in columns {
        errorFields := errorFields + [required[k]];
      }
    }
    assert required[..|required|] == required;
  }

  /** The message naming the missing columns, `field` or `fields` by their number. */
  function ColumnsMessage(missing: seq<string>): string
  {
    "Column names must match the following " + (if |missing| == 1 then "field" else "fields") + " : " +
    Join(missing, ',')
  }

  // The row scan

  /** The two sets and the duplicate list the row loop keeps. */
  datatype Seen = Seen(emails: set<string>, mobiles: set<string>, duplicates: seq<Row>)

  /** The shape checks of one row: the email first, then the mobile number. */
  function RowError(row: Row): (r: Option<HttpError>)
    ensures r.None? <==> IsValidEmail(EmailOf(row)) && IsValidMobile(MobileOf(row))
    ensures !IsValidEmail(EmailOf(row)) ==> r == Some(BadRequest("This " + EmailOf(row) + " is not a valid email"))
  {
    if !IsValidEmail(EmailOf(row)) then Some(BadRequest("This " + EmailOf(row) + " is not a valid email"))
    else if !IsValidMobile(MobileOf(row)) then Some(BadRequest("This " + MobileOf(row) + " is not a valid mobile number"))
    else None
  }

  /** A well-formed row is a duplicate when the sets already hold its email or its mobile number; otherwise both are added. */
  function Step(seen: Seen, row: Row): Seen
  {
    if Has(seen.emails, Field(row, "Email")) || Has(seen.mobiles, Field(row, "Mobile")) then
      seen.(duplicates := seen.duplicates + [row])
    else
      seen.(emails := seen.emails + {EmailOf(row)}, mobiles := seen.mobiles + {MobileOf(row)})
  }

  /** The row loop over the first rows: the first malformed row stops it. */
  function Scan(rows: seq<Row>): Result<Seen, HttpError>
  {
    if rows == [] then Ok(Seen({}, {}, []))
    else
      match Scan(rows[..|rows| - 1])
      case Err(e) => Err(e)
      case Ok(seen) =>
        var row := rows[|rows| - 1];
        if RowError(row).Some? then Err(RowError(row).value) else Ok(Step(seen, row))
  }

  /** Once a prefix is refused, the whole sheet is refused with the same error. */
  lemma {:induction false} ScanErrorSticks(rows: seq<Row>, k: nat)
    requires k <= |rows| && Scan(rows[..k]).Err?
    ensures Scan(rows) == Scan(rows[..k])
    decreases |rows| - k
  {
    if k < |rows| {
      assert rows[..k + 1][..k] == rows[..k];
      ScanErrorSticks(rows, k + 1);
    } else {
      assert rows[..k] == rows;
    }
  }

  /** The loop over the rows, with `emailSet`, `mobileSet` and `duplicateData`. */
  method ScanRows(data: array<Row>) returns (r: Result<Seen, HttpError>)
    ensures r == Scan(data[..])
  {
    var emailSet: set<string> := {};
    var mobileSet: set<string> := {};
    var duplicateData: seq<Row> := [];
    for k := 0 to data.Length
      invariant Scan(data[..k]) == Ok(Seen(emailSet, mobileSet, duplicateData))
    {
      var item := data[k];
      assert data[..k + 1][..k] == data[..k];
      if !IsValidEmail(CellString(Field(item, "Email"))) {
        ScanErrorSticks(data[..], k + 1);
        return Err(BadRequest("This " + CellString(Field(item, "Email")) + " is not a valid email"));
      } else if !IsValidMobile(CellString(Field(item, "Mobile"))) {
        ScanErrorSticks(data[..], k + 1);
        return Err(BadRequest("This " + CellString(Field(item, "Mobile")) + " is not a valid mobile number"));
      } else if Has(emailSet, Field(item, "Email")) || Has(mobileSet, Field(item, "Mobile")) {
        duplicateData := duplicateData + [item];
      } else {
        emailSet := emailSet + {CellString(Field(item, "Email"))};
        mobileSet := mobileSet + {CellString(Field(item, "Mobile"))};
      }
    }
    assert data[..data.Length] == data[..];
    r := Ok(Seen(emailSet, mobileSet, duplicateData));
  }

  /**
    The row loop stops at the first malformed row: the sheet is refused
    exactly when some row is malformed, with the error of the first one.
   */
  lemma {:induction false} ScanStopsAtFirstMalformedRow(rows: seq<Row>)
    ensures var bad := First(rows, (row: Row) => RowError(row).Some?);
      (Scan(rows).Err? <==> bad.Some?) &&
      (bad.Some? ==> Scan(rows) == Err(RowError(rows[bad.value]).value))
  {
    if rows != [] {
      ScanStopsAtFirstMalformedRow(rows[..|rows| - 1]);
      FirstExtends(rows, (row: Row) => RowError(row).Some?);
    }
  }

  /** Every row's email and mobile cells are text. */
  predicate TextContacts(rows: seq<Row>)
  {
    forall i :: 0 <= i < |rows| ==>
      Field(rows[i], "Email").Some? && Field(rows[i], "Email").value.Text? &&
      Field(rows[i], "Mobile").Some? && Field(rows[i], "Mobile").value.Text?
  }

  /** No two rows share an email or a mobile number. */
  predicate DistinctContacts(rows: seq<Row>)
  {
    forall i, j :: 0 <= i < j < |rows| ==> EmailOf(rows[i]) != EmailOf(rows[j]) && MobileOf(rows[i]) != MobileOf(rows[j])
  }

  /** The emails of the rows, as strings. */
  ghost function Emails(rows: seq<Row>): set<string>
  {
    set i | 0 <= i < |rows| :: EmailOf(rows[i])
  }

  /** The mobile numbers of the rows, as strings. */
  ghost function Mobiles(rows: seq<Row>): set<string>
  {
    set i | 0 <= i < |rows| :: MobileOf(rows[i])
  }

  /** One more row adds its email and mobile number. */
  lemma ContactsSnoc(rows: seq<Row>)
    requires rows != []
    ensures Emails(rows) == Emails(rows[..|rows| - 1]) + {EmailOf(rows[|rows| - 1])}
    ensures Mobiles(rows) == Mobiles(rows[..|rows| - 1]) + {MobileOf(rows[|rows| - 1])}
  {
    var init := rows[..|rows| - 1];
    assert forall j :: 0 <= j < |init| ==> rows[j] == init[j];
    assert EmailOf(rows[|rows| - 1]) in Emails(rows);
    assert MobileOf(rows[|rows| - 1]) in Mobiles(rows);
  }

  /** One more row keeps the contacts distinct exactly when its email and mobile number are new. */
  lemma DistinctSnoc(rows: seq<Row>)
    requires rows != []
    ensures var init, last := rows[..|rows| - 1], rows[|rows| - 1];
      DistinctContacts(rows) <==>
        DistinctContacts(init) && EmailOf(last) !in Emails(init) && MobileOf(last) !in Mobiles(init)
  {
    var init, last := rows[..|rows| - 1], rows[|rows| - 1];
    assert forall j :: 0 <= j < |init| ==> rows[j] == init[j];
    if EmailOf(last) in Emails(init) {
      var i :| 0 <= i < |init| && EmailOf(init[i]) == EmailOf(last);
      assert EmailOf(rows[i]) == EmailOf(rows[|rows| - 1]);
    }
    if MobileOf(last) in Mobiles(init) {
      var i :| 0 <= i < |init| && MobileOf(init[i]) == MobileOf(last);
      assert MobileOf(rows[i]) == MobileOf(rows[|rows| - 1]);
    }
  }

  /**
    With text cells and no duplicate collected, the sets hold every row's
    email and mobile number and nothing else.
   */
  lemma {:induction false} SetsHoldEveryRow(rows: seq<Row>)
    requires TextContacts(rows) && Scan(rows).Ok? && Scan(rows).value.duplicates == []
    ensures Scan(rows).value.emails == Emails(rows) && Scan(rows).value.mobiles == Mobiles(rows)
  {
    if rows != [] {
      var init := rows[..|rows| - 1];
      assert TextContacts(init) by {
        assert forall j :: 0 <= j < |init| ==> rows[j] == init[j];
      }
      SetsHoldEveryRow(init);
      ContactsSnoc(rows);
    }
  }

  /**
    With text cells, the loop collects no duplicate exactly when no two rows
    share an email or a mobile number.
   */
  lemma {:induction false} DuplicatesAreRepeats(rows: seq<Row>)
    requires TextContacts(rows) && Scan(rows).Ok?
    ensures Scan(rows).value.duplicates == [] <==> DistinctContacts(rows)
  {
    if rows != [] {
      var init, last := rows[..|rows| - 1], rows[|rows| - 1];
      assert TextContacts(init) by {
        assert forall j :: 0 <= j < |init| ==> rows[j] == init[j];
      }
      DuplicatesAreRepeats(init);
      DistinctSnoc(rows);
      if Scan(init).value.duplicates == [] {
        SetsHoldEveryRow(init);
      }
    }
  }

  /**
    As written, a mobile number the sheet holds as a number is never found
    in the set, which holds strings: two well-formed rows with different
    emails and the same numeric mobile number are both accepted.
   */
  lemma NumericMobileRepeatIsMissed(a: Row, b: Row, n: nat)
    requires Field(a, "Mobile") == Some(Number(n)) && Field(b, "Mobile") == Some(Number(n))
    requires RowError(a).None? && RowError(b).None?
    requires EmailOf(a) != EmailOf(b)
    ensures Scan([a, b]) == Ok(Seen({EmailOf(a), EmailOf(b)}, {DecimalText(n)}, []))
    ensures MobileOf(a) == MobileOf(b)
  {
    assert [a, b][..1] == [a];
    assert [a][..0] == [];
    var first := Seen({EmailOf(a)}, {MobileOf(a)}, []);
    var empty: seq<Row> := [];
    assert Scan(empty) == Ok(Seen({}, {}, []));
    assert Step(Seen({}, {}, []), a) == first;
    assert Scan([a]) == Ok(first);
    assert !Has(first.emails, Field(b, "Email"));
    assert !Has(first.mobiles, Field(b, "Mobile"));
    assert Scan([a, b]) == Ok(Step(first, b));
    assert MobileOf(a) == DecimalText(n) == MobileOf(b);
    assert Step(first, b).mobiles == {DecimalText(n)};
    assert Step(first, b).emails == {EmailOf(a), EmailOf(b)};
    assert Step(first, b).duplicates == [];
  }

  // The checks against stored users

  /** The emails of stored users, active or not, that the sheet holds. */
  function TakenEmails(users: seq<User>, emails: set<string>): (r: seq<string>)
    ensures forall k :: 0 <= k < |r| ==> r[k] in emails
    ensures r == [] <==> forall i :: 0 <= i < |users| ==> users[i].email !in emails
  {
    var held := Filter(users, (u: User) => u.email in emails);
    assert forall k :: 0 <= k < |held| ==> held[k] in held;
    Map(held, (u: User) => u.email)
  }

  /** The mobile numbers of stored users, active or not, that the sheet holds. */
  function TakenMobiles(users: seq<User>, mobiles: set<string>): (r: seq<string>)
    ensures forall k :: 0 <= k < |r| ==> r[k] in mobiles
    ensures r == [] <==> forall i :: 0 <= i < |users| ==> users[i].mobile !in mobiles
  {
    var held := Filter(users, (u: User) => u.mobile in mobiles);
    assert forall k :: 0 <= k < |held| ==> held[k] in held;
    Map(held, (u: User) => u.mobile)
  }

  function TakenMessage(what: string, taken: seq<string>): string
  {
    what + " already exists for the following " + (if |taken| == 1 then "user" else "users") + " : " + Join(taken, ',')
  }

  const DUPLICATES_FOUND: string := "Duplicate email or mobile found for the following email: "

  /**
    The checks of `isValidData`, in order: a first row must exist, it must
    have every required column, every row must be well-formed, no row may
    repeat an earlier email or mobile number, and no stored user may hold
    one of them. `None` when the sheet passes them all.
   */
  function Validation(rows: seq<Row>, users: seq<User>): (r: Option<Thrown>)
    ensures rows == [] ==> r.Some? && GetErrorMessageAndStatus(r.value) == HttpError(INTERNAL_SERVER_ERROR, NO_FIRST_ROW)
    ensures r.None? ==> rows != [] && (forall c :: c in REQUIRED_COLUMNS ==> c in rows[0]) && Scan(rows).Ok?
  {
    if rows == [] then Some(Thrown(Some(NO_FIRST_ROW), None))
    else
      var missing := MissingColumns(rows[0].Keys);
      if missing != [] then Some(Rethrown(BadRequest(ColumnsMessage(missing))))
      else
        assert forall c :: c in REQUIRED_COLUMNS ==> c in rows[0] by {
          forall c | c in REQUIRED_COLUMNS
            ensures c in rows[0]
          {
            MissingColumnsReportsEvery(rows[0].Keys, c);
          }
        }
        match Scan(rows)
        case Err(e) => Some(Rethrown(e))
        case Ok(seen) =>
          if seen.duplicates != [] then
            Some(Rethrown(BadRequest(DUPLICATES_FOUND + Join(Map(seen.duplicates, EmailOf), ','))))
          else if TakenEmails(users, seen.emails) != [] then
            Some(Rethrown(BadRequest(TakenMessage("Email", TakenEmails(users, seen.emails)))))
          else if TakenMobiles(users, seen.mobiles) != [] then
            Some(Rethrown(BadRequest(TakenMessage("Mobile", TakenMobiles(users, seen.mobiles)))))
          else None
  }

  /**
    A sheet of text cells that passes validation has well-formed rows, no
    email or mobile number twice, and none already held by a stored user.
   */
  lemma AcceptedSheet(rows: seq<Row>, users: seq<User>)
    requires Validation(rows, users).None? && TextContacts(rows)
    ensures forall i :: 0 <= i < |rows| ==> IsValidEmail(EmailOf(rows[i])) && IsValidMobile(MobileOf(rows[i]))
    ensures DistinctContacts(rows)
    ensures forall i, j :: 0 <= i < |rows| && 0 <= j < |users| ==>
              users[j].email != EmailOf(rows[i]) && users[j].mobile != MobileOf(rows[i])
  {
    ScanStopsAtFirstMalformedRow(rows);
    DuplicatesAreRepeats(rows);
    SetsHoldEveryRow(rows);
    var seen := Scan(rows).value;
    forall i, j | 0 <= i < |rows| && 0 <= j < |users|
      ensures users[j].email != EmailOf(rows[i]) && users[j].mobile != MobileOf(rows[i])
    {
      assert EmailOf(rows[i]) in seen.emails && MobileOf(rows[i]) in seen.mobiles;
    }
  }

  // Formatting

  /** `after` is `before` with the cell of every column of `columns` replaced by `f` of it. */
  ghost predicate RewrittenOn(before: Row, after: Row, columns: seq<string>, f: Option<Cell> -> Cell)
  {
    (forall c :: c in after <==> c in before || c in columns) &&
    (forall c :: c in columns ==> after[c] == f(Field(before, c))) &&
    (forall c :: c in before && c !in columns ==> after[c] == before[c])
  }

  /** The row with the cell of every column of `columns` replaced by `f` of it. */
  function Rewritten(before: Row, columns: seq<string>, f: Option<Cell> -> Cell): Row
    decreases |columns|
  {
    if columns == [] then before
    else
      var c := columns[|columns| - 1];
      Rewritten(before, columns[..|columns| - 1], f)[c := f(Field(before, c))]
  }

  /** What the rewrite does to each column. */
  lemma {:induction false} RewrittenMeaning(before: Row, columns: seq<string>, f: Option<Cell> -> Cell)
    ensures RewrittenOn(before, Rewritten(before, columns, f), columns, f)
    decreases |columns|
  {
    if columns != [] {
      var init := columns[..|columns| - 1];
      RewrittenMeaning(before, init, f);
      assert columns == init + [columns[|columns| - 1]];
    }
  }

  /** Only one row is the rewrite of a row. */
  lemma RewrittenOnUnique(before: Row, x: Row, y: Row, columns: seq<string>, f: Option<Cell> -> Cell)
    requires RewrittenOn(before, x, columns, f) && RewrittenOn(before, y, columns, f)
    ensures x == y
  {
    assert x.Keys == y.Keys;
  }

  /** Rewriting twice with a cell function that is idempotent on its own results is rewriting once. */
  lemma RewriteTwice(row: Row, columns: seq<string>, f: Option<Cell> -> Cell)
    requires forall x :: f(Some(f(x))) == f(x)
    ensures Rewritten(Rewritten(row, columns, f), columns, f) == Rewritten(row, columns, f)
  {
    var once := Rewritten(row, columns, f);
    RewrittenMeaning(row, columns, f);
    RewrittenMeaning(once, columns, f);
    RewrittenOnUnique(once, Rewritten(once, columns, f), once, columns, f);
  }

  /** One pass of the inner loop: the next column is rewritten from the cell the row had. */
  lemma RewriteStep(item: Row, r: Row, columns: seq<string>, k: nat, f: Option<Cell> -> Cell)
    requires k < |columns| && forall i, j :: 0 <= i < j < |columns| ==> columns[i] != columns[j]
    requires RewrittenOn(item, r, columns[..k], f)
    ensures Field(r, columns[k]) == Field(item, columns[k])
    ensures RewrittenOn(item, r[columns[k] := f(Field(item, columns[k]))], columns[..k + 1], f)
  {
    assert columns[..k + 1] == columns[..k] + [columns[k]];
    assert columns[k] !in columns[..k];
  }

  /** `removeWhiteSpaces(String(cell))`, as a text cell. */
  function CleanCell(c: Option<Cell>): Cell
  {
    Text(RemoveWhiteSpaces(CellString(c)))
  }

  /** A formatted row: the required columns cleaned up, the others kept. */
  function Formatted(row: Row): Row
  {
    Rewritten(row, REQUIRED_COLUMNS, CleanCell)
  }

  /** A rewritten column holds `f` of the cell it had. */
  lemma RewrittenCell(before: Row, columns: seq<string>, f: Option<Cell> -> Cell, c: string)
    requires c in columns
    ensures c in Rewritten(before, columns, f) && Rewritten(before, columns, f)[c] == f(Field(before, c))
  {
    RewrittenMeaning(before, columns, f);
  }

  /** Cleaning up a cleaned-up cell changes nothing. */
  lemma CleanCellIdempotent()
    ensures forall x :: CleanCell(Some(CleanCell(x))) == CleanCell(x)
  {
    forall x
      ensures CleanCell(Some(CleanCell(x))) == CleanCell(x)
    {
      RemoveWhiteSpacesIdempotent(CellString(x));
    }
  }

  /** Every required column of a formatted row is text in normal form. */
  lemma FormattedCellIsNormalized(row: Row, c: string)
    requires c in REQUIRED_COLUMNS
    ensures c in Formatted(row) && Formatted(row)[c].Text? && Normalized(Formatted(row)[c].text)
  {
    RewrittenCell(row, REQUIRED_COLUMNS, CleanCell, c);
    RemoveWhiteSpacesNormalizes(CellString(Field(row, c)));
  }

  /** Formatting a formatted row changes nothing. */
  lemma FormatIdempotent(row: Row)
    ensures Formatted(Formatted(row)) == Formatted(row)
  {
    CleanCellIdempotent();
    RewriteTwice(row, REQUIRED_COLUMNS, CleanCell);
  }

  /** No column is required twice. */
  lemma RequiredColumnsDistinct()
    ensures forall i, j :: 0 <= i < j < |REQUIRED_COLUMNS| ==> REQUIRED_COLUMNS[i] != REQUIRED_COLUMNS[j]
  {
  }

  /**
    The inner formatting loop on one row, over distinct columns, with the
    cell clean-up `clean` (`removeWhiteSpaces(String(cell))`). The Excel
    date conversion that follows each write cannot run: the cell was just
    made text.
   */
  method FormatRow(item: Row, columns: seq<string>, clean: Option<Cell> -> Cell) returns (r: Row)
    requires forall i, j :: 0 <= i < j < |columns| ==> columns[i] != columns[j]
    requires forall x :: clean(x).Text?
    ensures r == Rewritten(item, columns, clean)
  {
    r := item;
    for k := 0 to |columns|
      invariant RewrittenOn(item, r, columns[..k], clean)
    {
      var field := columns[k];
      RewriteStep(item, r, columns, k, clean);
      r := r[field := clean(Field(r, field))];
      if field == "DOB" && !r[field].Text? {
        assert false;
      }
    }
    assert columns[..|columns|] == columns;
    RewrittenMeaning(item, columns, clean);
    RewrittenOnUnique(item, r, Rewritten(item, columns, clean), columns, clean);
  }

  /** The outer formatting loop: every row is rewritten in place. */
  method FormatRows(data: array<Row>, columns: seq<string>, clean: Option<Cell> -> Cell)
    requires forall i, j :: 0 <= i < j < |columns| ==> columns[i] != columns[j]
    requires forall x :: clean(x).Text?
    modifies data
    ensures forall i :: 0 <= i < data.Length ==> data[i] == Rewritten(old(data[i]), columns, clean)
  {
    for i := 0 to data.Length
      invariant forall j :: 0 <= j < i ==> data[j] == Rewritten(old(data[j]), columns, clean)
      invariant forall j :: i <= j < data.Length ==> data[j] == old(data[j])
    {
      var row := FormatRow(data[i], columns, clean);
      data[i] := row;
    }
  }

  /**
    `isValidData`: the checks, then the formatting. A refused sheet is left
    as it was; an accepted one is rewritten in place and returned.
   */
  method IsValidData(data: array<Row>, users: seq<User>) returns (r: Result<seq<Row>, Thrown>)
    modifies data
    ensures Validation(old(data[..]), users).Some? ==>
              r == Err(Validation(old(data[..]), users).value) && data[..] == old(data[..])
    ensures Validation(old(data[..]), users).None? ==>
              r == Ok(data[..]) && forall i :: 0 <= i < data.Length ==> data[i] == Formatted(old(data[i]))
  {
    if data.Length == 0 {
      return Err(Thrown(Some(NO_FIRST_ROW), None));
    }
    var errorFields := FindMissingColumns(REQUIRED_COLUMNS, data[0].Keys);
    if |errorFields| > 0 {
      return Err(Rethrown(BadRequest(ColumnsMessage(errorFields))));
    }
    var scanned := ScanRows(data);
    if scanned.Err? {
      return Err(Rethrown(scanned.error));
    }
    var seen := scanned.value;
    if |seen.duplicates| > 0 {
      return Err(Rethrown(BadRequest(DUPLICATES_FOUND + Join(Map(seen.duplicates, EmailOf), ','))));
    }
    var takenEmails := TakenEmails(users, seen.emails);
    if |takenEmails| > 0 {
      return Err(Rethrown(BadRequest(TakenMessage("Email", takenEmails))));
    }
    var takenMobiles := TakenMobiles(users, seen.mobiles);
    if |takenMobiles| > 0 {
      return Err(Rethrown(BadRequest(TakenMessage("Mobile", takenMobiles))));
    }
    RequiredColumnsDistinct();
    FormatRows(data, REQUIRED_COLUMNS, CleanCell);
    r := Ok(data[..]);
  }
}
