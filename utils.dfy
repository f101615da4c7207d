/**
  Shared helpers (src/common/utils/utils.ts): the error value every layer
  rethrows, and the pagination envelope of every listing.
 */
module Utils {
  import opened Wrappers

  /** HTTP status codes used by the application's exceptions. */
  const BAD_REQUEST: int := 400
  const NOT_FOUND: int := 404
  const INTERNAL_SERVER_ERROR: int := 500

  /** Messages of the shared error enumeration (src/common/enum/enum.ts). */
  const SOMETHING_WENT_WRONG: string := "Something went wrong"
  const NOT_A_EXISTING_USER: string := "Not a existing user"
  const PASSWORD_MISMATCH: string := "Password mismatch. Double-check and try again"
  const EMAIL_ALREADY_EXIST: string := "Email already exist"
  const MOBILE_ALREADY_EXIST: string := "Mobile number already exist"

  /** An `HttpException`: a status and a message. */
  datatype HttpError = HttpError(status: int, message: string)

  function BadRequest(message: string): HttpError { HttpError(BAD_REQUEST, message) }
  function NotFound(message: string): HttpError { HttpError(NOT_FOUND, message) }

  /**
    Any thrown value, seen through the two optional fields the catch blocks
    read: an `HttpException` has both, a runtime error may lack a status.
   */
  datatype Thrown = Thrown(message: Option<string>, status: Option<int>)

  /** The value thrown by `new HttpException(e.message, e.status)`. */
  function Rethrown(e: HttpError): Thrown { Thrown(Some(e.message), Some(e.status)) }

  /**
    `getErrorMessageAndStatus`: the message and status of a thrown value,
    falling back to "Something went wrong" and 500 for a missing field.
   */
  function GetErrorMessageAndStatus(e: Thrown): (r: HttpError)
    ensures e.message.None? ==> r.message == SOMETHING_WENT_WRONG
    ensures e.status.None? ==> r.status == INTERNAL_SERVER_ERROR
    ensures e.message.Some? ==> r.message == e.message.value
    ensures e.status.Some? ==> r.status == e.status.value
  {
    HttpError(
      match e.status case Some(s) => s case None => INTERNAL_SERVER_ERROR,
      match e.message case Some(m) => m case None => SOMETHING_WENT_WRONG)
  }

  /**
    Every service and repository method catches what it throws and rethrows
    `getErrorMessageAndStatus` of it; the round trip is the identity, so the
    caller sees the innermost error unchanged however many layers it crosses.
   */
  lemma RethrowKeepsError(e: HttpError)
    ensures GetErrorMessageAndStatus(Rethrown(e)) == e
  {
  }

  /** The envelope of a paginated listing. */
  datatype Page<T> = Page(from: int, to: int, total: int, totalPages: int, data: seq<T>)

  /** `Math.ceil(a / b)` for a non-negative count and a positive page size. */
  function CeilDiv(a: nat, b: nat): (q: nat)
    requires b > 0
    ensures a <= q * b < a + b
  {
    (a + b - 1) / b
  }

  /**
    `paginationResponse(page, total, itemsPerPage, data)`: the 1-based range
    [from, to] of the returned rows, the total and the number of pages. The
    code adds 9 to `from` whatever the page size; every caller passes 10.
   */
  method PaginationResponse<T>(page: int, total: nat, itemsPerPage: nat, data: seq<T>) returns (r: Page<T>)
    requires itemsPerPage > 0
    ensures r.data == data
    // an empty page zeroes every number
    ensures |data| == 0 ==> r.from == 0 && r.to == 0 && r.total == 0 && r.totalPages == 0
    // otherwise the total is kept and the page count is its ceiling division
    ensures |data| > 0 ==> r.total == total && total <= r.totalPages * itemsPerPage < total + itemsPerPage
    // without a page number, the range is the whole data
    ensures page <= 0 && |data| > 0 ==> r.from == 1 && r.to == |data|
    // with a page number: the page's first position (or 1 past the last page), capped at the total
    ensures page > 0 && r.total > 0 ==>
      r.from == (if page <= r.totalPages then page * itemsPerPage - 9 else 1) &&
      r.to == (if r.from + 9 > r.total then r.total else r.from + 9)
    ensures page > 0 && r.total == 0 ==> r.from == 0 && r.to == 0
    // with pages of 10, [from, to] numbers exactly the rows of a full or final page
    ensures itemsPerPage == 10 && 0 < page <= r.totalPages &&
            |data| == (if total - (page - 1) * 10 < 10 then total - (page - 1) * 10 else 10) ==>
      r.from == (page - 1) * 10 + 1 && r.to - r.from + 1 == |data|
  {
    var totalPages: int := CeilDiv(total, itemsPerPage);
    var from: int, to: int := 1, |data|;
    var count: int := total;

    if |data| == 0 {
      from, to, count, totalPages := 0, 0, 0, 0;
    }

    if page > 0 {
      from := if page <= totalPages then page * itemsPerPage - 9 else 1;
      to := if from + 9 > count then count else from + 9;
      if count <= 0 {
        from := 0;
      }
    }

    r := Page(from, to, count, totalPages, data);
  }
}
