/**
 * The request checks of EmployeeController.kt that sit in front of the service: which
 * listing `GET /employees` runs for its `criteria`, `value`, `page` and `size` parameters,
 * and the pagination check of `GET /employees/{managerEmail}/subordinates`.
 */
module Controller {
  import opened Wrappers
  import opened Text
  import opened Dates
  import opened Records
  import opened EmployeeCrud
  import opened Exceptions
  import opened Directory

  /** The listing a `GET /employees` request asks for. */
  datatype Query =
    | All(page: int, size: int)
    | ByDomain(value: string, page: int, size: int)
    | ByRole(value: string, page: int, size: int)
    | ByAge(value: string, page: int, size: int)

  const PaginationMessage: string := "Invalid pagination parameters: page must be >= 0 and size > 0"

  /** The criteria names the endpoint knows. */
  predicate IsKnownCriteria(criteria: string) {
    criteria == "byEmailDomain" || criteria == "byRole" || criteria == "byAge"
  }

  predicate PageIsValid(page: int, size: int) {
    page >= 0 && size > 0
  }

  /**
   * Lines 37-49: a criteria without a non-blank value is refused first, then a bad page or
   * size, then an unknown criteria; without a criteria, `value` is ignored.
   */
  function ParseQuery(criteria: Option<string>, value: Option<string>, page: int, size: int): (r: Result<Query, Error>)
    ensures criteria.Some? && IsNullOrBlank(value) ==>
              r == Err(Error(InvalidInput, "Missing or empty 'value' parameter for criteria: " + criteria.value))
    ensures (criteria.None? || !IsNullOrBlank(value)) && !PageIsValid(page, size) ==>
              r == Err(Error(InvalidInput, PaginationMessage))
    ensures criteria.Some? && !IsNullOrBlank(value) && PageIsValid(page, size) && !IsKnownCriteria(criteria.value) ==>
              r == Err(Error(InvalidInput, "Invalid criteria: " + criteria.value))
    ensures r.Ok? <==>
              && PageIsValid(page, size)
              && (criteria.None? || (!IsNullOrBlank(value) && IsKnownCriteria(criteria.value)))
    ensures r.Err? ==> r.error.kind == InvalidInput
    ensures r.Ok? ==> r.value.page == page && r.value.size == size
    ensures r.Ok? && criteria.None? ==> r.value.All?
    ensures r.Ok? && criteria.Some? ==> !r.value.All? && r.value.value == value.value
  {
    if criteria.Some? && IsNullOrBlank(value) then
      Err(Error(InvalidInput, "Missing or empty 'value' parameter for criteria: " + criteria.value))
    else if size <= 0 || page < 0 then
      Err(Error(InvalidInput, PaginationMessage))
    else if criteria.None? then Ok(All(page, size))
    else if criteria.value == "byEmailDomain" then Ok(ByDomain(value.value, page, size))
    else if criteria.value == "byRole" then Ok(ByRole(value.value, page, size))
    else if criteria.value == "byAge" then Ok(ByAge(value.value, page, size))
    else Err(Error(InvalidInput, "Invalid criteria: " + criteria.value))
  }

  /** The service call a parsed query makes. `today` stands for `LocalDate.now()`. */
  function Run(db: Store, today: LocalDate, q: Query): (r: Result<seq<EmployeeBoundary>, Error>)
    requires StoreInvariant(db) && PageIsValid(q.page, q.size)
    ensures q.All? ==> r == Ok(Directory.GetEmployees(db, q.page, q.size))
    ensures q.ByDomain? ==> r == Ok(Directory.GetByDomain(db, q.value, q.page, q.size))
    ensures q.ByRole? ==> r == Ok(Directory.GetByRole(db, q.value, q.page, q.size))
    ensures q.ByAge? ==> r == Directory.GetByAge(db, today, q.value, q.page, q.size)
    ensures r.Ok? ==> |r.value| <= q.size && AscendingByEmail(r.value)
    ensures r.Err? ==> q.ByAge?
  {
    match q
    case All(page, size) => Ok(Directory.GetEmployees(db, page, size))
    case ByDomain(value, page, size) => Ok(Directory.GetByDomain(db, value, page, size))
    case ByRole(value, page, size) => Ok(Directory.GetByRole(db, value, page, size))
    case ByAge(value, page, size) => Directory.GetByAge(db, today, value, page, size)
  }

  /**
   * `getEmployees` (lines 33-50): the request is checked, then the service listing runs;
   * whatever it returns holds at most `size` records in ascending email order.
   */
  function GetEmployees(db: Store, today: LocalDate, criteria: Option<string>, value: Option<string>, page: int, size: int)
    : (r: Result<seq<EmployeeBoundary>, Error>)
    requires StoreInvariant(db)
    ensures ParseQuery(criteria, value, page, size).Err? ==> r == Err(ParseQuery(criteria, value, page, size).error)
    ensures r.Ok? ==> PageIsValid(page, size) && |r.value| <= size && AscendingByEmail(r.value)
  {
    var q := ParseQuery(criteria, value, page, size);
    if q.Err? then Err(q.error)
    else
      assert q.value.page == page && q.value.size == size;
      Run(db, today, q.value)
  }

  /**
   * Lines 43-48: once the checks pass, each criteria reaches its own service listing with
   * the request's value, page and size, and a missing criteria lists everyone. Only the age
   * listing can fail with anything but invalid input.
   */
  lemma CriteriaDispatch(db: Store, today: LocalDate, criteria: Option<string>, value: Option<string>, page: int, size: int)
    requires StoreInvariant(db) && PageIsValid(page, size)
    ensures criteria.None? ==> GetEmployees(db, today, criteria, value, page, size) == Ok(Directory.GetEmployees(db, page, size))
    ensures criteria == Some("byEmailDomain") && !IsNullOrBlank(value) ==>
              GetEmployees(db, today, criteria, value, page, size) == Ok(Directory.GetByDomain(db, value.value, page, size))
    ensures criteria == Some("byRole") && !IsNullOrBlank(value) ==>
              GetEmployees(db, today, criteria, value, page, size) == Ok(Directory.GetByRole(db, value.value, page, size))
    ensures criteria == Some("byAge") && !IsNullOrBlank(value) ==>
              GetEmployees(db, today, criteria, value, page, size) == Directory.GetByAge(db, today, value.value, page, size)
    ensures var r := GetEmployees(db, today, criteria, value, page, size);
            r.Err? && r.error.kind != InvalidInput ==> criteria == Some("byAge")
  {
    var q := ParseQuery(criteria, value, page, size);
    if criteria.None? {
      assert q == Ok(All(page, size));
    } else if IsNullOrBlank(value) {
      assert q.Err?;
    } else if criteria.value == "byEmailDomain" {
      assert q == Ok(ByDomain(value.value, page, size));
    } else if criteria.value == "byRole" {
      assert q == Ok(ByRole(value.value, page, size));
    } else if criteria.value == "byAge" {
      assert q == Ok(ByAge(value.value, page, size));
    } else {
      assert q.Err?;
    }
  }

  /**
   * `getSubordinates` (lines 75-82): page and size are checked before the service runs, so
   * a bad page is reported even for a malformed email.
   */
  function GetSubordinates(db: Store, validEmail: string -> bool, managerEmail: string, page: int, size: int)
    : (r: Result<seq<EmployeeBoundary>, Error>)
    requires StoreInvariant(db)
    ensures !PageIsValid(page, size) ==> r == Err(Error(InvalidInput, PaginationMessage))
    ensures PageIsValid(page, size) ==> r == Directory.GetSubordinates(db, validEmail, managerEmail, page, size)
    ensures r.Ok? ==> |r.value| <= size && validEmail(managerEmail)
  {
    if size <= 0 || page < 0 then Err(Error(InvalidInput, PaginationMessage))
    else Directory.GetSubordinates(db, validEmail, managerEmail, page, size)
  }
}
