/**
 * What each operation of EmployeeServiceImpl.kt does, as functions of the store's
 * contents: the new contents (for the four operations that write) and the result or the
 * exception. The class in module `Service` is proved against these functions.
 *
 * `isValidEmail` delegates to a library validator, so it is a parameter here:
 * `validEmail`. `Year.now()` and `LocalDate.now()` are the parameters `currentYear` and
 * `today`.
 */
module Directory {
  import opened Wrappers
  import opened Text
  import opened Dates
  import opened Records
  import opened DateUtils
  import opened Validation
  import opened EmployeeCrud
  import opened Exceptions
  import Boundary
  import Entity

  /** The store after an operation, and what the operation returned or threw. */
  datatype Step<T> = Step(store: Store, result: Result<T, Error>)

  function Fail<T>(db: Store, kind: ErrorKind, message: string): (r: Step<T>)
    ensures r.store == db && r.result.Err? && r.result.error == Error(kind, message)
  {
    Step(db, Err(Error(kind, message)))
  }

  /** Lines 44-50: roles present, non-empty, and no role blank. */
  predicate RolesAreValid(roles: Option<seq<string>>) {
    roles.Some? && |roles.value| > 0 && forall role :: role in roles.value ==> !IsBlank(role)
  }

  /**
   * What the service keeps true of the store: every row sits under its own email, carries a
   * password, birth date and roles that passed `create`'s checks, and names as manager
   * another employee of the store (`bind` checks the manager exists and is not the
   * employee, and no operation removes a single row).
   */
  predicate StoreInvariant(db: Store) {
    && KeyedByEmail(db)
    && (forall k :: k in db ==> IsValidPassword(db[k].password) && RolesAreValid(db[k].roles))
    && (forall k :: k in db ==> db[k].birthDate.Some? && 1900 <= db[k].birthDate.value.year)
    && (forall k :: k in db && db[k].manager.Some? ==> db[k].manager.value in db && db[k].manager.value != k)
  }

  /** The records carry emails in strictly ascending order. */
  predicate AscendingByEmail(r: seq<EmployeeBoundary>) {
    && (forall i :: 0 <= i < |r| ==> r[i].email.Some?)
    && (forall i, j :: 0 <= i < j < |r| ==> LexLess(r[i].email.value, r[j].email.value))
  }

  /** Each record is the masked form of the stored row under its email, and that row satisfies `f`. */
  predicate ShowsStoredRowsMatching(db: Store, f: Filter, r: seq<EmployeeBoundary>) {
    forall i :: 0 <= i < |r| ==>
      && r[i].email.Some? && r[i].email.value in db && Matches(f, db[r[i].email.value])
      && db[r[i].email.value].birthDate.Some?
      && r[i] == Boundary.FromEntity(db[r[i].email.value])
      && r[i].password == Some(Mask)
  }

  /**
   * `r` is page `page` of the rows that satisfy `f`, at `size` rows a page, in ascending
   * email order: as many records as that page holds, each the masked form of a matching
   * stored row, the `i`-th of them the row with exactly `page * size + i` matching emails
   * before it.
   */
  predicate IsPageOf(db: Store, f: Filter, page: nat, size: nat, r: seq<EmployeeBoundary>) {
    && |r| == PageLength(|MatchingKeys(db, f)|, page * size, size)
    && ShowsStoredRowsMatching(db, f, r)
    && AscendingByEmail(r)
    && forall i :: 0 <= i < |r| ==> RankOf(MatchingKeys(db, f), r[i].email.value) == page * size + i
  }

  /** Every check of `create` passes. */
  predicate CreateAccepts(db: Store, validEmail: string -> bool, currentYear: int, newEmployee: EmployeeBoundary) {
    && newEmployee.email.Some? && validEmail(newEmployee.email.value)
    && newEmployee.email.value !in db
    && IsValidPassword(newEmployee.password)
    && IsValidDate(newEmployee.birthdate, currentYear)
    && RolesAreValid(newEmployee.roles)
  }

  /**
   * `create` (lines 25-53): email present and well formed, not yet stored, password,
   * birth date, roles present and non-empty, no blank role; the first check that fails
   * decides the exception and nothing is stored. Otherwise the record is stored under its
   * email, without a manager, and returned with the password masked.
   */
  function Create(db: Store, validEmail: string -> bool, currentYear: int, newEmployee: EmployeeBoundary)
    : (r: Step<EmployeeBoundary>)
    requires StoreInvariant(db)
    ensures StoreInvariant(r.store)
    ensures newEmployee.email.None? ==> r.result == Err(Error(InvalidInput, "Email cannot be null"))
    ensures newEmployee.email.Some? && !validEmail(newEmployee.email.value) ==>
              r.result == Err(Error(InvalidInput, "Invalid email format"))
    ensures newEmployee.email.Some? && validEmail(newEmployee.email.value) && newEmployee.email.value in db ==>
              r.result == Err(Error(EmailExists, "Email already exists"))
    ensures newEmployee.email.Some? && validEmail(newEmployee.email.value) && newEmployee.email.value !in db
            && !IsValidPassword(newEmployee.password) ==>
              r.result == Err(Error(InvalidInput, "Invalid password"))
    ensures newEmployee.email.Some? && validEmail(newEmployee.email.value) && newEmployee.email.value !in db
            && IsValidPassword(newEmployee.password) && !IsValidDate(newEmployee.birthdate, currentYear) ==>
              r.result == Err(Error(InvalidInput, "Invalid date"))
    ensures newEmployee.email.Some? && validEmail(newEmployee.email.value) && newEmployee.email.value !in db
            && IsValidPassword(newEmployee.password) && IsValidDate(newEmployee.birthdate, currentYear)
            && (newEmployee.roles.None? || newEmployee.roles.value == []) ==>
              r.result == Err(Error(InvalidInput, "Invalid role: cannot be null or empty"))
    ensures newEmployee.email.Some? && validEmail(newEmployee.email.value) && newEmployee.email.value !in db
            && IsValidPassword(newEmployee.password) && IsValidDate(newEmployee.birthdate, currentYear)
            && newEmployee.roles.Some? && newEmployee.roles.value != []
            && (exists role :: role in newEmployee.roles.value && IsBlank(role)) ==>
              r.result == Err(Error(InvalidInput, "Invalid role: role cannot be empty string"))
    ensures r.result.Ok? <==> CreateAccepts(db, validEmail, currentYear, newEmployee)
    ensures r.result.Err? ==> r.store == db
    ensures r.result.Ok? ==>
              var email := newEmployee.email.value;
              && email in r.store && r.store == db[email := r.store[email]]
              && r.store[email].manager.None?
              && r.store[email].password == newEmployee.password
              && r.result.value == newEmployee.(password := Some(Mask))
              && r.result.value == Boundary.FromEntity(r.store[email])
  {
    if newEmployee.email.None? then Fail(db, InvalidInput, "Email cannot be null")
    else
      var email := newEmployee.email.value;
      if !validEmail(email) then Fail(db, InvalidInput, "Invalid email format")
      else if email in db then Fail(db, EmailExists, "Email already exists")
      else if !IsValidPassword(newEmployee.password) then Fail(db, InvalidInput, "Invalid password")
      else if !IsValidDate(newEmployee.birthdate, currentYear) then Fail(db, InvalidInput, "Invalid date")
      else if newEmployee.roles.None? || |newEmployee.roles.value| == 0 then
        Fail(db, InvalidInput, "Invalid role: cannot be null or empty")
      else if exists role :: role in newEmployee.roles.value && IsBlank(role) then
        Fail(db, InvalidInput, "Invalid role: role cannot be empty string")
      else
        Save(db, validEmail, currentYear, newEmployee)
  }

  /** Line 52: the accepted record is stored under its email and returned masked. */
  function Save(db: Store, validEmail: string -> bool, currentYear: int, newEmployee: EmployeeBoundary)
    : (r: Step<EmployeeBoundary>)
    requires StoreInvariant(db) && CreateAccepts(db, validEmail, currentYear, newEmployee)
    ensures StoreInvariant(r.store)
    ensures r.result.Ok?
    ensures var email := newEmployee.email.value;
            && email in r.store && r.store == db[email := r.store[email]]
            && r.store[email].manager.None?
            && r.store[email].password == newEmployee.password
            && r.result.value == newEmployee.(password := Some(Mask))
            && r.result.value == Boundary.FromEntity(r.store[email])
  {
    var email := newEmployee.email.value;
    AcceptedRecordConverts(newEmployee, currentYear);
    var saved := Boundary.ToEntity(newEmployee);
    InsertKeepsInvariant(db, email, saved);
    Step(db[email := saved], Ok(Boundary.FromEntity(saved)))
  }

  /** A record that passed `create`'s checks converts to a sound row that reads back as the record, masked. */
  lemma AcceptedRecordConverts(newEmployee: EmployeeBoundary, currentYear: int)
    requires IsValidPassword(newEmployee.password) && IsValidDate(newEmployee.birthdate, currentYear)
    requires RolesAreValid(newEmployee.roles)
    ensures ToLocalDate(newEmployee.birthdate.value).Some?
    ensures var e := Boundary.ToEntity(newEmployee);
            && e.email == newEmployee.email && e.manager.None? && e.password == newEmployee.password
            && IsValidPassword(e.password) && RolesAreValid(e.roles)
            && e.birthDate.Some? && 1900 <= e.birthDate.value.year
            && Boundary.FromEntity(e) == newEmployee.(password := Some(Mask))
  {
    ValidDateConverts(newEmployee.birthdate.value, currentYear);
    Boundary.StoredRecordReadsBack(newEmployee);
  }

  /** Adding a sound row without a manager keeps the invariant. */
  lemma InsertKeepsInvariant(db: Store, key: string, e: EmployeeEntity)
    requires StoreInvariant(db) && key !in db
    requires e.email == Some(key) && e.manager.None?
    requires IsValidPassword(e.password) && RolesAreValid(e.roles)
    requires e.birthDate.Some? && 1900 <= e.birthDate.value.year
    ensures StoreInvariant(db[key := e])
  {
  }

  /** The message of both credential failures, so that they cannot be told apart. */
  const BadCredentials: string := "Invalid email or password"

  /**
   * `getEmployeeByEmail` (lines 56-69): a malformed email is invalid input; an unknown
   * email and a wrong password both give the same Unauthorized error; otherwise the stored
   * record with its password masked.
   */
  function GetEmployeeByEmail(db: Store, validEmail: string -> bool, email: string, password: string)
    : (r: Result<EmployeeBoundary, Error>)
    requires StoreInvariant(db)
    ensures !validEmail(email) ==> r == Err(Error(InvalidInput, "Invalid email format"))
    ensures validEmail(email) && (email !in db || db[email].password != Some(password)) ==>
              r == Err(Error(Unauthorized, BadCredentials))
    ensures r.Ok? <==> validEmail(email) && email in db && db[email].password == Some(password)
    ensures r.Ok? ==> r.value == Boundary.FromEntity(db[email]) && r.value.password == Some(Mask)
  {
    if !validEmail(email) then Err(Error(InvalidInput, "Invalid email format"))
    else if email !in db then Err(Error(Unauthorized, BadCredentials))
    else
      var employee := db[email];
      if employee.password != Some(password) then Err(Error(Unauthorized, BadCredentials))
      else Ok(Entity.ToBoundary(employee))
  }

  /**
   * A page of a repository query mapped through `EmployeeBoundary(entity)`: at most `size`
   * records, each the masked form of a stored row that satisfies the filter, in strictly
   * ascending email order.
   */
  function ListPage(db: Store, f: Filter, page: int, size: int): (r: seq<EmployeeBoundary>)
    requires page >= 0 && size > 0 && StoreInvariant(db)
    ensures |r| <= size
    ensures IsPageOf(db, f, page, size, r)
  {
    var rows := FindPage(db, f, page, size);
    var r := seq(|rows|, i requires 0 <= i < |rows| => Boundary.FromEntity(rows[i]));
    assert forall i :: 0 <= i < |r| ==> r[i].email == rows[i].email;
    assert ShowsStoredRowsMatching(db, f, r) by {
      forall i | 0 <= i < |r|
        ensures r[i].email.Some? && r[i].email.value in db && Matches(f, db[r[i].email.value])
        ensures db[r[i].email.value].birthDate.Some? && r[i] == Boundary.FromEntity(db[r[i].email.value])
        ensures r[i].password == Some(Mask)
      {
        assert db[rows[i].email.value] == rows[i];
      }
    }
    r
  }

  /** `getEmployees` (lines 72-76): a page of all employees. */
  function GetEmployees(db: Store, page: int, size: int): (r: seq<EmployeeBoundary>)
    requires page >= 0 && size > 0 && StoreInvariant(db)
    ensures |r| <= size && IsPageOf(db, Everyone, page, size, r)
  {
    ListPage(db, Everyone, page, size)
  }

  /** `getByDomain` (lines 79-84): the employees whose email ends with "@" + value. */
  function GetByDomain(db: Store, value: string, page: int, size: int): (r: seq<EmployeeBoundary>)
    requires page >= 0 && size > 0 && StoreInvariant(db)
    ensures |r| <= size && IsPageOf(db, EmailEndingWith("@" + value), page, size, r)
    ensures forall i :: 0 <= i < |r| ==> EndsWith(r[i].email.value, "@" + value)
  {
    var rows := ListPage(db, EmailEndingWith("@" + value), page, size);
    assert forall i :: 0 <= i < |rows| ==> EndsWith(rows[i].email.value, "@" + value) by {
      forall i | 0 <= i < |rows| ensures EndsWith(rows[i].email.value, "@" + value) {
        var e := db[rows[i].email.value];
        assert Matches(EmailEndingWith("@" + value), e) && e.email == rows[i].email;
      }
    }
    rows
  }

  /** `getByRole` (lines 87-92): the employees one of whose roles is exactly `value`. */
  function GetByRole(db: Store, value: string, page: int, size: int): (r: seq<EmployeeBoundary>)
    requires page >= 0 && size > 0 && StoreInvariant(db)
    ensures |r| <= size && IsPageOf(db, RoleIs(value), page, size, r)
    ensures forall i :: 0 <= i < |r| ==> r[i].roles.Some? && value in r[i].roles.value
  {
    var rows := ListPage(db, RoleIs(value), page, size);
    assert forall i :: 0 <= i < |rows| ==> rows[i].roles.Some? && value in rows[i].roles.value by {
      forall i | 0 <= i < |rows| ensures rows[i].roles.Some? && value in rows[i].roles.value {
        var e := db[rows[i].email.value];
        assert Matches(RoleIs(value), e) && rows[i].roles == e.roles;
      }
    }
    rows
  }

  /**
   * `getByAge` (lines 95-107): a value `toIntOrNull` cannot read is invalid input; the
   * window `[today - (age + 1) years + 1 day, today - age years]` throws where java.time
   * does; otherwise a page of the employees born in the window, which are exactly those
   * whose age today is `age`.
   */
  function GetByAge(db: Store, today: LocalDate, value: string, page: int, size: int)
    : (r: Result<seq<EmployeeBoundary>, Error>)
    requires page >= 0 && size > 0 && StoreInvariant(db)
    ensures ToIntOrNull(value).None? <==> r == Err(Error(InvalidInput, "Invalid age: " + value))
    ensures ToIntOrNull(value).Some? && AgeWindow(today, ToIntOrNull(value).value).None? ==>
              r == Err(Error(Internal, "DateTimeException"))
    ensures r.Ok? <==> ToIntOrNull(value).Some? && AgeWindow(today, ToIntOrNull(value).value).Some?
    ensures r.Ok? ==>
              var (startDate, endDate) := AgeWindow(today, ToIntOrNull(value).value).value;
              |r.value| <= size && IsPageOf(db, BirthDateBetween(startDate, endDate), page, size, r.value)
    ensures r.Ok? ==> forall i :: 0 <= i < |r.value| ==>
              && r.value[i].email.value in db
              && var e := db[r.value[i].email.value];
                 e.birthDate.Some? && AgeOn(e.birthDate.value, today) == ToIntOrNull(value).value
  {
    var age := ToIntOrNull(value);
    if age.None? then Err(Error(InvalidInput, "Invalid age: " + value))
    else
      var window := AgeWindow(today, age.value);
      if window.None? then Err(Error(Internal, "DateTimeException"))
      else
        var (startDate, endDate) := window.value;
        BornInWindowMeansAge(db, today, age.value);
        Ok(ListPage(db, BirthDateBetween(startDate, endDate), page, size))
  }

  /**
   * For a present-day `today`, every age from 0 to 10000 that `toIntOrNull` reads gives a
   * page, never the `DateTimeException`.
   */
  lemma GetByAgeListsPlausibleAges(db: Store, today: LocalDate, value: string, page: int, size: int)
    requires page >= 0 && size > 0 && StoreInvariant(db)
    requires 1 <= today.year <= 9999
    requires ToIntOrNull(value).Some? && 0 <= ToIntOrNull(value).value <= 10000
    ensures GetByAge(db, today, value, page, size).Ok?
  {
  }

  lemma BornInWindowMeansAge(db: Store, today: LocalDate, age: int)
    requires StoreInvariant(db) && AgeWindow(today, age).Some?
    ensures forall k :: k in db ==>
              (Matches(BirthDateBetween(AgeWindow(today, age).value.0, AgeWindow(today, age).value.1), db[k])
               <==> AgeOn(db[k].birthDate.value, today) == age)
  {
    forall k | k in db
      ensures Matches(BirthDateBetween(AgeWindow(today, age).value.0, AgeWindow(today, age).value.1), db[k])
              <==> AgeOn(db[k].birthDate.value, today) == age
    {
      AgeWindowExact(db[k].birthDate.value, today, age);
    }
  }

  /** `clean` (lines 110-112): every row is deleted. */
  function Clean(db: Store): (r: Step<()>)
    ensures r.store == map[] && r.result.Ok?
  {
    Step(map[], Ok(()))
  }

  /**
   * `bind` (lines 115-136): both emails well formed, employee stored, manager stored, and
   * not the same person, in that order; then the employee's manager becomes `managerEmail`,
   * whatever it was, and nothing else changes.
   */
  function Bind(db: Store, validEmail: string -> bool, employeeEmail: string, managerEmail: string): (r: Step<()>)
    requires StoreInvariant(db)
    ensures StoreInvariant(r.store)
    ensures !validEmail(employeeEmail) ==> r.result == Err(Error(InvalidInput, "Invalid employee email"))
    ensures validEmail(employeeEmail) && !validEmail(managerEmail) ==>
              r.result == Err(Error(InvalidInput, "Invalid manager email"))
    ensures validEmail(employeeEmail) && validEmail(managerEmail) && employeeEmail !in db ==>
              r.result == Err(Error(NotFound, "Employee not found: " + employeeEmail))
    ensures validEmail(employeeEmail) && validEmail(managerEmail) && employeeEmail in db && managerEmail !in db ==>
              r.result == Err(Error(NotFound, "Manager not found: " + managerEmail))
    ensures validEmail(employeeEmail) && validEmail(managerEmail) && employeeEmail in db && employeeEmail == managerEmail ==>
              r.result == Err(Error(InvalidInput, "An employee cannot be their own manager"))
    ensures r.result.Ok? <==>
              validEmail(employeeEmail) && validEmail(managerEmail) && employeeEmail in db && managerEmail in db
              && employeeEmail != managerEmail
    ensures r.result.Err? ==> r.store == db
    ensures r.result.Ok? ==>
              r.store == db[employeeEmail := db[employeeEmail].(manager := Some(managerEmail))]
  {
    if !validEmail(employeeEmail) then Fail(db, InvalidInput, "Invalid employee email")
    else if !validEmail(managerEmail) then Fail(db, InvalidInput, "Invalid manager email")
    else if employeeEmail !in db then Fail(db, NotFound, "Employee not found: " + employeeEmail)
    else if managerEmail !in db then Fail(db, NotFound, "Manager not found: " + managerEmail)
    else
      var employee := db[employeeEmail];
      var manager := db[managerEmail];
      if employee.email == manager.email then Fail(db, InvalidInput, "An employee cannot be their own manager")
      else Step(db[employeeEmail := employee.(manager := manager.email)], Ok(()))
  }

  /**
   * `getEmployeesManager` (lines 139-149): the manager's current record, masked; NotFound
   * when the employee is unknown or has no manager.
   */
  function GetEmployeesManager(db: Store, validEmail: string -> bool, employeeEmail: string)
    : (r: Result<EmployeeBoundary, Error>)
    requires StoreInvariant(db)
    ensures !validEmail(employeeEmail) ==> r == Err(Error(InvalidInput, "Invalid employee email"))
    ensures validEmail(employeeEmail) && employeeEmail !in db ==>
              r == Err(Error(NotFound, "Employee not found: " + employeeEmail))
    ensures validEmail(employeeEmail) && employeeEmail in db && db[employeeEmail].manager.None? ==>
              r == Err(Error(NotFound, "Employee " + employeeEmail + " has no manager"))
    ensures r.Ok? <==> validEmail(employeeEmail) && employeeEmail in db && db[employeeEmail].manager.Some?
    ensures r.Ok? ==> r.value == Boundary.FromEntity(db[db[employeeEmail].manager.value]) && r.value.password == Some(Mask)
  {
    if !validEmail(employeeEmail) then Err(Error(InvalidInput, "Invalid employee email"))
    else if employeeEmail !in db then Err(Error(NotFound, "Employee not found: " + employeeEmail))
    else
      var employee := db[employeeEmail];
      if employee.manager.None? then Err(Error(NotFound, "Employee " + employeeEmail + " has no manager"))
      else Ok(Entity.ToBoundary(db[employee.manager.value]))
  }

  /**
   * `getSubordinates` (lines 152-164): a malformed email is invalid input; otherwise a page
   * of the employees whose manager is `managerEmail`. Whether that manager exists is not
   * checked (the check on lines 157-159 is commented out).
   */
  function GetSubordinates(db: Store, validEmail: string -> bool, managerEmail: string, page: int, size: int)
    : (r: Result<seq<EmployeeBoundary>, Error>)
    requires page >= 0 && size > 0 && StoreInvariant(db)
    ensures r.Err? <==> !validEmail(managerEmail)
    ensures r.Err? ==> r.error == Error(InvalidInput, "Invalid email format")
    ensures r.Ok? ==> |r.value| <= size && IsPageOf(db, ManagerEmailIs(managerEmail), page, size, r.value)
  {
    if !validEmail(managerEmail) then Err(Error(InvalidInput, "Invalid email format"))
    else Ok(ListPage(db, ManagerEmailIs(managerEmail), page, size))
  }

  /**
   * `unbind` (lines 167-177): the employee's manager becomes none, whatever it was, and
   * nothing else changes; NotFound for an unknown employee.
   */
  function Unbind(db: Store, validEmail: string -> bool, employeeEmail: string): (r: Step<()>)
    requires StoreInvariant(db)
    ensures StoreInvariant(r.store)
    ensures !validEmail(employeeEmail) ==> r.result == Err(Error(InvalidInput, "Invalid email format"))
    ensures validEmail(employeeEmail) && employeeEmail !in db ==>
              r.result == Err(Error(NotFound, "Employee not found: " + employeeEmail))
    ensures r.result.Ok? <==> validEmail(employeeEmail) && employeeEmail in db
    ensures r.result.Err? ==> r.store == db
    ensures r.result.Ok? ==>
              r.store == db[employeeEmail := db[employeeEmail].(manager := None)]
  {
    if !validEmail(employeeEmail) then Fail(db, InvalidInput, "Invalid email format")
    else if employeeEmail !in db then Fail(db, NotFound, "Employee not found: " + employeeEmail)
    else
      var employee := db[employeeEmail];
      Step(db[employeeEmail := employee.(manager := None)], Ok(()))
  }
}
