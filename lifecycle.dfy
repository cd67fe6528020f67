/**
 * How the service's operations combine: what one operation leaves behind for the next
 * (create then authenticate, bind then get-manager, unbind, clean then list).
 */
module Lifecycle {
  import opened Wrappers
  import opened Records
  import opened EmployeeCrud
  import opened Exceptions
  import opened Directory
  import Boundary

  /**
   * After a successful `create`, authenticating with the same email and password succeeds
   * and returns the record `create` returned, password masked.
   */
  lemma CreateThenAuthenticate(db: Store, validEmail: string -> bool, currentYear: int, newEmployee: EmployeeBoundary)
    requires StoreInvariant(db)
    requires Create(db, validEmail, currentYear, newEmployee).result.Ok?
    ensures var created := Create(db, validEmail, currentYear, newEmployee);
            GetEmployeeByEmail(created.store, validEmail, newEmployee.email.value, newEmployee.password.value)
              == created.result
    ensures Create(db, validEmail, currentYear, newEmployee).result.value.password == Some(Mask)
  {
  }

  /** A second `create` with an email already used fails with EmailExists, whatever else it carries. */
  lemma CreateTwiceConflicts(db: Store, validEmail: string -> bool, currentYear: int,
                             first: EmployeeBoundary, second: EmployeeBoundary)
    requires StoreInvariant(db)
    requires Create(db, validEmail, currentYear, first).result.Ok?
    requires second.email == first.email
    ensures var after := Create(db, validEmail, currentYear, first).store;
            Create(after, validEmail, currentYear, second) == Step(after, Err(Error(EmailExists, "Email already exists")))
  {
  }

  /** After `bind(e, m)` succeeds, `getEmployeesManager(e)` returns m's record, masked. */
  lemma BindThenGetManager(db: Store, validEmail: string -> bool, employeeEmail: string, managerEmail: string)
    requires StoreInvariant(db)
    requires Bind(db, validEmail, employeeEmail, managerEmail).result.Ok?
    ensures var after := Bind(db, validEmail, employeeEmail, managerEmail).store;
            GetEmployeesManager(after, validEmail, employeeEmail) == Ok(Boundary.FromEntity(db[managerEmail]))
  {
  }

  /** After `unbind(e)` succeeds, `getEmployeesManager(e)` fails with NotFound. */
  lemma UnbindThenGetManager(db: Store, validEmail: string -> bool, employeeEmail: string)
    requires StoreInvariant(db)
    requires Unbind(db, validEmail, employeeEmail).result.Ok?
    ensures var after := Unbind(db, validEmail, employeeEmail).store;
            GetEmployeesManager(after, validEmail, employeeEmail)
              == Err(Error(NotFound, "Employee " + employeeEmail + " has no manager"))
  {
  }

  /** `unbind` twice is `unbind` once, and on an employee without a manager it changes nothing. */
  lemma UnbindIsIdempotent(db: Store, validEmail: string -> bool, employeeEmail: string)
    requires StoreInvariant(db)
    ensures var once := Unbind(db, validEmail, employeeEmail);
            Unbind(once.store, validEmail, employeeEmail) == once
    ensures employeeEmail in db && db[employeeEmail].manager.None? ==>
              Unbind(db, validEmail, employeeEmail).store == db
  {
    var once := Unbind(db, validEmail, employeeEmail);
    if once.result.Ok? {
      ClearingTwiceIsClearingOnce(once.store, employeeEmail);
    }
    if employeeEmail in db && db[employeeEmail].manager.None? && validEmail(employeeEmail) {
      ClearingTwiceIsClearingOnce(db, employeeEmail);
    }
  }

  /** Clearing a manager that is already clear leaves the store as it was. */
  lemma ClearingTwiceIsClearingOnce(db: Store, email: string)
    requires email in db && db[email].manager.None?
    ensures db[email := db[email].(manager := None)] == db
  {
    assert db[email].(manager := None) == db[email];
  }

  /** `bind(e, e)` never succeeds: NotFound for an unknown e, invalid input otherwise. */
  lemma BindToSelfFails(db: Store, validEmail: string -> bool, email: string)
    requires StoreInvariant(db) && validEmail(email)
    ensures email !in db ==> Bind(db, validEmail, email, email).result.error.kind == NotFound
    ensures email in db ==> Bind(db, validEmail, email, email).result.error.kind == InvalidInput
  {
  }

  /** After `clean`, every page of every listing is empty. */
  lemma CleanThenListIsEmpty(db: Store, page: int, size: int)
    requires page >= 0 && size > 0
    ensures StoreInvariant(Clean(db).store)
    ensures GetEmployees(Clean(db).store, page, size) == []
  {
    EmptyStoreHasEmptyPages(Everyone, page, size);
  }

  /**
   * `getSubordinates` of a well-formed email nobody has stored succeeds with an empty page:
   * the existence check is off, and no stored row can name an absent manager.
   */
  lemma SubordinatesOfUnknownManager(db: Store, validEmail: string -> bool, managerEmail: string, page: int, size: int)
    requires page >= 0 && size > 0 && StoreInvariant(db)
    requires validEmail(managerEmail) && managerEmail !in db
    ensures GetSubordinates(db, validEmail, managerEmail, page, size) == Ok([])
  {
  }

  /** After `bind(e, m)` succeeds, e's record is on some page of m's subordinates. */
  lemma BindThenSubordinates(db: Store, validEmail: string -> bool, employeeEmail: string, managerEmail: string, size: int)
    requires StoreInvariant(db) && size > 0
    requires Bind(db, validEmail, employeeEmail, managerEmail).result.Ok?
    ensures var after := Bind(db, validEmail, employeeEmail, managerEmail).store;
            exists page :: page >= 0 &&
              after[employeeEmail] in FindPage(after, ManagerEmailIs(managerEmail), page, size)
  {
    var after := Bind(db, validEmail, employeeEmail, managerEmail).store;
    EveryMatchIsOnSomePage(after, ManagerEmailIs(managerEmail), size, employeeEmail);
  }
}
