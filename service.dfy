/**
 * EmployeeServiceImpl.kt as a class: the repository is the field `store`, which `create`,
 * `bind`, `unbind` and `clean` update, and every method is proved to do what the matching
 * function of module `Directory` says, so the lemmas proved there and in `Lifecycle` hold
 * of the class too.
 */
module Service {
  import opened Wrappers
  import opened Text
  import opened Dates
  import opened Records
  import opened Validation
  import opened EmployeeCrud
  import opened Exceptions
  import opened Directory
  import Boundary
  import Entity

  class EmployeeServiceImpl {
    /** The rows of the repository, by email. */
    var store: Store
    /** The email validator the service delegates to. */
    const isValidEmail: string -> bool

    ghost predicate Valid()
      reads this
    {
      StoreInvariant(store)
    }

    constructor (isValidEmail: string -> bool, store: Store)
      requires StoreInvariant(store)
      ensures Valid()
      ensures this.isValidEmail == isValidEmail && this.store == store
    {
      this.isValidEmail := isValidEmail;
      this.store := store;
    }

    /** `create` (lines 25-53). `currentYear` stands for `Year.now()`. */
    method Create(newEmployee: EmployeeBoundary, currentYear: int) returns (r: Result<EmployeeBoundary, Error>)
      requires Valid()
      modifies this
      ensures Valid()
      ensures Step(store, r) == Directory.Create(old(store), isValidEmail, currentYear, newEmployee)
    {
      if newEmployee.email.None? {
        return Err(Error(InvalidInput, "Email cannot be null"));
      }
      var email := newEmployee.email.value;
      if !isValidEmail(email) {
        return Err(Error(InvalidInput, "Invalid email format"));
      }
      if email in store {
        return Err(Error(EmailExists, "Email already exists"));
      }
      if !IsValidPassword(newEmployee.password) {
        return Err(Error(InvalidInput, "Invalid password"));
      }
      if !IsValidDate(newEmployee.birthdate, currentYear) {
        return Err(Error(InvalidInput, "Invalid date"));
      }
      if newEmployee.roles.None? || |newEmployee.roles.value| == 0 {
        return Err(Error(InvalidInput, "Invalid role: cannot be null or empty"));
      }
      if exists role :: role in newEmployee.roles.value && IsBlank(role) {
        return Err(Error(InvalidInput, "Invalid role: role cannot be empty string"));
      }
      ghost var spec := Directory.Create(store, isValidEmail, currentYear, newEmployee);
      assert spec == Directory.Save(store, isValidEmail, currentYear, newEmployee);
      AcceptedRecordConverts(newEmployee, currentYear);
      var saved := Boundary.ToEntity(newEmployee);
      store := store[email := saved];
      r := Ok(Boundary.FromEntity(saved));
      assert Step(store, r) == spec;
    }

    /** `getEmployeeByEmail` (lines 56-69). */
    method GetEmployeeByEmail(email: string, password: string) returns (r: Result<EmployeeBoundary, Error>)
      requires Valid()
      ensures r == Directory.GetEmployeeByEmail(store, isValidEmail, email, password)
    {
      r := Directory.GetEmployeeByEmail(store, isValidEmail, email, password);
    }

    /** `getEmployees` (lines 72-76). */
    method GetEmployees(page: int, size: int) returns (r: seq<EmployeeBoundary>)
      requires Valid() && page >= 0 && size > 0
      ensures r == Directory.GetEmployees(store, page, size)
    {
      r := Directory.GetEmployees(store, page, size);
    }

    /** `getByDomain` (lines 79-84). */
    method GetByDomain(value: string, page: int, size: int) returns (r: seq<EmployeeBoundary>)
      requires Valid() && page >= 0 && size > 0
      ensures r == Directory.GetByDomain(store, value, page, size)
    {
      r := Directory.GetByDomain(store, value, page, size);
    }

    /** `getByRole` (lines 87-92). */
    method GetByRole(value: string, page: int, size: int) returns (r: seq<EmployeeBoundary>)
      requires Valid() && page >= 0 && size > 0
      ensures r == Directory.GetByRole(store, value, page, size)
    {
      r := Directory.GetByRole(store, value, page, size);
    }

    /** `getByAge` (lines 95-107). `today` stands for `LocalDate.now()`. */
    method GetByAge(value: string, page: int, size: int, today: LocalDate) returns (r: Result<seq<EmployeeBoundary>, Error>)
      requires Valid() && page >= 0 && size > 0
      ensures r == Directory.GetByAge(store, today, value, page, size)
    {
      r := Directory.GetByAge(store, today, value, page, size);
    }

    /** `clean` (lines 110-112). */
    method Clean()
      requires Valid()
      modifies this
      ensures Valid()
      ensures store == Directory.Clean(old(store)).store
    {
      store := map[];
    }

    /** `bind` (lines 115-136): the fetched row's manager is set, and the row saved back. */
    method Bind(employeeEmail: string, managerEmail: string) returns (r: Result<(), Error>)
      requires Valid()
      modifies this
      ensures Valid()
      ensures Step(store, r) == Directory.Bind(old(store), isValidEmail, employeeEmail, managerEmail)
    {
      if !isValidEmail(employeeEmail) {
        return Err(Error(InvalidInput, "Invalid employee email"));
      }
      if !isValidEmail(managerEmail) {
        return Err(Error(InvalidInput, "Invalid manager email"));
      }
      if employeeEmail !in store {
        return Err(Error(NotFound, "Employee not found: " + employeeEmail));
      }
      var employee := store[employeeEmail];
      if managerEmail !in store {
        return Err(Error(NotFound, "Manager not found: " + managerEmail));
      }
      var manager := store[managerEmail];
      if employee.email == manager.email {
        return Err(Error(InvalidInput, "An employee cannot be their own manager"));
      }
      ghost var spec := Directory.Bind(store, isValidEmail, employeeEmail, managerEmail);
      employee := employee.(manager := manager.email);
      store := store[employeeEmail := employee];
      r := Ok(());
      assert Step(store, r) == spec;
    }

    /** `getEmployeesManager` (lines 139-149). */
    method GetEmployeesManager(employeeEmail: string) returns (r: Result<EmployeeBoundary, Error>)
      requires Valid()
      ensures r == Directory.GetEmployeesManager(store, isValidEmail, employeeEmail)
    {
      r := Directory.GetEmployeesManager(store, isValidEmail, employeeEmail);
    }

    /** `getSubordinates` (lines 152-164). */
    method GetSubordinates(managerEmail: string, page: int, size: int) returns (r: Result<seq<EmployeeBoundary>, Error>)
      requires Valid() && page >= 0 && size > 0
      ensures r == Directory.GetSubordinates(store, isValidEmail, managerEmail, page, size)
    {
      r := Directory.GetSubordinates(store, isValidEmail, managerEmail, page, size);
    }

    /** `unbind` (lines 167-177): the fetched row's manager is cleared, and the row saved back. */
    method Unbind(employeeEmail: string) returns (r: Result<(), Error>)
      requires Valid()
      modifies this
      ensures Valid()
      ensures Step(store, r) == Directory.Unbind(old(store), isValidEmail, employeeEmail)
    {
      if !isValidEmail(employeeEmail) {
        return Err(Error(InvalidInput, "Invalid email format"));
      }
      if employeeEmail !in store {
        return Err(Error(NotFound, "Employee not found: " + employeeEmail));
      }
      ghost var spec := Directory.Unbind(store, isValidEmail, employeeEmail);
      var employee := store[employeeEmail];
      employee := employee.(manager := None);
      store := store[employeeEmail := employee];
      r := Ok(());
      assert Step(store, r) == spec;
    }
  }
}
