/**
 * The record shapes: the wire-facing `EmployeeBoundary` with its three-string `BirthDate`,
 * and the stored `EmployeeEntity`. Every Kotlin property is nullable, so each is an
 * `Option`. The entity's `manager` is the manager's email (its primary key) rather than an
 * object reference.
 */
module Records {
  import opened Wrappers
  import opened Dates

  /** BirthDate.kt: day, month and year as the client wrote them. */
  datatype BirthDate = BirthDate(day: string, month: string, year: string)

  /** EmployeeBoundary.kt: the JSON record. */
  datatype EmployeeBoundary = EmployeeBoundary(
    email: Option<string>,
    name: Option<string>,
    password: Option<string>,
    birthdate: Option<BirthDate>,
    roles: Option<seq<string>>)

  /** EmployeeEntity.kt: the row of table `employees`, keyed by email. */
  datatype EmployeeEntity = EmployeeEntity(
    email: Option<string>,
    name: Option<string>,
    password: Option<string>,
    birthDate: Option<LocalDate>,
    roles: Option<seq<string>>,
    manager: Option<string>)

  /** The placeholder that stands for the password in every record sent back to a client. */
  const Mask: string := "****"
}
