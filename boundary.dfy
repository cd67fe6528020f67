/** EmployeeBoundary.kt: building the wire record from an entity, and back. */
module Boundary {
  import opened Wrappers
  import opened Text
  import opened Dates
  import opened Records
  import opened DateUtils
  import Entity

  /**
   * The secondary constructor `EmployeeBoundary(entity)`: it produces the same record as
   * the entity's own `toBoundary()`, so the password is masked on both paths.
   */
  function FromEntity(entity: EmployeeEntity): (b: EmployeeBoundary)
    requires entity.birthDate.Some?
    ensures b == Entity.ToBoundary(entity)
    ensures b.password == Some(Mask)
  {
    EmployeeBoundary(entity.email, entity.name, Some(Mask), Some(ToBirthDate(entity.birthDate.value)), entity.roles)
  }

  /**
   * `toEntity()`: starts from the no-argument entity and copies email, name, password and
   * roles verbatim; the birth date goes through `toLocalDate`, and the manager stays unset.
   * The `!!` and `toLocalDate` throw unless the birth date is present and names a date.
   */
  function ToEntity(b: EmployeeBoundary): (e: EmployeeEntity)
    requires b.birthdate.Some? && ToLocalDate(b.birthdate.value).Some?
    ensures e.email == b.email && e.name == b.name && e.password == b.password && e.roles == b.roles
    ensures e.birthDate == ToLocalDate(b.birthdate.value)
    ensures e.manager.None?
  {
    Entity.Default.(email := b.email, name := b.name, password := b.password,
                    birthDate := ToLocalDate(b.birthdate.value), roles := b.roles)
  }

  /**
   * Storing a record with a well-formed birth date and reading it back returns the same
   * record, with the password masked.
   */
  lemma {:induction false} StoredRecordReadsBack(b: EmployeeBoundary)
    requires b.birthdate.Some? && IsDigitForm(b.birthdate.value)
    requires DigitsValue(b.birthdate.value.year) >= 1000 && IsValid(DigitDate(b.birthdate.value))
    ensures ToLocalDate(b.birthdate.value).Some?
    ensures FromEntity(ToEntity(b)) == b.(password := Some(Mask))
  {
    BirthDateRoundTrip(b.birthdate.value);
  }

  /**
   * Sending an entity out and converting the record back gives the entity again, except
   * that the password is now the mask and the manager is gone.
   */
  lemma {:induction false} EntityReadsBack(e: EmployeeEntity)
    requires e.birthDate.Some?
    ensures ToLocalDate(FromEntity(e).birthdate.value).Some?
    ensures ToEntity(FromEntity(e)) == e.(password := Some(Mask), manager := None)
  {
    LocalDateRoundTrip(e.birthDate.value);
  }
}
