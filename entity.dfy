/** EmployeeEntity.kt: the no-argument entity and the conversion to the wire shape. */
module Entity {
  import opened Wrappers
  import opened Dates
  import opened Records
  import opened DateUtils

  /** The no-argument constructor: every field null, no manager. */
  const Default: EmployeeEntity := EmployeeEntity(None, None, None, None, None, None)

  /**
   * `toBoundary()`: the same email, name and roles, the birth date rendered as three
   * strings, and the password replaced by the mask whatever is stored. The `!!` on
   * `birthDate` throws for an entity without one, so callers must supply it.
   */
  function ToBoundary(e: EmployeeEntity): (b: EmployeeBoundary)
    requires e.birthDate.Some?
    ensures b.password == Some(Mask)
    ensures b.email == e.email && b.name == e.name && b.roles == e.roles
    ensures b.birthdate.Some? && ToLocalDate(b.birthdate.value) == e.birthDate
  {
    LocalDateRoundTrip(e.birthDate.value);
    EmployeeBoundary(e.email, e.name, Some(Mask), Some(ToBirthDate(e.birthDate.value)), e.roles)
  }
}
