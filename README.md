# WebMVCEmployees: a Dafny model of the employee directory

WebMVCEmployees is a Spring Boot service, written in Kotlin, that keeps a directory of
employees. Each employee has an email (the key), a name, a password, a birth date, a list of
roles and an optional manager. The REST controller checks the query parameters and calls
`EmployeeServiceImpl`. The service validates the input, talks to the JPA repository
`EmployeeCrud` and converts between the wire record `EmployeeBoundary` and the stored row
`EmployeeEntity`. On the way out the password is always masked as `"****"`.

This project models that core in Dafny. It has these modules:

- `Wrappers`: `Option` and `Result`.
- `Exceptions`: the service's exception classes, with their message texts.
- `Text`: the Kotlin string functions the core relies on, and the code-unit order of strings.
  The functions are `toIntOrNull`, `Int.toString`, `padStart`, `isBlank`, `endsWith`,
  `Char.isDigit` and `Char.isUpperCase`.
- `Dates`: the part of `java.time.LocalDate` the core relies on. That is `LocalDate.of`,
  `minusYears` (which clamps the day to the month's length), `plusDays(1)` and the
  age-in-years arithmetic.
- `Records`: the record shapes `BirthDate`, `EmployeeBoundary` and `EmployeeEntity`.
  An entity's `manager` holds the manager's email.
- `DateUtils`, `Entity`, `Boundary`: the conversions between the record shapes, and the
  round trips they complete.
- `Validation`: `isValidPassword` and `isValidDate`. It holds both the date check as
  written and the check as evidently intended (see Findings).
- `EmployeeCrud`: the repository queries as filters over a map from email to row. Each
  query returns a page of the rows sorted by email.
- `Directory`: each service operation as a function of the store's contents. The function
  gives the new contents and the result or the exception raised. It also defines the
  invariant the operations keep: every row is stored under its own email, has a password
  and roles that pass `create`'s checks and a birth date from 1900 on, and names as manager
  another stored employee.
- `Service`: the class `EmployeeServiceImpl`. Its field `store` is the repository, and
  `create`, `bind`, `unbind` and `clean` update it in place. Each method is proved to agree
  with its `Directory` function.
- `Lifecycle`: how the operations combine. For example: create then authenticate, bind
  then look up the manager, unbind twice, and clean then list.
- `Controller`: the parameter checks and criteria dispatch of `GET /employees`, and the
  pagination check of `GET /employees/{managerEmail}/subordinates`.

Some inputs come from outside the core and become parameters:

- The email validator is the parameter `validEmail`, and the class constant `isValidEmail`.
- `Year.now()` is the parameter `currentYear`.
- `LocalDate.now()` is the parameter `today`.

## Model

| member | source | states |
|---|---|---|
| Text.ToIntOrNull | src/main/kotlin/com/example/webmvcemployees/Service/EmployeeServiceImpl.kt:188-191 | `toIntOrNull` yields only values inside the 32-bit range. A string of ASCII digits within that range reads as its decimal value. A string starting with anything other than a digit or a sign reads as null. |
| Text.ToIntOrNullReadsSignedDecimals | src/main/kotlin/com/example/webmvcemployees/Service/EmployeeServiceImpl.kt:96-97 | Both directions: `toIntOrNull` yields a value exactly for an optional '+' or '-' followed by one or more ASCII digits whose signed value lies in the 32-bit range, and that value is the signed value of the text. |
| Text.ToIntOrNullReadsSigns | src/main/kotlin/com/example/webmvcemployees/Service/EmployeeServiceImpl.kt:96-97 | "-5" reads as -5, "+5" as 5 and "007" as 7. |
| Text.ToIntOrNullRefusesMalformed | src/main/kotlin/com/example/webmvcemployees/Service/EmployeeServiceImpl.kt:96-97 | "12a", "-", "+", "", " 5" and "5-" read as null. |
| Text.ToIntOrNullReadsIntMax | src/main/kotlin/com/example/webmvcemployees/Service/EmployeeServiceImpl.kt:96-97 | "2147483647" reads as the largest `Int`. |
| Text.ToIntOrNullReadsIntMin | src/main/kotlin/com/example/webmvcemployees/Service/EmployeeServiceImpl.kt:96-97 | "-2147483648" reads as the smallest `Int`. |
| Text.ToIntOrNullRefusesOverflow | src/main/kotlin/com/example/webmvcemployees/Service/EmployeeServiceImpl.kt:96-97 | "2147483648" and "-2147483649", one past either end of the range, read as null. |
| Text.IsBlank | src/main/kotlin/com/example/webmvcemployees/Service/EmployeeServiceImpl.kt:48 | `isBlank` holds exactly for a string that is empty or made only of JVM whitespace characters (the Java whitespace controls and every Unicode space separator). |
| Text.IntToString | src/main/kotlin/com/example/webmvcemployees/Utility/DateUtils.kt:13-15 | `Int.toString` writes a text of an optional minus sign and digits that denotes the number itself, with the minus sign exactly for a negative number. |
| Text.PadStart | src/main/kotlin/com/example/webmvcemployees/Utility/DateUtils.kt:13-14 | `padStart(2, '0')` yields at least the requested length, keeps the original as a suffix and pads only with the given character. |
| Text.IntToStringRoundTrip | src/main/kotlin/com/example/webmvcemployees/Utility/DateUtils.kt:15 | Reading back what `Int.toString` renders gives the same int. |
| Text.DigitsValueOfDecimal | src/main/kotlin/com/example/webmvcemployees/Utility/DateUtils.kt:13-15 | The decimal rendering of a natural number reads back as that number. |
| Text.DecimalOfDigitsValue | src/main/kotlin/com/example/webmvcemployees/Utility/DateUtils.kt:13-15 | A digit string without a leading zero is the rendering of its own value. |
| Text.LexLeqTotal | src/main/kotlin/com/example/webmvcemployees/Service/EmployeeServiceImpl.kt:73 | Any two emails are comparable in the ascending order used for sorting. |
| Text.LexLeqAntisymmetric | src/main/kotlin/com/example/webmvcemployees/Service/EmployeeServiceImpl.kt:73 | Two emails that each sort no later than the other are equal, so the order is a total order on keys. |
| Text.LexLeqTransitive | src/main/kotlin/com/example/webmvcemployees/Service/EmployeeServiceImpl.kt:73 | The email ordering is transitive. |
| Dates.LengthOfMonth | src/main/kotlin/com/example/webmvcemployees/Service/EmployeeServiceImpl.kt:197-204 | A month has 28 to 31 days. It has 29 exactly for February of a leap year, 28 exactly for February otherwise, and 30 exactly for April, June, September and November. |
| Dates.Of | src/main/kotlin/com/example/webmvcemployees/Utility/DateUtils.kt:6-10 | `LocalDate.of` succeeds exactly when year, month and day form a valid date in range, and then yields that date. |
| Dates.MinusYears | src/main/kotlin/com/example/webmvcemployees/Service/EmployeeServiceImpl.kt:100-101 | `minusYears` keeps the month and subtracts the years. The day stays exactly when the target year's month has it; otherwise (29 February into a common year) it becomes 28. It throws exactly when the year leaves the supported range. |
| Dates.PlusOneDay | src/main/kotlin/com/example/webmvcemployees/Service/EmployeeServiceImpl.kt:100 | `plusDays(1)` yields a valid later date, and throws only on the last supported day. |
| Dates.NextDayIsSuccessor | src/main/kotlin/com/example/webmvcemployees/Service/EmployeeServiceImpl.kt:100 | The next day is the immediate successor: x is before b exactly when x + 1 day is not after b. |
| Dates.AgeAtLeast | src/main/kotlin/com/example/webmvcemployees/Service/EmployeeServiceImpl.kt:101 | A person is at least `a` years old today exactly when they were born no later than today minus `a` years. |
| Dates.AgeWindow | src/main/kotlin/com/example/webmvcemployees/Service/EmployeeServiceImpl.kt:99-101 | The window `[today - (age+1) years + 1 day, today - age years]` exists exactly when today's year minus `age + 1` is at least the smallest supported year and today's year minus `age` at most the largest; its ends are then valid dates. |
| Dates.AgeWindowExact | src/main/kotlin/com/example/webmvcemployees/Service/EmployeeServiceImpl.kt:95-107 | A birth date lies in the window exactly when the age on `today` is `age` (both directions). |
| DateUtils.ToLocalDate | src/main/kotlin/com/example/webmvcemployees/Utility/DateUtils.kt:6-10 | The three fields are read with `toInt`, and `LocalDate.of` is applied to them. The result is present exactly when every field parses and the date exists, and it is then the date of the parsed numbers. |
| DateUtils.ToBirthDate | src/main/kotlin/com/example/webmvcemployees/Utility/DateUtils.kt:12-16 | Day and month come out as two digits with the date's value. A four-digit year comes out as four digits with the year's value. |
| DateUtils.TwoDigitRendering | src/main/kotlin/com/example/webmvcemployees/Utility/DateUtils.kt:13-14 | A day or month number renders, zero-padded, as exactly two digits with its value. |
| DateUtils.FourDigitYear | src/main/kotlin/com/example/webmvcemployees/Utility/DateUtils.kt:15 | A year from 1000 to 9999 renders as four digits with its value. |
| DateUtils.LocalDateRoundTrip | src/main/kotlin/com/example/webmvcemployees/Utility/DateUtils.kt:6-16 | `toBirthDate` followed by `toLocalDate` gives back the date it started from. |
| DateUtils.BirthDateRoundTrip | src/main/kotlin/com/example/webmvcemployees/Utility/DateUtils.kt:6-16 | A `BirthDate` written as two-digit day and month and a four-digit year reads as its date, and renders back to itself. |
| Entity.ToBoundary | src/main/kotlin/com/example/webmvcemployees/Entity/EmployeeEntity.kt:32-34 | The outgoing record masks the password. It copies email, name and roles, and carries a birth date that reads back as the stored one. |
| Entity.Default | src/main/kotlin/com/example/webmvcemployees/Entity/EmployeeEntity.kt:26 | The no-argument entity has every field null and no manager; `toEntity` starts from it. |
| Boundary.FromEntity | src/main/kotlin/com/example/webmvcemployees/Boundary/EmployeeBoundary.kt:14 | The secondary constructor builds the same record as `toBoundary`, with the password masked. |
| Boundary.ToEntity | src/main/kotlin/com/example/webmvcemployees/Boundary/EmployeeBoundary.kt:20-28 | Starting from the empty entity of EmployeeEntity.kt line 26, `toEntity` copies email, name, password and roles, converts the birth date and sets no manager. |
| Boundary.StoredRecordReadsBack | src/main/kotlin/com/example/webmvcemployees/Boundary/EmployeeBoundary.kt:14-28 | A record with a well-formed date, stored and read back, is the same record with its password masked. |
| Boundary.EntityReadsBack | src/main/kotlin/com/example/webmvcemployees/Boundary/EmployeeBoundary.kt:14-28 | An entity sent out and brought back is the same entity, with the password masked and no manager. |
| Validation.PasswordExamples | src/main/kotlin/com/example/webmvcemployees/Service/EmployeeServiceImpl.kt:207-214 | A password needs at least 3 characters, a digit and an upper-case letter. Each missing requirement, and a null password, is refused. |
| Validation.IsValidPassword | src/main/kotlin/com/example/webmvcemployees/Service/EmployeeServiceImpl.kt:207-214 | A password is valid exactly when it is present, has at least 3 characters, and contains an ASCII digit and an ASCII upper-case letter. |
| Validation.IsValidDate | src/main/kotlin/com/example/webmvcemployees/Service/EmployeeServiceImpl.kt:180-205 | The date check as evidently intended: present, fields of the right widths and ranges, year from 1900 to the current year, and a day the month really has. `ValidDateCharacterization` states it in both directions. |
| Validation.IsValidDateAsWritten | src/main/kotlin/com/example/webmvcemployees/Service/EmployeeServiceImpl.kt:180-205 | The date check as the code runs it: the same field checks, and the parse step passes every all-digit text, so a day past the month's end is accepted. |
| Validation.ValidDateCharacterization | src/main/kotlin/com/example/webmvcemployees/Service/EmployeeServiceImpl.kt:180-205 | The date check holds exactly when the day and month are two digits and the year is four digits, the day is 1-31, the month is 1-12, the year is from 1900 to the current year, and the date exists. |
| Validation.DigitFormFields | src/main/kotlin/com/example/webmvcemployees/Service/EmployeeServiceImpl.kt:188-191 | Fixed-width digit fields are read by `toIntOrNull` as their positional decimal values. |
| Validation.ValidDateConverts | src/main/kotlin/com/example/webmvcemployees/Service/EmployeeServiceImpl.kt:180-205 | A birth date that passes the check converts with `toLocalDate` without throwing. Its year is from 1900 to the current year, and it renders back unchanged. |
| Validation.RejectsNonexistentDates | src/main/kotlin/com/example/webmvcemployees/Service/EmployeeServiceImpl.kt:197-204 | 31/02/2023, 29/02/2023 and 31/04/2023 are refused. |
| Validation.AcceptsLeapDay | src/main/kotlin/com/example/webmvcemployees/Service/EmployeeServiceImpl.kt:197-204 | 29/02/2024 is accepted. |
| Validation.RejectsOutOfRangeFields | src/main/kotlin/com/example/webmvcemployees/Service/EmployeeServiceImpl.kt:181-195 | The check refuses month 13, day 00, year 1899, a year after the current one, and a null birth date. |
| Validation.FixedWidthFields | src/main/kotlin/com/example/webmvcemployees/Service/EmployeeServiceImpl.kt:188-191 | The field widths are exact: a one-digit day or month, a signed day and a five-digit year are refused. |
| Validation.AsWrittenAcceptsNonexistentDate | src/main/kotlin/com/example/webmvcemployees/Service/EmployeeServiceImpl.kt:197-204 | The check as written accepts 31/02/2023, which does not exist and which `toLocalDate` cannot convert. |
| Validation.AsWrittenDiffersOnlyOnNonexistentDates | src/main/kotlin/com/example/webmvcemployees/Service/EmployeeServiceImpl.kt:180-205 | The intended check is stricter than the one as written, and they differ only on dates whose day exceeds the month's length. |
| EmployeeCrud.SortedKeys | src/main/kotlin/com/example/webmvcemployees/Service/EmployeeServiceImpl.kt:73 | Sorting by email lists every selected key once, in strictly ascending order. |
| EmployeeCrud.Matches | src/main/kotlin/com/example/webmvcemployees/Entity/EmployeeCrud.kt:11-27 | The WHERE clause of each repository query: `findAll` selects every row; `findByEmailEndingWith` rows whose email ends with the suffix; `:role = ANY(roles)` rows one of whose roles equals the role; `birthDate BETWEEN` rows whose birth date lies in the range, both ends included; `findAllByManagerEmail` rows whose manager's email is the given one. |
| EmployeeCrud.FindPage | src/main/kotlin/com/example/webmvcemployees/Entity/EmployeeCrud.kt:11-27 | Page `page` holds exactly as many rows as that page of the matches has (`size`, or fewer on the last page, none past it). Each row satisfies the query and is the stored row under its email, and the row at position `i` has exactly `page * size + i` matching emails before it in email order, so the page is the slice from offset `page * size` of the sorted matches. |
| EmployeeCrud.RankInSortedKeys | src/main/kotlin/com/example/webmvcemployees/Service/EmployeeServiceImpl.kt:73 | In the ascending list of the matching emails, the email at position `j` has exactly `j` matching emails before it. |
| EmployeeCrud.RanksAreDistinct | src/main/kotlin/com/example/webmvcemployees/Service/EmployeeServiceImpl.kt:73 | Two matching emails with the same number of matches before them are the same email, so a position on a page names one row. |
| EmployeeCrud.EveryMatchIsOnSomePage | src/main/kotlin/com/example/webmvcemployees/Entity/EmployeeCrud.kt:11-27 | Every row that satisfies a query appears on some page, for any page size: the page its rank falls in. |
| EmployeeCrud.EmptyStoreHasEmptyPages | src/main/kotlin/com/example/webmvcemployees/Service/EmployeeServiceImpl.kt:110-112 | Every page of every query on an emptied repository is empty. |
| Directory.Create | src/main/kotlin/com/example/webmvcemployees/Service/EmployeeServiceImpl.kt:25-53 | Each failed check gives its exception and message, in the order the checks run, and stores nothing. The call succeeds exactly when every check passes. It then stores the record under its email, without a manager, leaves other rows alone, keeps the invariant and returns the stored record masked. |
| Directory.Save | src/main/kotlin/com/example/webmvcemployees/Service/EmployeeServiceImpl.kt:52 | An accepted record is added under its email with its password as given and no manager. Nothing else changes, and the result is the masked read-back of the stored row. |
| Directory.AcceptedRecordConverts | src/main/kotlin/com/example/webmvcemployees/Boundary/EmployeeBoundary.kt:20-28 | A record that passed `create`'s checks converts with `toEntity` without throwing. The row keeps email, password and roles, has no manager and a birth year of at least 1900, and reads back as the record with its password masked. |
| Directory.InsertKeepsInvariant | src/main/kotlin/com/example/webmvcemployees/Service/EmployeeServiceImpl.kt:52 | Adding a row that passed the checks, without a manager, keeps the store invariant. |
| Directory.GetEmployeeByEmail | src/main/kotlin/com/example/webmvcemployees/Service/EmployeeServiceImpl.kt:56-69 | A malformed email is invalid input. An unknown email and a wrong password give the same Unauthorized message. The call succeeds exactly when the password matches, and returns the stored record masked. |
| Directory.ListPage | src/main/kotlin/com/example/webmvcemployees/Service/EmployeeServiceImpl.kt:72-107 | A page of a query, mapped through the `EmployeeBoundary(entity)` constructor, holds the records of exactly that slice of the sorted matches: as many as the page has, each the masked form of a stored row satisfying the query, in ascending email order, the one at position `i` preceded by exactly `page * size + i` matches. |
| Directory.GetEmployees | src/main/kotlin/com/example/webmvcemployees/Service/EmployeeServiceImpl.kt:72-76 | Page `page` of all employees: exactly the slice of the sorted store that page covers, each record the masked stored row. |
| Directory.GetByDomain | src/main/kotlin/com/example/webmvcemployees/Service/EmployeeServiceImpl.kt:79-84 | Page `page` of the employees whose email ends in "@" + value: exactly that slice of the sorted matches, each record the masked stored row, so every email returned ends in "@" + value. |
| Directory.GetByRole | src/main/kotlin/com/example/webmvcemployees/Service/EmployeeServiceImpl.kt:87-92 | Page `page` of the employees one of whose roles is exactly `value`: exactly that slice of the sorted matches, each record the masked stored row carrying `value` among its roles. |
| Directory.GetByAge | src/main/kotlin/com/example/webmvcemployees/Service/EmployeeServiceImpl.kt:95-107 | An unreadable age is invalid input, and exactly then. A readable age whose window java.time cannot compute gives `Internal` ("DateTimeException"); the call succeeds exactly when the age reads and the window exists. Then it returns that page of the employees born in the window, each the masked stored row, and every one of them has the requested age today. |
| Directory.BornInWindowMeansAge | src/main/kotlin/com/example/webmvcemployees/Service/EmployeeServiceImpl.kt:99-104 | The birth-date range query selects exactly the stored employees of the requested age. |
| Directory.GetByAgeListsPlausibleAges | src/main/kotlin/com/example/webmvcemployees/Service/EmployeeServiceImpl.kt:95-107 | For a today with a year from 1 to 9999, every age from 0 to 10000 that `toIntOrNull` reads gives a page rather than an exception. |
| Directory.Clean | src/main/kotlin/com/example/webmvcemployees/Service/EmployeeServiceImpl.kt:110-112 | `clean` empties the store. |
| Directory.Bind | src/main/kotlin/com/example/webmvcemployees/Service/EmployeeServiceImpl.kt:115-136 | Each failed check gives its exception and message, in order, and changes nothing. The call succeeds exactly when both emails are well formed, both employees exist and they differ. Then only the employee's manager changes, to the given manager, and the invariant holds. |
| Directory.GetEmployeesManager | src/main/kotlin/com/example/webmvcemployees/Service/EmployeeServiceImpl.kt:139-149 | A malformed email is invalid input. An unknown employee and an employee without a manager give their NotFound messages. Otherwise the call returns the manager's current record, masked. |
| Directory.GetSubordinates | src/main/kotlin/com/example/webmvcemployees/Service/EmployeeServiceImpl.kt:152-164 | The call fails exactly for a malformed email. Otherwise it returns page `page` of the stored employees whose manager is the given email: exactly that slice of the sorted matches, each masked. |
| Directory.Unbind | src/main/kotlin/com/example/webmvcemployees/Service/EmployeeServiceImpl.kt:167-177 | A malformed or unknown email fails and changes nothing. Otherwise only the employee's manager changes, to none, and the invariant holds. |
| Lifecycle.CreateThenAuthenticate | src/main/kotlin/com/example/webmvcemployees/Service/EmployeeServiceImpl.kt:25-69 | After a successful `create`, logging in with the same email and password returns exactly what `create` returned. |
| Lifecycle.CreateTwiceConflicts | src/main/kotlin/com/example/webmvcemployees/Service/EmployeeServiceImpl.kt:32-34 | A second `create` with the same email fails with EmailExists, whatever else it carries. |
| Lifecycle.BindThenGetManager | src/main/kotlin/com/example/webmvcemployees/Service/EmployeeServiceImpl.kt:115-149 | After `bind(e, m)`, `getEmployeesManager(e)` returns m's record, masked. |
| Lifecycle.UnbindThenGetManager | src/main/kotlin/com/example/webmvcemployees/Service/EmployeeServiceImpl.kt:139-177 | After `unbind(e)`, `getEmployeesManager(e)` reports that e has no manager. |
| Lifecycle.UnbindIsIdempotent | src/main/kotlin/com/example/webmvcemployees/Service/EmployeeServiceImpl.kt:167-177 | `unbind` twice equals `unbind` once. On an employee without a manager it leaves the store unchanged. |
| Lifecycle.BindToSelfFails | src/main/kotlin/com/example/webmvcemployees/Service/EmployeeServiceImpl.kt:123-132 | `bind(e, e)` never succeeds. It gives NotFound for an unknown e and invalid input for a stored one. |
| Lifecycle.CleanThenListIsEmpty | src/main/kotlin/com/example/webmvcemployees/Service/EmployeeServiceImpl.kt:72-76 | After `clean` the invariant holds and every page of `getEmployees` is empty. |
| Lifecycle.SubordinatesOfUnknownManager | src/main/kotlin/com/example/webmvcemployees/Service/EmployeeServiceImpl.kt:152-164 | With the existence check commented out, the subordinates of a well-formed but unknown email are an empty page, not an error. |
| Lifecycle.BindThenSubordinates | src/main/kotlin/com/example/webmvcemployees/Service/EmployeeServiceImpl.kt:115-164 | After `bind(e, m)`, e's row appears on some page of m's subordinates. |
| Service.EmployeeServiceImpl.constructor | src/main/kotlin/com/example/webmvcemployees/Service/EmployeeServiceImpl.kt:21-22 | The service starts over a repository that satisfies the store invariant. |
| Service.EmployeeServiceImpl.Create | src/main/kotlin/com/example/webmvcemployees/Service/EmployeeServiceImpl.kt:25-53 | The new repository contents and the result are those of `Directory.Create`, and the invariant is kept. |
| Service.EmployeeServiceImpl.GetEmployeeByEmail | src/main/kotlin/com/example/webmvcemployees/Service/EmployeeServiceImpl.kt:56-69 | The method returns what `Directory.GetEmployeeByEmail` specifies. |
| Service.EmployeeServiceImpl.GetEmployees | src/main/kotlin/com/example/webmvcemployees/Service/EmployeeServiceImpl.kt:72-76 | The method returns the page `Directory.GetEmployees` specifies. |
| Service.EmployeeServiceImpl.GetByDomain | src/main/kotlin/com/example/webmvcemployees/Service/EmployeeServiceImpl.kt:79-84 | The method returns the page `Directory.GetByDomain` specifies. |
| Service.EmployeeServiceImpl.GetByRole | src/main/kotlin/com/example/webmvcemployees/Service/EmployeeServiceImpl.kt:87-92 | The method returns the page `Directory.GetByRole` specifies. |
| Service.EmployeeServiceImpl.GetByAge | src/main/kotlin/com/example/webmvcemployees/Service/EmployeeServiceImpl.kt:95-107 | The method returns what `Directory.GetByAge` specifies for the given `today`. |
| Service.EmployeeServiceImpl.Clean | src/main/kotlin/com/example/webmvcemployees/Service/EmployeeServiceImpl.kt:110-112 | The repository is emptied and the invariant is kept. |
| Service.EmployeeServiceImpl.Bind | src/main/kotlin/com/example/webmvcemployees/Service/EmployeeServiceImpl.kt:115-136 | The fetched row's manager is set and saved back. The new contents and the result are those of `Directory.Bind`, and the invariant is kept. |
| Service.EmployeeServiceImpl.GetEmployeesManager | src/main/kotlin/com/example/webmvcemployees/Service/EmployeeServiceImpl.kt:139-149 | The method returns what `Directory.GetEmployeesManager` specifies. |
| Service.EmployeeServiceImpl.GetSubordinates | src/main/kotlin/com/example/webmvcemployees/Service/EmployeeServiceImpl.kt:152-164 | The method returns what `Directory.GetSubordinates` specifies. |
| Service.EmployeeServiceImpl.Unbind | src/main/kotlin/com/example/webmvcemployees/Service/EmployeeServiceImpl.kt:167-177 | The fetched row's manager is cleared and saved back. The new contents and the result are those of `Directory.Unbind`, and the invariant is kept. |
| Controller.ParseQuery | src/main/kotlin/com/example/webmvcemployees/Controller/EmployeeController.kt:37-49 | Three checks run in order: a criteria with a null or blank value, then a bad page or size, then an unknown criteria. Each has its message. The parse succeeds exactly when all three pass. Page and size pass through unchanged, and without a criteria the value is ignored. |
| Controller.Run | src/main/kotlin/com/example/webmvcemployees/Controller/EmployeeController.kt:43-49 | Each query calls its own service listing with its value, page and size: all employees, by domain, by role or by age. The result holds at most `size` records in ascending order, and only an age query can fail. |
| Controller.GetEmployees | src/main/kotlin/com/example/webmvcemployees/Controller/EmployeeController.kt:33-50 | Parameter errors are reported before any listing runs. A successful response comes from a valid page and holds at most `size` records in ascending email order. |
| Controller.CriteriaDispatch | src/main/kotlin/com/example/webmvcemployees/Controller/EmployeeController.kt:43-48 | Once the checks pass, each criteria reaches its own service listing with the request's value, page and size, and a missing criteria lists everyone. Only the age listing can fail with anything other than invalid input. |
| Controller.GetSubordinates | src/main/kotlin/com/example/webmvcemployees/Controller/EmployeeController.kt:75-82 | A bad page or size is reported before the email is checked. Otherwise the endpoint returns the service's result. |

## Left out

- `isValidEmail` (EmployeeServiceImpl.kt lines 217-219): it delegates to a library validator that is not part of this model. It is a parameter (`validEmail`) and a class constant, and every property holds for any validator.
- `Year.now()` and `LocalDate.now()`: the clock is not modelled. They are the parameters `currentYear` and `today`.
- Unicode: `Char.isDigit`, `Char.isUpperCase` and `toIntOrNull` are modelled on ASCII only (0-9 and A-Z). Kotlin also accepts other Unicode digits and capital letters: its `toIntOrNull` reads "٣٠" (Arabic-Indic digits) as 30, where the model's `getByAge` gives invalid input. `isWhitespace` is modelled on the full JVM whitespace set.
- String length and order: Dafny characters are Unicode scalar values, while Kotlin counts UTF-16 code units. Emails are sorted by character order, not by the database collation.
- `Validation.IsValidDate`: the service uses the corrected date check, not the one as written. The as-written check is `Validation.IsValidDateAsWritten` (see Findings).
- `Entity.ToBoundary`, `Boundary.FromEntity`, `Boundary.ToEntity`: a null birth date or an unparsable field makes `!!` or `toInt` throw. The model requires a present, convertible birth date instead. The store invariant guarantees one for every stored row.
- `Directory.GetEmployees`, `GetByDomain`, `GetByRole`, `GetByAge`, `GetSubordinates`: `PageRequest.of` throws for a negative page or a size below 1. These functions require a valid page instead. The controller checks both before calling them.
- `Directory.GetByAge`: overflow in `age.toLong() + 1` cannot happen for an `Int` age, and the model does not track it. A window java.time cannot compute gives `Internal` with the message "DateTimeException".
- The manager is a JPA reference (`@ManyToOne`). The model stores the manager's email, and `getEmployeesManager` returns the manager's current row. Longer manager cycles (A to B to A) are allowed by the source and by the model, and no property is claimed about them.
- `clean` with foreign keys: `deleteAll` removes every row, and managers are among them, so no dangling reference is left. Database-level foreign-key ordering is not modelled.
- Transactions, concurrency, Spring wiring, JSON (de)serialisation, HTTP status mapping and `toString` are not modelled.
- The no-argument constructors of `BirthDate` and `EmployeeBoundary` serve JSON binding only. The core never calls them, so the model does not include them.
- The controller endpoints that only forward to the service (`create`, `findByEmail`, `clean`, `bind`, `getEmployeesManager`, `unbind`) have no model of their own: they are the service functions.
- Integer widths: page, size and the date fields are unbounded `int`s. `toIntOrNull` enforces the 32-bit range where the source depends on it.

## Findings

| source | as written | input that shows it | evidently intended | confidence | as-written member | corrected member |
|---|---|---|---|---|---|---|
| src/main/kotlin/com/example/webmvcemployees/Service/EmployeeServiceImpl.kt:197-204 | `LocalDate.parse` with the pattern `yyyy-MM-dd` uses the SMART resolver, which clamps a day past the month's end instead of throwing, so the calendar check never fails for a day past the month's end. | BirthDate("31", "02", "2023") passes `isValidDate`, and `create` then throws from `toLocalDate` while storing it. | The comment on line 197 says 31/02/2023 should fail: the date must exist. | not executed | Validation.AsWrittenAcceptsNonexistentDate | Validation.ValidDateConverts |
