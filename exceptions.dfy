/**
 * The exceptions the service throws, reduced to a kind (which the HTTP layer maps to a
 * status code) and the message text passed to the exception's constructor.
 */
module Exceptions {

  datatype ErrorKind =
    | InvalidInput   // InvalidInputException: malformed request data
    | EmailExists    // EmailExistsException: duplicate email on create
    | NotFound       // NotFoundException: referenced employee or manager absent
    | Unauthorized   // UnauthorizedException: bad credentials
    | Internal       // any runtime exception the code does not catch (here: java.time's DateTimeException)

  datatype Error = Error(kind: ErrorKind, message: string)
}
