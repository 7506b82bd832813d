/** Values shared by every layer: identifiers, optional values, and the
    exceptions the services throw, as a failure-compatible Result. */
module Common {

  /** Row identifiers (the database generates uuids; a counter stands for them). */
  type Id = nat

  datatype Option<+T> = None | Some(value: T)

  /** Errors raised by the database layer (Prisma) that the services react to. */
  datatype DbError =
    | UniqueViolation(target: Option<ConstraintTarget>)  // code P2002, with `meta.target`
    | RecordNotFound                                      // an update whose `where` matches no row
    | InvalidDate                                         // a write given `new Date(...)` of a non-date
    | ConnectionFailed(detail: string)                    // any other failure of the store

  /** `meta.target` of a unique-constraint error: a list of fields or a constraint name. */
  datatype ConstraintTarget = Fields(fields: seq<string>) | ConstraintName(name: string)

  /** Everything an operation of the core can throw. */
  datatype Error =
    | Unauthorized(message: string)      // UnauthorizedException
    | NotFound(resource: string, id: Id) // NotFoundException(`<resource> with id <id> not found`)
    | Forbidden(message: string)         // ForbiddenException
    | Conflict(message: string)          // ConflictException
    | JwtRejected(name: string)          // thrown by jsonwebtoken's verify
    | UnknownTheme(theme: string)        // Error(`Unknown theme: <theme>`)
    | Database(cause: DbError)           // rethrown database error

  datatype Result<+T> = Ok(value: T) | Err(error: Error) {
    predicate IsFailure() { Err? }

    function PropagateFailure<U>(): Result<U>
      requires Err?
    {
      Err(error)
    }

    function Extract(): T
      requires Ok?
    {
      value
    }
  }
}
