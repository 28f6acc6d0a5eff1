/** Java's `null` and thrown exceptions, as values. */
module Wrappers {

  /** A reference that may be `null` (an empty `Optional`). */
  datatype Option<+T> = None | Some(value: T)

  /** The outcome of a call that either returns a value or throws. */
  datatype Result<+T, +E> = Success(value: T) | Failure(error: E)
}

/** The exceptions the core raises, one constructor per cause. */
module Errors {

  datatype Error =
    /** "Ya existe un usuario con el email: " + email */
    | EmailTaken(email: string)
    /** "Credenciales inválidas" */
    | InvalidCredentials
    /** "Usuario no encontrado" */
    | UserNotFound
    /** `charAt(0)` on an empty name while building a password */
    | StringIndexOutOfBounds
    /** the database refused an insert (a NOT NULL or UNIQUE column) */
    | ConstraintViolation
    /** a finder declared to return one row matched several */
    | NonUniqueResult
    /**
     * sending the mail failed: a MessagingException comes back as
     * "Error al enviar email: " + its message, a MailException from the
     * transport as it is; the callers catch both alike
     */
    | MailFailure
}
