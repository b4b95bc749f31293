/** The outcomes an operation of the API can end in: a value, or one of the
    errors the views surface to the client (a validation error with its
    reason, a missing object, a missing credential, an insufficient role),
    plus the storage-level constraint violation that the code lets escape in
    one place. */
module Outcomes {

  datatype Option<+T> = None | Some(value: T)

  /** Why a serializer or validator rejected its input. */
  datatype Reason =
    | Required(field: string)      // required field missing
    | Blank(field: string)         // required field empty (after trimming)
    | Invalid(field: string)       // holds a NUL character
    | TooLong(field: string)       // longer than the column's max_length
    | NotUnique(field: string)     // a UniqueValidator found another row
    | UnknownSlug(field: string)   // a SlugRelatedField found no row
    | UsernameCharacters           // users/validators.py: forbidden character
    | EmailSyntax                  // Django's EmailValidator refused the value
    | SlugSyntax                   // Django's validate_slug refused the value
    | InvalidRole                  // not one of the role choices
    | ReservedUsername             // signup with username "me"
    | UsernameIsEmail              // signup with username == email
    | CodeMismatch                 // token request with the wrong code
    | ScoreBelowMinimum
    | ScoreAboveMaximum
    | YearBelowMinimum
    | YearAboveMaximum
    | DuplicateReview              // second POST review by the same author

  datatype Error =
    | Validation(reason: Reason)   // HTTP 400
    | NotAuthenticated             // HTTP 401
    | PermissionDenied             // HTTP 403
    | NotFound                     // HTTP 404
    | IntegrityError               // a database unique constraint fired

  /** A value or an error; usable with `:-`. */
  datatype Result<+T> = Ok(value: T) | Err(error: Error) {
    predicate IsFailure() {
      Err?
    }

    function PropagateFailure<U>(): Result<U>
      requires Err?
    {
      Err(error)
    }

    function Extract(): T
      requires Ok?
    {
      value
    }
  }

  /** A check that passes or fails with an error; usable with `:-`. */
  datatype Outcome = Pass | Fail(error: Error) {
    predicate IsFailure() {
      Fail?
    }

    function PropagateFailure<U>(): Result<U>
      requires Fail?
    {
      Err(error)
    }
  }

  /** Fails with `e` unless `condition` holds. */
  function Need(condition: bool, e: Error): (o: Outcome)
    ensures o.Pass? <==> condition
    ensures o.Fail? ==> o.error == e
  {
    if condition then Pass else Fail(e)
  }
}
