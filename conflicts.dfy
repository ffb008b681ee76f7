/**
 * Errors of the user service: the store's failures, the service's own
 * NotFound and Conflict, and the translation of a uniqueness violation
 * raised by a write into a Conflict.
 */
module Conflicts {
  import opened Wrappers

  /** A failure reported by the store: its code and, for a uniqueness violation, `meta.target`. */
  datatype DbError = DbError(code: string, target: Option<seq<string>>)

  datatype ServiceError =
    | NotFound(message: string)
    | Conflict(message: string)
    | Rethrown(error: DbError)   // a store failure passed on unchanged

  /** Code of a unique-constraint violation. */
  const UniqueViolation := "P2002"
  /** Code of a write whose record does not exist. */
  const RecordMissing := "P2025"

  const EmailInUse := "Email is already in use by another user."
  const PhoneInUse := "Phone number is already in use by another user."
  const Deleted := "User deleted successfully"

  const NotFoundPrefix := "User with ID "
  const NotFoundSuffix := " not found"

  /** `User with ID ${id} not found`: the message names the id that was asked for. */
  function NotFoundMessage(id: string): (m: string)
    ensures |m| == |NotFoundPrefix| + |id| + |NotFoundSuffix|
    ensures m[|NotFoundPrefix|..|m| - |NotFoundSuffix|] == id
  {
    NotFoundPrefix + id + NotFoundSuffix
  }

  /** Different ids give different NotFound messages. */
  lemma NotFoundMessageInjective(a: string, b: string)
    requires NotFoundMessage(a) == NotFoundMessage(b)
    ensures a == b
  {
  }

  /** `error.meta?.target?.includes(field)`, false when meta or target is missing. */
  predicate TargetIncludes(e: DbError, field: string)
  {
    e.target.Some? && field in e.target.value
  }

  /** The `catch` of `update`: email first, then phone number, otherwise the error unchanged. */
  function TranslateWriteError(e: DbError): (r: ServiceError)
    ensures r == Conflict(EmailInUse) <==> e.code == UniqueViolation && TargetIncludes(e, "email")
    ensures r == Conflict(PhoneInUse) <==>
              e.code == UniqueViolation && !TargetIncludes(e, "email") && TargetIncludes(e, "phoneNumber")
    ensures r.Rethrown? <==>
              !(e.code == UniqueViolation && (TargetIncludes(e, "email") || TargetIncludes(e, "phoneNumber")))
    ensures r.Rethrown? ==> r.error == e
    ensures !r.NotFound?
  {
    assert |EmailInUse| != |PhoneInUse|;
    if e.code == UniqueViolation && TargetIncludes(e, "email") then Conflict(EmailInUse)
    else if e.code == UniqueViolation && TargetIncludes(e, "phoneNumber") then Conflict(PhoneInUse)
    else Rethrown(e)
  }

  /** A violation naming both fields is reported as the email conflict. */
  lemma EmailWins(e: DbError)
    requires e.code == UniqueViolation && TargetIncludes(e, "email") && TargetIncludes(e, "phoneNumber")
    ensures TranslateWriteError(e) == Conflict(EmailInUse)
  {
  }

  /** A uniqueness violation on some other column is passed on as it came. */
  lemma UnknownTargetRethrown(e: DbError)
    requires e.code == UniqueViolation && !TargetIncludes(e, "email") && !TargetIncludes(e, "phoneNumber")
    ensures TranslateWriteError(e) == Rethrown(e)
  {
  }
}
