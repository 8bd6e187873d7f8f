/** The base tier of every user record: the store identity and the email
    address, with the container constants of the user store. */
module UserBaseTier {
  import opened Wrappers
  import opened Text
  import opened Ensure
  import opened SystemTypes

  /** The container that holds user documents. */
  const ContainerId: string := "Users"

  /** The partition key path of that container. */
  const PartitionKey: string := "/id"

  /** Identity and email. `id` is init-only: nothing in the model writes it
      after construction. */
  datatype UserBase = UserBase(id: Guid, email: Option<string>)

  /** A freshly constructed base record: the id is the fresh `Guid.NewGuid()`
      passed in, the email is unset. */
  function New(freshId: Guid): (u: UserBase)
    ensures u.id == freshId && u.email.None?
  {
    UserBase(freshId, None)
  }

  /** The first rule `Validate` finds broken, if any: the email must be
      non-null and not blank. */
  function Violation(u: UserBase): (e: Option<Error>)
    ensures e.None? <==> u.email.Some? && !IsBlank(u.email.value)
    ensures e.Some? ==> e.value == NullOrWhitespace("Email")
  {
    if u.email.None? || IsBlank(u.email.value) then Some(NullOrWhitespace("Email")) else None
  }

  /** What `Validate` returns: the record itself, or the failure. */
  function Outcome(u: UserBase): Result<UserBase, Error>
  {
    if Violation(u).Some? then Failure(Violation(u).value) else Success(u)
  }

  /** `UserBase.Validate`: check the email and write it back. */
  method Validate(u: UserBase) returns (r: Result<UserBase, Error>)
    ensures r == Outcome(u)
    ensures r.Success? ==> r.value.id == u.id && r.value.email == u.email
  {
    var email :- IsNotNullOrWhitespace(u.email, "Email");
    return Success(u.(email := Some(email)));
  }

  /** A validated record validates again to itself, and its id is the one it had. */
  lemma ValidateIdempotent(u: UserBase)
    requires Outcome(u).Success?
    ensures Outcome(u).value == u
    ensures Outcome(Outcome(u).value) == Outcome(u)
  {
  }

  /** A fresh record fails: its email is null. */
  lemma NewFails(freshId: Guid)
    ensures Outcome(New(freshId)) == Failure(NullOrWhitespace("Email"))
  {
  }
}
