/** The older copy of the base tier: the same constants and the same email
    rule as the current one. */
module LegacyUserBase {
  import opened Wrappers
  import opened Text
  import opened Ensure
  import UserBaseTier

  /** The container that holds user documents. */
  const ContainerId: string := "Users"

  /** The partition key path of that container. */
  const PartitionKey: string := "/id"

  /** `UserBase.Validate` of the older copy: the email must be non-null and
      not blank; on success the record, id included, is returned as it was. */
  method Validate(u: UserBaseTier.UserBase) returns (r: Result<UserBaseTier.UserBase, Error>)
    ensures r.Success? <==> u.email.Some? && !IsBlank(u.email.value)
    ensures r.Success? ==> r.value == u
    ensures r.Failure? ==> r.error == NullOrWhitespace("Email")
  {
    var email :- IsNotNullOrWhitespace(u.email, "Email");
    return Success(u.(email := Some(email)));
  }

  /** The older constants are the current ones. */
  lemma SameConstants()
    ensures ContainerId == UserBaseTier.ContainerId && PartitionKey == UserBaseTier.PartitionKey
  {
  }
}
