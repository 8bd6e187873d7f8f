/** The guard helpers of the shared `Ensure` class, each of which either
    throws or hands back the value it was given, and the exceptions of the
    core as one error type. */
module Ensure {
  import opened Wrappers
  import opened Text

  /** What a failing call of the core throws. The string names the member
      the guard was looking at. */
  datatype Error =
    | NullOrWhitespace(member: string) // Ensure.IsNotNullOrWhitespace
    | Null(member: string)             // Ensure.IsNotNull
    | NotEqual(member: string)         // Ensure.AreEqual
    | NotSingle(member: string)        // Enumerable.Single on zero or several matches
    | Conflict                         // the store already holds a document with that id
    | NotFound                         // the store holds no document with that id
    | BadRequest                       // the document's id differs from the id it is addressed by

  /** `Ensure.IsNotNullOrWhitespace`. */
  function IsNotNullOrWhitespace(value: Option<string>, member: string): (r: Result<string, Error>)
    ensures r.Success? <==> value.Some? && !IsBlank(value.value)
    ensures r.Success? ==> r.value == value.value
    ensures r.Failure? ==> r.error == NullOrWhitespace(member)
  {
    if value.None? || IsBlank(value.value) then Failure(NullOrWhitespace(member)) else Success(value.value)
  }

  /** `Ensure.IsNotNull`. */
  function IsNotNull<T>(value: Option<T>, member: string): (r: Result<T, Error>)
    ensures r.Success? <==> value.Some?
    ensures r.Success? ==> r.value == value.value
    ensures r.Failure? ==> r.error == Null(member)
  {
    if value.None? then Failure(Null(member)) else Success(value.value)
  }

  /** `Ensure.AreEqual(() => expected, actual)`. */
  function AreEqual(expected: int, actual: int, member: string): (r: Result<int, Error>)
    ensures r.Success? <==> expected == actual
    ensures r.Success? ==> r.value == actual
    ensures r.Failure? ==> r.error == NotEqual(member)
  {
    if expected == actual then Success(actual) else Failure(NotEqual(member))
  }
}
