/** The older copy of the position record's validation (it has no `Update`). */
module LegacyPosition {
  import opened Wrappers
  import opened Ensure
  import PositionRecord

  /** `Position.Validate` of the older copy: a name and a start date are
      required, the end date is not looked at, and on success no field changes. */
  method Validate(p: PositionRecord.Position) returns (r: Result<PositionRecord.Position, Error>)
    ensures r.Success? <==> p.name.Some? && p.started.Some?
    ensures r.Success? ==> r.value == p
    ensures p.name.None? ==> r == Failure(Null("Name"))
    ensures p.name.Some? && p.started.None? ==> r == Failure(Null("Started"))
  {
    var name :- IsNotNull(p.name, "Name");
    var started :- IsNotNull(p.started, "Started");
    return Success(p.(name := Some(name), started := Some(started)));
  }
}
