/** A leadership position held by a member, its validation and its
    null-coalescing update. */
module PositionRecord {
  import opened Wrappers
  import opened Ensure
  import opened SystemTypes
  import Enums

  datatype Position = Position(name: Option<Enums.Position>, started: Option<Date>, ended: Option<Date>)

  /** The first rule `Validate` finds broken: a name, then a start date. The
      end date is never looked at. */
  function Violation(p: Position): (e: Option<Error>)
    ensures e.None? <==> p.name.Some? && p.started.Some?
    ensures p.name.None? ==> e == Some(Null("Name"))
    ensures p.name.Some? && p.started.None? ==> e == Some(Null("Started"))
  {
    if p.name.None? then Some(Null("Name"))
    else if p.started.None? then Some(Null("Started"))
    else None
  }

  /** What `Validate` returns: the position itself, or the failure. */
  function Outcome(p: Position): Result<Position, Error>
  {
    if Violation(p).Some? then Failure(Violation(p).value) else Success(p)
  }

  /** `Position.Validate`: check name and start date and write them back. */
  method Validate(p: Position) returns (r: Result<Position, Error>)
    ensures r == Outcome(p)
  {
    var name :- IsNotNull(p.name, "Name");
    var started :- IsNotNull(p.started, "Started");
    return Success(p.(name := Some(name), started := Some(started)));
  }

  /** The end date does not take part in validation. */
  lemma EndedIgnored(p: Position, anyEnded: Option<Date>)
    ensures Violation(p.(ended := anyEnded)) == Violation(p)
  {
  }

  /** The fields after `current.Update(position)`: each takes the argument's
      value when that is set and keeps its own otherwise. */
  function Merge(current: Position, position: Position): (m: Position)
    ensures position.name.Some? ==> m.name == position.name
    ensures position.name.None? ==> m.name == current.name
    ensures position.started.Some? ==> m.started == position.started
    ensures position.started.None? ==> m.started == current.started
    ensures position.ended.Some? ==> m.ended == position.ended
    ensures position.ended.None? ==> m.ended == current.ended
  {
    Position(Coalesce(position.name, current.name),
             Coalesce(position.started, current.started),
             Coalesce(position.ended, current.ended))
  }

  /** `Position.Update`: assign the three fields, then validate. The fields
      are overwritten even when the validation that follows throws, so the
      object's new state `after` is returned beside the outcome. */
  method Update(current: Position, position: Position) returns (after: Position, r: Result<Position, Error>)
    ensures after == Merge(current, position)
    ensures r == Outcome(after)
  {
    after := current;
    after := after.(name := Coalesce(position.name, after.name));
    after := after.(started := Coalesce(position.started, after.started));
    after := after.(ended := Coalesce(position.ended, after.ended));
    r := Validate(after);
  }

  /** An argument with nothing set changes nothing. */
  lemma MergeNothing(current: Position)
    ensures Merge(current, Position(None, None, None)) == current
  {
  }

  /** Applying the same argument twice is applying it once. */
  lemma MergeIdempotent(current: Position, position: Position)
    ensures Merge(Merge(current, position), position) == Merge(current, position)
  {
  }

  /** An update fails exactly when the merged fields lack a name or a start
      date: a valid position stays valid under any argument, and an argument
      with both set always passes. */
  lemma UpdateOutcome(current: Position, position: Position)
    ensures Outcome(Merge(current, position)).Success? <==>
              (position.name.Some? || current.name.Some?) && (position.started.Some? || current.started.Some?)
    ensures Violation(current).None? ==> Outcome(Merge(current, position)).Success?
  {
  }
}
