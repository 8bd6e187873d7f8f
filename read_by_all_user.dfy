/** The tier every member can read: the profile plus the list of positions
    held and the chapter. */
module ReadByAllUserTier {
  import opened Wrappers
  import opened Ensure
  import opened SystemTypes
  import opened Enums
  import opened CountryData
  import ReadByAllWriteByUserTier
  import PositionRecord

  datatype ReadByAllUser = ReadByAllUser(
    base: ReadByAllWriteByUserTier.ReadByAllWriteByUser,
    positions: seq<PositionRecord.Position>,
    chapter: Chapter)
  {
    function Id(): Guid { base.base.id }
    function Email(): Option<string> { base.base.email }
  }

  /** A freshly constructed record: a fresh profile, no positions, the international chapter. */
  function New(freshId: Guid): (u: ReadByAllUser)
    ensures u.base == ReadByAllWriteByUserTier.New(freshId)
    ensures u.positions == [] && u.chapter == WahineKaiInternational
  {
    ReadByAllUser(ReadByAllWriteByUserTier.New(freshId), [], WahineKaiInternational)
  }

  /** The failure of the first position, in list order, that does not validate. */
  function PositionsViolation(ps: seq<PositionRecord.Position>): (e: Option<Error>)
    ensures e.None? <==> forall i :: 0 <= i < |ps| ==> PositionRecord.Violation(ps[i]).None?
    ensures e.Some? ==> exists k :: 0 <= k < |ps| && PositionRecord.Violation(ps[k]) == e &&
                                    forall j :: 0 <= j < k ==> PositionRecord.Violation(ps[j]).None?
  {
    if ps == [] then None
    else if PositionRecord.Violation(ps[0]).Some? then PositionRecord.Violation(ps[0])
    else
      var e := PositionsViolation(ps[1..]);
      assert forall j :: 1 <= j < |ps| ==> ps[j] == ps[1..][j - 1];
      e
  }

  /** The first rule `Validate` finds broken: the profile rules, then each
      position in order. The chapter is not checked. */
  function Violation(table: CountryTable, u: ReadByAllUser): Option<Error>
  {
    var profile := ReadByAllWriteByUserTier.Violation(table, u.base);
    if profile.Some? then profile else PositionsViolation(u.positions)
  }

  /** What `Validate` returns: the record itself, or the failure. */
  function Outcome(table: CountryTable, u: ReadByAllUser): Result<ReadByAllUser, Error>
  {
    if Violation(table, u).Some? then Failure(Violation(table, u).value) else Success(u)
  }

  /** `ReadByAllUser.Validate`: validate the profile, then every position in
      list order, writing each validated position back. */
  method Validate(table: CountryTable, u: ReadByAllUser) returns (r: Result<ReadByAllUser, Error>)
    ensures r == Outcome(table, u)
  {
    var b :- ReadByAllWriteByUserTier.Validate(table, u.base);
    var validated: seq<PositionRecord.Position> := [];
    var i := 0;
    while i < |u.positions|
      invariant 0 <= i <= |u.positions|
      invariant validated == u.positions[..i]
      invariant forall j :: 0 <= j < i ==> PositionRecord.Violation(u.positions[j]).None?
    {
      var p := PositionRecord.Validate(u.positions[i]);
      if p.Failure? {
        return Failure(p.error);
      }
      validated := validated + [p.value];
      i := i + 1;
    }
    assert validated == u.positions;
    return Success(u.(base := b, positions := validated));
  }

  /** Profile failures come before any position is looked at. */
  lemma ProfileChecksFirst(table: CountryTable, u: ReadByAllUser)
    requires ReadByAllWriteByUserTier.Violation(table, u.base).Some?
    ensures Outcome(table, u) == Failure(ReadByAllWriteByUserTier.Violation(table, u.base).value)
  {
  }

  /** One position that fails makes the record fail, with the failure of
      the first failing position; an empty list adds nothing. */
  lemma PositionsMustAllPass(table: CountryTable, u: ReadByAllUser)
    requires ReadByAllWriteByUserTier.Violation(table, u.base).None?
    ensures Outcome(table, u).Success? <==>
              forall i :: 0 <= i < |u.positions| ==> PositionRecord.Violation(u.positions[i]).None?
    ensures u.positions == [] ==> Outcome(table, u).Success?
  {
  }

  /** The chapter never affects the outcome. */
  lemma ChapterIgnored(table: CountryTable, u: ReadByAllUser, c: Chapter)
    ensures Violation(table, u.(chapter := c)) == Violation(table, u)
  {
  }

  /** Validation neither reorders nor drops positions, and is idempotent. */
  lemma ValidateIdempotent(table: CountryTable, u: ReadByAllUser)
    requires Outcome(table, u).Success?
    ensures Outcome(table, u).value.positions == u.positions
    ensures Outcome(table, Outcome(table, u).value) == Outcome(table, u)
  {
  }

  /** A fresh record fails on its unset email. */
  lemma NewFails(table: CountryTable, freshId: Guid)
    ensures Outcome(table, New(freshId)) == Failure(NullOrWhitespace("Email"))
  {
  }
}
