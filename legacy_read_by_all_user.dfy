/** The older copy of the read-by-all tier, in which the chapter is nullable
    and required. */
module LegacyReadByAllUser {
  import opened Wrappers
  import opened Ensure
  import Text
  import opened SystemTypes
  import opened Enums
  import opened CountryData
  import ReadByAllWriteByUserTier
  import PositionRecord
  import ReadByAllUserTier
  import LegacyPosition

  datatype ReadByAllUser = ReadByAllUser(
    base: ReadByAllWriteByUserTier.ReadByAllWriteByUser,
    positions: seq<PositionRecord.Position>,
    chapter: Option<Chapter>)

  /** A freshly constructed record: a fresh profile, no positions, no chapter. */
  function New(freshId: Guid): (u: ReadByAllUser)
    ensures u.base == ReadByAllWriteByUserTier.New(freshId)
    ensures u.positions == [] && u.chapter.None?
  {
    ReadByAllUser(ReadByAllWriteByUserTier.New(freshId), [], None)
  }

  /** The first rule `Validate` finds broken: the profile rules, each
      position in order, and last the chapter. */
  function Violation(table: CountryTable, u: ReadByAllUser): Option<Error>
  {
    var profile := ReadByAllWriteByUserTier.Violation(table, u.base);
    if profile.Some? then profile
    else if ReadByAllUserTier.PositionsViolation(u.positions).Some? then ReadByAllUserTier.PositionsViolation(u.positions)
    else if u.chapter.None? then Some(Null("Chapter"))
    else None
  }

  /** What `Validate` returns: the record itself, or the failure. */
  function Outcome(table: CountryTable, u: ReadByAllUser): Result<ReadByAllUser, Error>
  {
    if Violation(table, u).Some? then Failure(Violation(table, u).value) else Success(u)
  }

  /** `ReadByAllUser.Validate` of the older copy: the profile, every position
      in list order, then the chapter, each written back. */
  method Validate(table: CountryTable, u: ReadByAllUser) returns (r: Result<ReadByAllUser, Error>)
    ensures r == Outcome(table, u)
  {
    var b :- ReadByAllWriteByUserTier.Validate(table, u.base);
    var validated: seq<PositionRecord.Position> := [];
    var i := 0;
    while i < |u.positions|
      invariant 0 <= i <= |u.positions|
      invariant validated == u.positions[..i]
      invariant forall j :: 0 <= j < i ==> PositionRecord.Violation(u.positions[j]).None?
    {
      var p := LegacyPosition.Validate(u.positions[i]);
      if p.Failure? {
        return Failure(p.error);
      }
      validated := validated + [p.value];
      i := i + 1;
    }
    assert validated == u.positions;
    var chapter :- IsNotNull(u.chapter, "Chapter");
    return Success(u.(base := b, positions := validated, chapter := Some(chapter)));
  }

  /** A null chapter fails, but only once the profile and every position have passed. */
  lemma ChapterRequiredLast(table: CountryTable, u: ReadByAllUser)
    requires u.chapter.None?
    ensures (ReadByAllWriteByUserTier.Violation(table, u.base).None? &&
             ReadByAllUserTier.PositionsViolation(u.positions).None?) ==> Outcome(table, u) == Failure(Null("Chapter"))
    ensures Outcome(table, u).Failure?
  {
  }

  /** A fresh record fails; filling in a valid email and first name is not
      enough, because the chapter is still null. */
  lemma NewFails(table: CountryTable, freshId: Guid, email: string, firstName: string)
    requires !Text.IsBlank(email) && !Text.IsBlank(firstName)
    ensures Outcome(table, New(freshId)).Failure?
    ensures var created := New(freshId);
            var filled := created.(base := created.base.(base := created.base.base.(email := Some(email)),
                                                     firstName := Some(firstName)));
            Outcome(table, filled) == Failure(Null("Chapter"))
  {
  }

  /** The older tier agrees with the current one on every record whose chapter is set. */
  lemma AgreesWithCurrentWhenChapterSet(table: CountryTable, u: ReadByAllUser, c: Chapter)
    requires u.chapter == Some(c)
    ensures Violation(table, u) == ReadByAllUserTier.Violation(table, ReadByAllUserTier.ReadByAllUser(u.base, u.positions, c))
  {
  }
}
