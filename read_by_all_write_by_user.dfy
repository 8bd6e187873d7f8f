/** The profile tier: the fields a member may write and everybody may read,
    with the name rule and the country/region cross-check. */
module ReadByAllWriteByUserTier {
  import opened Wrappers
  import opened Text
  import opened Ensure
  import opened SystemTypes
  import Enums
  import opened CountryData
  import UserBaseTier

  datatype ReadByAllWriteByUser = ReadByAllWriteByUser(
    base: UserBaseTier.UserBase,
    firstName: Option<string>,
    lastName: Option<string>,
    facebookName: Option<string>,
    city: Option<string>,
    region: Option<string>,
    postalCode: Option<int>,
    country: Option<string>,
    occupation: Option<string>,
    level: Option<Enums.Level>,
    photoUrl: Option<string>,
    biography: Option<string>,
    startedSurfing: Option<Date>,
    boards: seq<string>,
    surfSpots: seq<string>)

  /** A freshly constructed profile: every nullable field unset, no boards and no surf spots. */
  function New(freshId: Guid): (p: ReadByAllWriteByUser)
    ensures p.base == UserBaseTier.New(freshId)
    ensures p.firstName.None? && p.lastName.None? && p.facebookName.None? && p.city.None?
    ensures p.region.None? && p.postalCode.None? && p.country.None? && p.occupation.None?
    ensures p.level.None? && p.photoUrl.None? && p.biography.None? && p.startedSurfing.None?
    ensures p.boards == [] && p.surfSpots == []
  {
    ReadByAllWriteByUser(UserBaseTier.New(freshId), None, None, None, None, None, None, None,
                         None, None, None, None, None, [], [])
  }

  /** The country/region cross-check on its own, for a profile whose region is set. */
  function RegionViolation(table: CountryTable, country: Option<string>, region: string): Option<Error>
  {
    if country.None? then Some(Null("Country"))
    else
      var countries := CountriesNamed(table, country.value);
      if |countries| != 1 then Some(NotSingle("CountryName"))
      else if CountRegionsNamed(countries[0].regions, region) != 1 then Some(NotEqual("Regions"))
      else None
  }

  /** The first rule `Validate` finds broken, in the order it checks them:
      the email, a non-blank first name, and, when a region is given, a
      country naming exactly one table entry with exactly one region of that name. */
  function Violation(table: CountryTable, p: ReadByAllWriteByUser): Option<Error>
  {
    if UserBaseTier.Violation(p.base).Some? then UserBaseTier.Violation(p.base)
    else if p.firstName.None? || IsBlank(p.firstName.value) then Some(NullOrWhitespace("FirstName"))
    else if p.region.None? then None
    else RegionViolation(table, p.country, p.region.value)
  }

  /** What `Validate` returns: the profile itself, or the failure. */
  function Outcome(table: CountryTable, p: ReadByAllWriteByUser): Result<ReadByAllWriteByUser, Error>
  {
    if Violation(table, p).Some? then Failure(Violation(table, p).value) else Success(p)
  }

  /** `Enumerable.Single` over the countries of the given name. */
  function SingleCountry(table: CountryTable, name: string): (r: Result<CountryInfo, Error>)
    ensures r.Success? <==> |CountriesNamed(table, name)| == 1
    ensures r.Success? ==> r.value == CountriesNamed(table, name)[0]
    ensures r.Failure? ==> r.error == NotSingle("CountryName")
  {
    var countries := CountriesNamed(table, name);
    if |countries| == 1 then Success(countries[0]) else Failure(NotSingle("CountryName"))
  }

  /** `ReadByAllWriteByUser.Validate`: the base check first, then the first
      name, then the region against the country table. */
  method Validate(table: CountryTable, p: ReadByAllWriteByUser) returns (r: Result<ReadByAllWriteByUser, Error>)
    ensures r == Outcome(table, p)
  {
    var b :- UserBaseTier.Validate(p.base);
    var firstName :- IsNotNullOrWhitespace(p.firstName, "FirstName");
    if p.region.Some? {
      var _ :- IsNotNull(p.country, "Country");
      var country :- SingleCountry(table, p.country.value);
      var _ :- AreEqual(1, CountRegionsNamed(country.regions, p.region.value), "Regions");
    }
    return Success(p.(base := b, firstName := Some(firstName)));
  }

  /** A blank or missing email fails first, whatever the other fields hold. */
  lemma BlankEmailFailsFirst(table: CountryTable, p: ReadByAllWriteByUser)
    requires p.base.email.None? || IsBlank(p.base.email.value)
    ensures Outcome(table, p) == Failure(NullOrWhitespace("Email"))
  {
  }

  /** With a good email, a missing or blank first name fails. */
  lemma FirstNameRequired(table: CountryTable, p: ReadByAllWriteByUser)
    requires UserBaseTier.Violation(p.base).None?
    requires p.firstName.None? || IsBlank(p.firstName.value)
    ensures Outcome(table, p) == Failure(NullOrWhitespace("FirstName"))
  {
  }

  /** Without a region the country is not looked at: changing it changes nothing. */
  lemma NoRegionLeavesCountryFree(table: CountryTable, p: ReadByAllWriteByUser, anyCountry: Option<string>)
    requires p.region.None?
    ensures Outcome(table, p).Success? <==> Outcome(table, p.(country := anyCountry)).Success?
    ensures Outcome(table, p).Success? <==>
              UserBaseTier.Violation(p.base).None? && p.firstName.Some? && !IsBlank(p.firstName.value)
  {
  }

  /** The full meaning of the region rule for a profile whose email and first
      name pass: it succeeds exactly when the country is given, the table has
      exactly one country of that name, and that country has exactly one
      region of the given name. */
  lemma RegionRule(table: CountryTable, p: ReadByAllWriteByUser)
    requires UserBaseTier.Violation(p.base).None?
    requires p.firstName.Some? && !IsBlank(p.firstName.value)
    requires p.region.Some?
    ensures p.country.None? ==> Outcome(table, p) == Failure(Null("Country"))
    ensures Outcome(table, p).Success? <==>
              p.country.Some? &&
              |CountriesNamed(table, p.country.value)| == 1 &&
              CountRegionsNamed(CountriesNamed(table, p.country.value)[0].regions, p.region.value) == 1
  {
  }

  /** A region that no region of the country carries fails, as a region
      unknown to the country should. */
  lemma UnknownRegionFails(table: CountryTable, p: ReadByAllWriteByUser, c: CountryInfo)
    requires UserBaseTier.Violation(p.base).None?
    requires p.firstName.Some? && !IsBlank(p.firstName.value)
    requires p.region.Some? && p.country == Some(c.countryName)
    requires CountriesNamed(table, c.countryName) == [c]
    requires forall i :: 0 <= i < |c.regions| ==> c.regions[i].name != p.region.value
    ensures Outcome(table, p) == Failure(NotEqual("Regions"))
  {
  }

  /** Validation changes no field, so it is idempotent. */
  lemma ValidateIdempotent(table: CountryTable, p: ReadByAllWriteByUser)
    requires Outcome(table, p).Success?
    ensures Outcome(table, p).value == p
    ensures Outcome(table, Outcome(table, p).value) == Outcome(table, p)
  {
  }

  /** With a table in which the United States has the region California,
      "Atlantis" is refused and "California" accepted. */
  lemma RegionExample()
    ensures var table := [CountryInfo("United States", [RegionInfo("California")])];
            var p := New(Guid(1)).(base := UserBaseTier.UserBase(Guid(1), Some("jane@example.org")),
                                   firstName := Some("Jane"), country := Some("United States"));
            Outcome(table, p.(region := Some("Atlantis"))) == Failure(NotEqual("Regions")) &&
            Outcome(table, p.(region := Some("California"))).Success?
  {
    var table := [CountryInfo("United States", [RegionInfo("California")])];
    assert !IsWhiteSpace("jane@example.org"[0]);
    assert !IsWhiteSpace("Jane"[0]);
    assert CountriesNamed(table, "United States") == [table[0]];
  }
}
