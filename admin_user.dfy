/** The full member record worked on by administrators: the read-by-all
    record plus membership status, membership dates and club bookkeeping. */
module AdminUserTier {
  import opened Wrappers
  import opened Ensure
  import opened SystemTypes
  import opened Enums
  import opened CountryData
  import UserBaseTier
  import ReadByAllWriteByUserTier
  import ReadByAllUserTier

  datatype AdminUser = AdminUser(
    base: ReadByAllUserTier.ReadByAllUser,
    admin: bool,
    payPalName: Option<string>,
    phoneNumber: Option<string>,
    streetAddress: Option<string>,
    birthdate: Option<Date>,
    status: MemberStatus,
    joinedDate: Option<Date>,
    renewalDate: Option<Date>,
    terminatedDate: Option<Date>,
    enteredInFacebookChapter: EnteredStatus,
    enteredInFacebookWki: EnteredStatus,
    needsNewMemberBag: bool,
    wonSurfboard: bool,
    dateSurfboardWon: Option<Date>,
    socialMediaOptOut: bool,
    timeStamp: Option<int>)
  {
    function Id(): Guid { base.base.base.id }
  }

  /** A freshly constructed record: pending, not an admin, entered in the
      chapter group but not in the international one, every flag false and
      every nullable field unset. */
  function New(freshId: Guid): (a: AdminUser)
    ensures a.base == ReadByAllUserTier.New(freshId)
    ensures !a.admin && a.status == Pending
    ensures a.enteredInFacebookChapter == Entered && a.enteredInFacebookWki == NotEntered
    ensures !a.needsNewMemberBag && !a.wonSurfboard && !a.socialMediaOptOut
    ensures a.payPalName.None? && a.phoneNumber.None? && a.streetAddress.None? && a.birthdate.None?
    ensures a.joinedDate.None? && a.renewalDate.None? && a.terminatedDate.None?
    ensures a.dateSurfboardWon.None? && a.timeStamp.None?
  {
    AdminUser(ReadByAllUserTier.New(freshId), false, None, None, None, None, Pending, None, None, None,
              Entered, NotEntered, false, false, None, false, None)
  }

  // ---------------------------------------------------------------- Validate

  /** The status-keyed date requirement: the first date the status needs and the record lacks. */
  function DateViolation(a: AdminUser): Option<Error>
  {
    match a.status
    case Pending => None
    case ActivePaying =>
      if a.joinedDate.None? then Some(Null("JoinedDate"))
      else if a.renewalDate.None? then Some(Null("RenewalDate"))
      else None
    case ActiveNonPaying | LifetimeMember | Terminated =>
      if a.joinedDate.None? then Some(Null("JoinedDate")) else None
  }

  /** The dates `Validate` writes back for each status. A terminated member's
      terminated date is overwritten with the joined date. */
  function NormaliseDates(a: AdminUser): AdminUser
  {
    match a.status
    case Pending => a
    case ActivePaying => a.(terminatedDate := None)
    case ActiveNonPaying | LifetimeMember => a.(renewalDate := None, terminatedDate := None)
    case Terminated => a.(renewalDate := None, terminatedDate := a.joinedDate)
  }

  /** The first rule `Validate` finds broken: the read-by-all rules, then the
      status-keyed dates, then the date of a won surfboard. */
  function Violation(table: CountryTable, a: AdminUser): Option<Error>
  {
    var member := ReadByAllUserTier.Violation(table, a.base);
    if member.Some? then member
    else if DateViolation(a).Some? then DateViolation(a)
    else if a.wonSurfboard && a.dateSurfboardWon.None? then Some(Null("DateSurfboardWon"))
    else None
  }

  /** What `Validate` returns: the record with its dates normalised, or the failure. */
  function Outcome(table: CountryTable, a: AdminUser): Result<AdminUser, Error>
  {
    if Violation(table, a).Some? then Failure(Violation(table, a).value) else Success(NormaliseDates(a))
  }

  /** `AdminUser.Validate`: the read-by-all checks, then the date rule of the
      current status, writing the dates back, then the surfboard rule. */
  method Validate(table: CountryTable, a: AdminUser) returns (r: Result<AdminUser, Error>)
    ensures r == Outcome(table, a)
  {
    var member :- ReadByAllUserTier.Validate(table, a.base);
    var user := a.(base := member);
    match user.status {
      case Pending =>
      case ActivePaying =>
        var joined :- IsNotNull(user.joinedDate, "JoinedDate");
        user := user.(joinedDate := Some(joined));
        var renewal :- IsNotNull(user.renewalDate, "RenewalDate");
        user := user.(renewalDate := Some(renewal));
        user := user.(terminatedDate := None);
      case ActiveNonPaying | LifetimeMember =>
        var joined :- IsNotNull(user.joinedDate, "JoinedDate");
        user := user.(joinedDate := Some(joined));
        user := user.(renewalDate := None);
        user := user.(terminatedDate := None);
      case Terminated =>
        var joined :- IsNotNull(user.joinedDate, "JoinedDate");
        user := user.(joinedDate := Some(joined));
        user := user.(renewalDate := None);
        // The guard re-reads JoinedDate, which was checked just above, so it cannot throw here.
        var copied := IsNotNull(user.joinedDate, "JoinedDate").Extract();
        user := user.(terminatedDate := Some(copied));
    }
    if user.wonSurfboard {
      var _ :- IsNotNull(user.dateSurfboardWon, "DateSurfboardWon");
    }
    return Success(user);
  }

  /** The read-by-all rules come first: a record failing them fails with
      their error whatever its status and dates. */
  lemma MemberChecksFirst(table: CountryTable, a: AdminUser)
    requires ReadByAllUserTier.Violation(table, a.base).Some?
    ensures Outcome(table, a) == Failure(ReadByAllUserTier.Violation(table, a.base).value)
  {
  }

  /** For a record passing the read-by-all rules and the surfboard rule,
      when each status makes validation fail. */
  lemma StatusRequirements(table: CountryTable, a: AdminUser)
    requires ReadByAllUserTier.Violation(table, a.base).None?
    requires !a.wonSurfboard || a.dateSurfboardWon.Some?
    ensures a.status == Pending ==> Outcome(table, a).Success?
    ensures a.status == ActivePaying ==>
              (Outcome(table, a).Success? <==> a.joinedDate.Some? && a.renewalDate.Some?)
    ensures a.status in {ActiveNonPaying, LifetimeMember, Terminated} ==>
              (Outcome(table, a).Success? <==> a.joinedDate.Some?)
  {
  }

  /** On success, the dates are exactly those of the status table and no
      other field has changed. */
  lemma StatusDateTable(table: CountryTable, a: AdminUser)
    requires Outcome(table, a).Success?
    ensures var v := Outcome(table, a).value;
      && v.(joinedDate := a.joinedDate, renewalDate := a.renewalDate, terminatedDate := a.terminatedDate) == a
      && v.joinedDate == a.joinedDate
      && (a.status == Pending ==> v.renewalDate == a.renewalDate && v.terminatedDate == a.terminatedDate)
      && (a.status == ActivePaying ==> v.joinedDate.Some? && v.renewalDate == a.renewalDate && v.renewalDate.Some? && v.terminatedDate.None?)
      && (a.status in {ActiveNonPaying, LifetimeMember} ==> v.joinedDate.Some? && v.renewalDate.None? && v.terminatedDate.None?)
      && (a.status == Terminated ==> v.joinedDate.Some? && v.renewalDate.None? && v.terminatedDate == a.joinedDate)
  {
  }

  /** A member who has won a surfboard needs the date it was won; one who
      has not is not asked for it, and the date is kept as it was. */
  lemma SurfboardRule(table: CountryTable, a: AdminUser)
    requires ReadByAllUserTier.Violation(table, a.base).None? && DateViolation(a).None?
    ensures a.wonSurfboard && a.dateSurfboardWon.None? ==> Outcome(table, a) == Failure(Null("DateSurfboardWon"))
    ensures !a.wonSurfboard ==> Outcome(table, a).Success? && Outcome(table, a).value.dateSurfboardWon == a.dateSurfboardWon
  {
  }

  /** Validating the output of a successful validation gives the same record. */
  lemma ValidateIdempotent(table: CountryTable, a: AdminUser)
    requires Outcome(table, a).Success?
    ensures Outcome(table, Outcome(table, a).value) == Outcome(table, a)
  {
  }

  /** The date rule as the status documentation states it. */
  predicate DocumentedDateRule(a: AdminUser)
  {
    match a.status
    case Pending => a.joinedDate.None? && a.renewalDate.None? && a.terminatedDate.None?
    case ActivePaying => a.joinedDate.Some? && a.renewalDate.Some? && a.terminatedDate.None?
    case ActiveNonPaying | LifetimeMember => a.joinedDate.Some? && a.renewalDate.None? && a.terminatedDate.None?
    case Terminated => a.joinedDate.Some? && a.renewalDate.None? && a.terminatedDate.Some?
  }

  /** Except for pending members, a validated record has the dates the
      documentation prescribes. */
  lemma ValidatedMeetsDocumentedRule(table: CountryTable, a: AdminUser)
    requires Outcome(table, a).Success? && a.status != Pending
    ensures DocumentedDateRule(Outcome(table, a).value)
  {
  }

  /** Where the code departs from the documentation: a pending member keeps
      any dates it has, and a terminated member passes without a terminated
      date, its terminated date being replaced by the joined date. */
  lemma DocumentedRuleDepartures(table: CountryTable, a: AdminUser, d: Date, e: Date)
    requires ReadByAllUserTier.Violation(table, a.base).None? && !a.wonSurfboard && d != e
    ensures var pending := a.(status := Pending, joinedDate := Some(d));
            Outcome(table, pending) == Success(pending) && !DocumentedDateRule(pending)
    ensures var terminated := a.(status := Terminated, joinedDate := Some(d), terminatedDate := Some(e));
            Outcome(table, terminated).Success? && Outcome(table, terminated).value.terminatedDate == Some(d)
    ensures Outcome(table, a.(status := Terminated, joinedDate := Some(d), terminatedDate := None)).Success?
  {
  }

  // ------------------------------------------------------------ Clone, Replace

  /** `Clone`: a copy of every field except the store's timestamp, which is left unset. */
  function Clone(a: AdminUser): (c: AdminUser)
    ensures c.timeStamp.None?
    ensures c.(timeStamp := a.timeStamp) == a
  {
    a.(timeStamp := None)
  }

  /** The record `Replace` builds before validating it: a clone of `oldUser`
      (so its id) in which every nullable field set in `updatedUser` is taken
      from it and every unset one kept, while the flags, the status, the
      email, the chapter and the lists are taken from `updatedUser` as they are. */
  function Merged(oldUser: AdminUser, updatedUser: AdminUser): (m: AdminUser)
    ensures m.Id() == oldUser.Id() && m.timeStamp.None?
    ensures m.admin == updatedUser.admin && m.status == updatedUser.status
    ensures m.base.Email() == updatedUser.base.Email() && m.base.chapter == updatedUser.base.chapter
    ensures m.base.positions == updatedUser.base.positions
    ensures m.base.base.boards == updatedUser.base.base.boards && m.base.base.surfSpots == updatedUser.base.base.surfSpots
    ensures m.enteredInFacebookChapter == updatedUser.enteredInFacebookChapter
    ensures m.enteredInFacebookWki == updatedUser.enteredInFacebookWki
    ensures m.needsNewMemberBag == updatedUser.needsNewMemberBag && m.wonSurfboard == updatedUser.wonSurfboard
    ensures m.socialMediaOptOut == updatedUser.socialMediaOptOut
    ensures m.base.base.firstName == Coalesce(updatedUser.base.base.firstName, oldUser.base.base.firstName)
    ensures m.base.base.lastName == Coalesce(updatedUser.base.base.lastName, oldUser.base.base.lastName)
    ensures m.base.base.facebookName == Coalesce(updatedUser.base.base.facebookName, oldUser.base.base.facebookName)
    ensures m.base.base.city == Coalesce(updatedUser.base.base.city, oldUser.base.base.city)
    ensures m.base.base.region == Coalesce(updatedUser.base.base.region, oldUser.base.base.region)
    ensures m.base.base.postalCode == Coalesce(updatedUser.base.base.postalCode, oldUser.base.base.postalCode)
    ensures m.base.base.country == Coalesce(updatedUser.base.base.country, oldUser.base.base.country)
    ensures m.base.base.occupation == Coalesce(updatedUser.base.base.occupation, oldUser.base.base.occupation)
    ensures m.base.base.level == Coalesce(updatedUser.base.base.level, oldUser.base.base.level)
    ensures m.base.base.photoUrl == Coalesce(updatedUser.base.base.photoUrl, oldUser.base.base.photoUrl)
    ensures m.base.base.biography == Coalesce(updatedUser.base.base.biography, oldUser.base.base.biography)
    ensures m.base.base.startedSurfing == Coalesce(updatedUser.base.base.startedSurfing, oldUser.base.base.startedSurfing)
    ensures m.payPalName == Coalesce(updatedUser.payPalName, oldUser.payPalName)
    ensures m.phoneNumber == Coalesce(updatedUser.phoneNumber, oldUser.phoneNumber)
    ensures m.streetAddress == Coalesce(updatedUser.streetAddress, oldUser.streetAddress)
    ensures m.birthdate == Coalesce(updatedUser.birthdate, oldUser.birthdate)
    ensures m.joinedDate == Coalesce(updatedUser.joinedDate, oldUser.joinedDate)
    ensures m.renewalDate == Coalesce(updatedUser.renewalDate, oldUser.renewalDate)
    ensures m.terminatedDate == Coalesce(updatedUser.terminatedDate, oldUser.terminatedDate)
    ensures m.dateSurfboardWon == Coalesce(updatedUser.dateSurfboardWon, oldUser.dateSurfboardWon)
  {
    var o := oldUser;
    var u := updatedUser;
    AdminUser(
      ReadByAllUserTier.ReadByAllUser(
        ReadByAllWriteByUserTier.ReadByAllWriteByUser(
          UserBaseTier.UserBase(o.Id(), u.base.Email()),
          Coalesce(u.base.base.firstName, o.base.base.firstName),
          Coalesce(u.base.base.lastName, o.base.base.lastName),
          Coalesce(u.base.base.facebookName, o.base.base.facebookName),
          Coalesce(u.base.base.city, o.base.base.city),
          Coalesce(u.base.base.region, o.base.base.region),
          Coalesce(u.base.base.postalCode, o.base.base.postalCode),
          Coalesce(u.base.base.country, o.base.base.country),
          Coalesce(u.base.base.occupation, o.base.base.occupation),
          Coalesce(u.base.base.level, o.base.base.level),
          Coalesce(u.base.base.photoUrl, o.base.base.photoUrl),
          Coalesce(u.base.base.biography, o.base.base.biography),
          Coalesce(u.base.base.startedSurfing, o.base.base.startedSurfing),
          u.base.base.boards,
          u.base.base.surfSpots),
        u.base.positions,
        u.base.chapter),
      u.admin,
      Coalesce(u.payPalName, o.payPalName),
      Coalesce(u.phoneNumber, o.phoneNumber),
      Coalesce(u.streetAddress, o.streetAddress),
      Coalesce(u.birthdate, o.birthdate),
      u.status,
      Coalesce(u.joinedDate, o.joinedDate),
      Coalesce(u.renewalDate, o.renewalDate),
      Coalesce(u.terminatedDate, o.terminatedDate),
      u.enteredInFacebookChapter,
      u.enteredInFacebookWki,
      u.needsNewMemberBag,
      u.wonSurfboard,
      Coalesce(u.dateSurfboardWon, o.dateSurfboardWon),
      u.socialMediaOptOut,
      None)
  }

  /** `AdminUser.Replace`: clone the old record, overwrite its fields from
      the updated one field by field, then validate the result. */
  method Replace(table: CountryTable, oldUser: AdminUser, updatedUser: AdminUser) returns (r: Result<AdminUser, Error>)
    ensures r == Outcome(table, Merged(oldUser, updatedUser))
  {
    var replaced := Clone(oldUser);
    var u := updatedUser;
    var profile := replaced.base.base;
    replaced := replaced.(admin := u.admin);
    profile := profile.(base := profile.base.(email := u.base.Email()));
    profile := profile.(firstName := Coalesce(u.base.base.firstName, oldUser.base.base.firstName));
    profile := profile.(lastName := Coalesce(u.base.base.lastName, oldUser.base.base.lastName));
    profile := profile.(facebookName := Coalesce(u.base.base.facebookName, oldUser.base.base.facebookName));
    replaced := replaced.(payPalName := Coalesce(u.payPalName, oldUser.payPalName));
    replaced := replaced.(phoneNumber := Coalesce(u.phoneNumber, oldUser.phoneNumber));
    replaced := replaced.(streetAddress := Coalesce(u.streetAddress, oldUser.streetAddress));
    profile := profile.(city := Coalesce(u.base.base.city, oldUser.base.base.city));
    profile := profile.(region := Coalesce(u.base.base.region, oldUser.base.base.region));
    profile := profile.(country := Coalesce(u.base.base.country, oldUser.base.base.country));
    profile := profile.(occupation := Coalesce(u.base.base.occupation, oldUser.base.base.occupation));
    var chapter := u.base.chapter;
    replaced := replaced.(birthdate := Coalesce(u.birthdate, oldUser.birthdate));
    profile := profile.(level := Coalesce(u.base.base.level, oldUser.base.base.level));
    profile := profile.(startedSurfing := Coalesce(u.base.base.startedSurfing, oldUser.base.base.startedSurfing));
    profile := profile.(boards := u.base.base.boards);
    profile := profile.(surfSpots := u.base.base.surfSpots);
    profile := profile.(photoUrl := Coalesce(u.base.base.photoUrl, oldUser.base.base.photoUrl));
    profile := profile.(biography := Coalesce(u.base.base.biography, oldUser.base.base.biography));
    replaced := replaced.(status := u.status);
    replaced := replaced.(joinedDate := Coalesce(u.joinedDate, oldUser.joinedDate));
    replaced := replaced.(renewalDate := Coalesce(u.renewalDate, oldUser.renewalDate));
    replaced := replaced.(terminatedDate := Coalesce(u.terminatedDate, oldUser.terminatedDate));
    var positions := u.base.positions;
    replaced := replaced.(enteredInFacebookChapter := u.enteredInFacebookChapter);
    replaced := replaced.(enteredInFacebookWki := u.enteredInFacebookWki);
    replaced := replaced.(needsNewMemberBag := u.needsNewMemberBag);
    replaced := replaced.(wonSurfboard := u.wonSurfboard);
    replaced := replaced.(dateSurfboardWon := Coalesce(u.dateSurfboardWon, oldUser.dateSurfboardWon));
    profile := profile.(postalCode := Coalesce(u.base.base.postalCode, oldUser.base.base.postalCode));
    replaced := replaced.(socialMediaOptOut := u.socialMediaOptOut);
    replaced := replaced.(base := ReadByAllUserTier.ReadByAllUser(profile, positions, chapter));
    r := Validate(table, replaced);
  }

  /** What `Replace` returns passes validation again unchanged, and keeps the
      old record's id. */
  lemma ReplacedIsValid(table: CountryTable, oldUser: AdminUser, updatedUser: AdminUser)
    requires Outcome(table, Merged(oldUser, updatedUser)).Success?
    ensures var v := Outcome(table, Merged(oldUser, updatedUser)).value;
            v.Id() == oldUser.Id() && Outcome(table, v) == Success(v)
  {
    ValidateIdempotent(table, Merged(oldUser, updatedUser));
  }

  /** Replacing a record by itself only drops the timestamp. */
  lemma MergeWithSelf(a: AdminUser)
    ensures Merged(a, a) == Clone(a)
  {
  }

  // -------------------------------------------------------------------- Age

  /** `CalculateAge` with `DateTime.Today` passed in as `today`: the number
      of whole years `r` for which going back `r` years from today does not
      pass the birth date while going back `r + 1` years does. */
  function CalculateAge(birthdate: Option<Date>, today: Date): (age: Option<int>)
    ensures age.None? <==> birthdate.None?
    ensures age.Some? ==>
              !IsLater(birthdate.value, AddYears(today, -age.value)) &&
              IsLater(birthdate.value, AddYears(today, -(age.value + 1)))
  {
    if birthdate.None? then None
    else
      var age := today.year - birthdate.value.year;
      if IsLater(birthdate.value, AddYears(today, -age)) then Some(age - 1) else Some(age)
  }

  /** The `Age` property of a record on a given day: unset exactly without a
      birthdate, and otherwise the whole years since the birthdate. */
  function Age(a: AdminUser, today: Date): (age: Option<int>)
    ensures age.None? <==> a.birthdate.None?
    ensures age.Some? ==>
              !IsLater(a.birthdate.value, AddYears(today, -age.value)) &&
              IsLater(a.birthdate.value, AddYears(today, -(age.value + 1)))
  {
    CalculateAge(a.birthdate, today)
  }

  /** Those two properties pin the age down: no other count of years has them. */
  lemma AgeIsUnique(birthdate: Date, today: Date, n: int)
    requires !IsLater(birthdate, AddYears(today, -n)) && IsLater(birthdate, AddYears(today, -(n + 1)))
    ensures CalculateAge(Some(birthdate), today) == Some(n)
  {
  }

  /** Someone born on 29 February 2000 is 24 on 28 February 2025 and 25 on 1 March 2025. */
  lemma LeapDayBirthday()
    ensures CalculateAge(Some(Date(2000, 2, 29)), Date(2025, 2, 28)) == Some(24)
    ensures CalculateAge(Some(Date(2000, 2, 29)), Date(2025, 3, 1)) == Some(25)
  {
  }
}
