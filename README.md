# Wahine Kai member database: record validation, user repository and client cache

This project models the data-transfer core of the Wahine Kai member database in Dafny, and proves properties of the model.

The core has three parts:

- **The member record tiers and their `Validate` methods.** A record is built in tiers, each adding fields to the one below:
  - `UserBase`: id and email.
  - `ReadByAllWriteByUser`: the profile a member edits.
  - `ReadByAllUser`: positions held and chapter.
  - `AdminUser`: membership status, dates and club bookkeeping.
  - `Position`: a sub-record for a position held.

  Each tier's `Validate` runs the tier below first. It then either fails or writes normalised values back. The older copies of `UserBase`, `ReadByAllUser` and `Position` are modelled as modules of their own. The older `UserBase` and `Position` keep the same rules as the current ones; the older `ReadByAllUser` differs in that its chapter is nullable and required.
- **The user repository over the "Users" container.** This covers single-record lookups by email and by id, the read-everything loop, the free-text search, and create, replace and delete. Every write validates its argument before the store call.
- **The client factory.** It caches one database client per connection string.

## How the model is built

- **Records and `Validate`:**
  - Each record is a datatype. Its `base` field holds the tier it extends; C# nullable fields are `Option`s.
  - Each `Validate` is a method that returns the normalised record or the error. `Ensure.*` failing is modelled as returning a `Failure`.
  - Each current-tier method is proved equal to `Outcome`, a function built from `Violation`, which gives the first rule broken in source order. The properties of the rules are proved as lemmas about `Outcome`. The older `UserBase` and `Position` methods state their rule directly in their `ensures`.
- **The repository:**
  - The repository is a class over `container: seq<T>`, the stored documents in iteration order.
  - It is generic in the stored type `T`, as the source is. `Validate` is declared `new` (hidden, not overridden) in each tier, so `user.Validate()` inside the repository always runs the read-by-all rules, even when `T` is the administrator's record. The class's `upcast` field is the conversion from `T` to that tier, and nothing else is validated.
- **The client factory:** a class over `existingClients: map<string, CosmosClient>`, with the client as an opaque handle that can be disposed.
- **Parameters:** the country/region reference table, the fresh id `Guid.NewGuid` returns, and today's date are passed in as parameters.

## Model

| member | source | states |
|---|---|---|
| Ensure.IsNotNullOrWhitespace | src/MemberDatabaseDTO/Models/UserBase.cs:48 | succeeds exactly on a present, non-blank string and then returns it unchanged; otherwise fails naming the member |
| Ensure.IsNotNull | src/MemberDatabaseDTO/Models/Position.cs:39-42 | succeeds exactly on a present value and returns it unchanged; otherwise fails naming the member |
| Ensure.AreEqual | src/MemberDatabaseDTO/Models/ReadByAllWriteByUser.cs:119-121 | succeeds exactly when the two counts are equal |
| Text.ToLower | src/MemberDatabaseDTO/CosmosUserRepository.cs:153 | keeps the length and lower-cases every character in place |
| Text.ToLowerIdempotent | src/MemberDatabaseDTO/CosmosUserRepository.cs:153-165 | lower-casing an already lower-cased query changes nothing |
| Text.ContainsAt | src/MemberDatabaseDTO/CosmosUserRepository.cs:165-170 | `Contains(s, t)` holds exactly when `t` occurs in `s` at some offset |
| Text.EmptyIsContained | src/MemberDatabaseDTO/CosmosUserRepository.cs:165-170 | the empty string is contained in every string |
| Text.Split | src/MemberDatabaseDTO/CosmosUserRepository.cs:156 | splitting always yields at least one piece |
| Text.SplitPieces | src/MemberDatabaseDTO/CosmosUserRepository.cs:156 | `Split()` yields one piece more than there are white-space characters (empty pieces kept), no piece holds white space, and the pieces concatenate to the input without its white space |
| Text.SplitWithoutSeparators | src/MemberDatabaseDTO/CosmosUserRepository.cs:156 | a string without white space splits into itself alone |
| Text.SplitAtFirstSeparator | src/MemberDatabaseDTO/CosmosUserRepository.cs:156 | splitting at the first white-space character yields the text before it followed by the pieces of the rest |
| Text.ToLowerOfLower | src/MemberDatabaseDTO/CosmosUserRepository.cs:153 | a string without upper-case letters is its own lower-case form |
| SystemTypes.AddYears | src/MemberDatabaseDTO/Models/AdminUser.cs:297 | shifts the year and keeps month and day, except that 29 February becomes 28 February in a common year |
| CountryData.CountriesNamed | src/MemberDatabaseDTO/Models/ReadByAllWriteByUser.cs:115-116 | the countries of the table whose name is the given one, and no others |
| CountryData.CountRegionsNamed | src/MemberDatabaseDTO/Models/ReadByAllWriteByUser.cs:121 | the count is zero exactly when no region has that name, and never exceeds the number of regions |
| CountryData.CountriesNamedKeepsCopies | src/MemberDatabaseDTO/Models/ReadByAllWriteByUser.cs:115-116 | every country of that name is kept as many times as the table lists it, and no other country is kept |
| CountryData.OneCountryNamed | src/MemberDatabaseDTO/Models/ReadByAllWriteByUser.cs:115-117 | the filter yields exactly one country exactly when one table entry, and no other, has that name |
| CountryData.DuplicateCountryIsNotSingle | src/MemberDatabaseDTO/Models/ReadByAllWriteByUser.cs:115-117 | a table listing the same country twice yields two countries of that name, so `Single()` fails |
| CountryData.RegionNames | src/MemberDatabaseDTO/Models/ReadByAllWriteByUser.cs:121 | the names of the regions, one per region, position by position |
| CountryData.CountIsOccurrences | src/MemberDatabaseDTO/Models/ReadByAllWriteByUser.cs:121 | the region count is the number of times the name occurs among the region names |
| CountryData.OneRegionNamed | src/MemberDatabaseDTO/Models/ReadByAllWriteByUser.cs:119-121 | the count is one exactly when one region, and no other, has that name |
| UserBaseTier.New | src/MemberDatabaseDTO/Models/UserBase.cs:36-42 | a new record has the fresh id and no email |
| UserBaseTier.Violation | src/MemberDatabaseDTO/Models/UserBase.cs:45-49 | validation fails exactly when the email is null, empty or white space, with the email as the failing member |
| UserBaseTier.Validate | src/MemberDatabaseDTO/Models/UserBase.cs:45-49 | returns the outcome of the email rule, and on success keeps id and email |
| UserBaseTier.ValidateIdempotent | src/MemberDatabaseDTO/Models/UserBase.cs:45-49 | a record that passes is returned unchanged, and validating it again gives the same result |
| UserBaseTier.NewFails | src/MemberDatabaseDTO/Models/UserBase.cs:36-49 | a freshly constructed record fails on its unset email |
| LegacyUserBase.Validate | src/Models/UserBase.cs:44-48 | the older rule: success exactly on a non-blank email, with the record unchanged; otherwise the email failure |
| LegacyUserBase.SameConstants | src/Models/UserBase.cs:24-29 | the older copy uses the container id "Users" and the partition key "/id", as the current one does |
| ReadByAllWriteByUserTier.New | src/MemberDatabaseDTO/Models/ReadByAllWriteByUser.cs:33-98 | a new profile has every nullable field unset and empty board and surf-spot lists |
| ReadByAllWriteByUserTier.SingleCountry | src/MemberDatabaseDTO/Models/ReadByAllWriteByUser.cs:115-117 | `Single()` succeeds exactly when one country has the name, and returns that country |
| ReadByAllWriteByUserTier.Validate | src/MemberDatabaseDTO/Models/ReadByAllWriteByUser.cs:101-123 | returns the outcome of the email, first-name and region rules, checked in that order |
| ReadByAllWriteByUserTier.BlankEmailFailsFirst | src/MemberDatabaseDTO/Models/ReadByAllWriteByUser.cs:104 | a blank email fails first, whatever the other fields hold |
| ReadByAllWriteByUserTier.FirstNameRequired | src/MemberDatabaseDTO/Models/ReadByAllWriteByUser.cs:107 | with a valid email, a null or blank first name fails naming the first name |
| ReadByAllWriteByUserTier.NoRegionLeavesCountryFree | src/MemberDatabaseDTO/Models/ReadByAllWriteByUser.cs:110 | without a region, the country does not affect the outcome, and only email and first name are required |
| ReadByAllWriteByUserTier.RegionRule | src/MemberDatabaseDTO/Models/ReadByAllWriteByUser.cs:110-121 | with a region set, a null country fails, and validation passes exactly when one country has that name and exactly one of its regions has the region's name |
| ReadByAllWriteByUserTier.UnknownRegionFails | src/MemberDatabaseDTO/Models/ReadByAllWriteByUser.cs:119-121 | a region not in its country's list fails the region count |
| ReadByAllWriteByUserTier.ValidateIdempotent | src/MemberDatabaseDTO/Models/ReadByAllWriteByUser.cs:101-123 | a profile that passes is returned unchanged, and validating it again gives the same result |
| ReadByAllWriteByUserTier.RegionExample | src/MemberDatabaseDTO/Models/ReadByAllWriteByUser.cs:110-121 | with a table holding only "United States" and California, region "Atlantis" fails and "California" passes |
| PositionRecord.Violation | src/MemberDatabaseDTO/Models/Position.cs:36-43 | a position fails exactly when name or start date is null: the name first, then the start date |
| PositionRecord.Validate | src/MemberDatabaseDTO/Models/Position.cs:36-43 | returns the outcome of the name and start-date checks |
| PositionRecord.EndedIgnored | src/MemberDatabaseDTO/Models/Position.cs:33-43 | the end date, null or not, never changes the outcome |
| PositionRecord.Merge | src/MemberDatabaseDTO/Models/Position.cs:75-77 | each of name, start and end is the argument's value when it is set and the current value otherwise |
| PositionRecord.Update | src/MemberDatabaseDTO/Models/Position.cs:72-81 | the fields are overwritten by the merge before validation runs, so a failing update has already changed them; the result is the validation outcome of the merged position |
| PositionRecord.MergeNothing | src/MemberDatabaseDTO/Models/Position.cs:75-77 | an update with every field null changes nothing |
| PositionRecord.MergeIdempotent | src/MemberDatabaseDTO/Models/Position.cs:75-77 | applying the same argument twice equals applying it once |
| PositionRecord.UpdateOutcome | src/MemberDatabaseDTO/Models/Position.cs:72-81 | an update passes exactly when name and start date are each set in the argument or already present; updating a valid position always passes |
| LegacyPosition.Validate | src/Models/Position.cs:35-42 | the older rule: success exactly when name and start date are set, with the position unchanged; the name failure comes before the start-date one |
| ReadByAllUserTier.New | src/MemberDatabaseDTO/Models/ReadByAllUser.cs:25-30 | a new record has no positions and the chapter Wahine Kai International |
| ReadByAllUserTier.PositionsViolation | src/MemberDatabaseDTO/Models/ReadByAllUser.cs:39-42 | no failure exactly when every position passes; otherwise the failure of the first failing position in list order |
| ReadByAllUserTier.Validate | src/MemberDatabaseDTO/Models/ReadByAllUser.cs:33-43 | validates the profile, then each position in list order, writing each back; equals the outcome of those rules |
| ReadByAllUserTier.ProfileChecksFirst | src/MemberDatabaseDTO/Models/ReadByAllUser.cs:36 | a profile failure is reported before any position is examined |
| ReadByAllUserTier.PositionsMustAllPass | src/MemberDatabaseDTO/Models/ReadByAllUser.cs:39-42 | with a valid profile, the record passes exactly when every position does; an empty list adds no constraint |
| ReadByAllUserTier.ChapterIgnored | src/MemberDatabaseDTO/Models/ReadByAllUser.cs:30-43 | the chapter never affects the outcome |
| ReadByAllUserTier.ValidateIdempotent | src/MemberDatabaseDTO/Models/ReadByAllUser.cs:39-42 | positions are neither reordered nor dropped, and validating twice equals validating once |
| ReadByAllUserTier.NewFails | src/MemberDatabaseDTO/Models/ReadByAllUser.cs:25-43 | a freshly constructed record fails on its unset email |
| LegacyReadByAllUser.New | src/Models/ReadByAllUser.cs:22-27 | a new older-style record has no positions and no chapter |
| LegacyReadByAllUser.Validate | src/Models/ReadByAllUser.cs:30-43 | validates the profile, then each position with the older rule, then requires the chapter |
| LegacyReadByAllUser.ChapterRequiredLast | src/Models/ReadByAllUser.cs:36-42 | a missing chapter always fails, and fails naming the chapter once the profile and every position pass |
| LegacyReadByAllUser.NewFails | src/Models/ReadByAllUser.cs:27-42 | a freshly constructed record fails, and still fails on the chapter once email and first name are filled in |
| LegacyReadByAllUser.AgreesWithCurrentWhenChapterSet | src/Models/ReadByAllUser.cs:30-43 | with the chapter set, the older rules give the same outcome as the current ones |
| AdminUserTier.New | src/MemberDatabaseDTO/Models/AdminUser.cs:25-106 | a new record is pending, not an admin, entered in the chapter group only, with every flag false and every nullable field unset |
| AdminUserTier.Validate | src/MemberDatabaseDTO/Models/AdminUser.cs:159-195 | runs the read-by-all rules, then the status-keyed date rule writing the dates back, then the surfboard rule; equals the outcome of those rules with the dates normalised |
| AdminUserTier.MemberChecksFirst | src/MemberDatabaseDTO/Models/AdminUser.cs:161 | a failure of the read-by-all rules is reported whatever the status and dates |
| AdminUserTier.StatusRequirements | src/MemberDatabaseDTO/Models/AdminUser.cs:165-188 | pending always passes; active-paying passes exactly with joined and renewal dates; active-non-paying, lifetime and terminated pass exactly with a joined date |
| AdminUserTier.StatusDateTable | src/MemberDatabaseDTO/Models/AdminUser.cs:165-188 | on success only the three dates change: pending keeps them; active-paying clears the terminated date; active-non-paying and lifetime clear renewal and terminated; terminated clears renewal and overwrites the terminated date with the joined date |
| AdminUserTier.SurfboardRule | src/MemberDatabaseDTO/Models/AdminUser.cs:191-194 | a won surfboard without its date fails; without a win the date is kept as it is |
| AdminUserTier.ValidateIdempotent | src/MemberDatabaseDTO/Models/AdminUser.cs:159-195 | validating a validated record returns it unchanged |
| AdminUserTier.ValidatedMeetsDocumentedRule | src/MemberDatabaseDTO/Enums/MemberStatus.cs:18-53 | for every status but pending, a validated record meets the date rule the status documentation prescribes |
| AdminUserTier.DocumentedRuleDepartures | src/MemberDatabaseDTO/Models/AdminUser.cs:167-187 | where the code departs from the documentation: pending keeps any dates; a terminated record passes without a terminated date; a terminated date is replaced by the joined date |
| AdminUserTier.Clone | src/MemberDatabaseDTO/Models/AdminUser.cs:201-238 | the copy equals the original except that its time stamp is unset |
| AdminUserTier.Merged | src/MemberDatabaseDTO/Models/AdminUser.cs:114-151 | keeps the old record's id; every nullable field is the updated value when set and the old one otherwise; admin, email, chapter, status, entered statuses, flags and lists come from the updated record |
| AdminUserTier.Replace | src/MemberDatabaseDTO/Models/AdminUser.cs:114-156 | the field-by-field assignments on a clone build the merged record, and the result is its validation outcome |
| AdminUserTier.ReplacedIsValid | src/MemberDatabaseDTO/Models/AdminUser.cs:154-155 | a successful replace keeps the old id and returns a record that passes validation as it is |
| AdminUserTier.MergeWithSelf | src/MemberDatabaseDTO/Models/AdminUser.cs:114-238 | replacing a record with itself gives its clone |
| AdminUserTier.CalculateAge | src/MemberDatabaseDTO/Models/AdminUser.cs:286-303 | null exactly without a birthdate; otherwise the number of whole years after which going back from today does not pass the birth date, while going back one year more does |
| AdminUserTier.Age | src/MemberDatabaseDTO/Models/AdminUser.cs:50 | a record's age is unset exactly without a birthdate, and otherwise the count of whole years that `CalculateAge` characterises |
| AdminUserTier.AgeIsUnique | src/MemberDatabaseDTO/Models/AdminUser.cs:294-299 | no other year count has that property, so the age is determined by it |
| AdminUserTier.LeapDayBirthday | src/MemberDatabaseDTO/Models/AdminUser.cs:296-299 | someone born on 29 February 2000 is 24 on 28 February 2025 and 25 on 1 March 2025 |
| UserSearch.TokenHitsSomeField | src/MemberDatabaseDTO/CosmosUserRepository.cs:165-170 | the six tests added for a token hold exactly when the token is in some searched field |
| UserSearch.BuildPredicate | src/MemberDatabaseDTO/CosmosUserRepository.cs:160-171 | the predicate built in the loop holds for a user exactly when some token is contained in some lower-cased, non-null searched field |
| UserSearch.AddedTokenTests | src/MemberDatabaseDTO/CosmosUserRepository.cs:165-170 | the six `Or`s for one token add exactly that token's field tests |
| UserSearch.NullFieldsNeverMatch | src/MemberDatabaseDTO/CosmosUserRepository.cs:165-170 | a user whose six searched fields are all null matches no query |
| UserSearch.EmptyTokenMatchesAnySetField | src/MemberDatabaseDTO/CosmosUserRepository.cs:156-171 | an empty token matches every user with a searched field set |
| UserSearch.JaneSurfTokens | src/MemberDatabaseDTO/CosmosUserRepository.cs:153-156 | "jane surf" becomes the tokens "jane" and "surf" |
| UserSearch.JaneMatches | src/MemberDatabaseDTO/CosmosUserRepository.cs:153-171 | "jane surf" finds a user whose first name is "Jane" |
| UserSearch.BobDoesNotMatch | src/MemberDatabaseDTO/CosmosUserRepository.cs:153-171 | "jane surf" does not find Bob of Denver, whose other searched fields are null |
| UserSearch.NoTokenHitsNoMatch | src/MemberDatabaseDTO/CosmosUserRepository.cs:163-171 | a user none of whose fields holds any token matches nothing |
| UserSearch.NotContained | src/MemberDatabaseDTO/CosmosUserRepository.cs:165 | a token whose first character does not occur in a string is not contained in it |
| UserRepository.IndexOfEmail | src/MemberDatabaseDTO/CosmosUserRepository.cs:55-60 | the first document with that email, or none exactly when no document has it |
| UserRepository.IndexOfId | src/MemberDatabaseDTO/CosmosUserRepository.cs:87-90 | the first document with that id, or none exactly when no document has it |
| UserRepository.ReadAll | src/MemberDatabaseDTO/CosmosUserRepository.cs:132-141 | succeeds exactly when every document passes, returning them all in order; otherwise the failure of the first document that does not pass |
| UserRepository.ReadAllFailureStands | src/MemberDatabaseDTO/CosmosUserRepository.cs:136-137 | once a document fails, the documents after it do not change the result |
| UserRepository.Selected | src/MemberDatabaseDTO/CosmosUserRepository.cs:173-175 | the store selects only stored documents |
| UserRepository.Matching | src/MemberDatabaseDTO/CosmosUserRepository.cs:153-175 | exactly the stored documents that match the tokens |
| UserRepository.SelectedIsMatching | src/MemberDatabaseDTO/CosmosUserRepository.cs:160-175 | what the store selects with the built predicate is exactly the matching documents in store order |
| UserRepository.AdminStatusRulesNotApplied | src/MemberDatabaseDTO/CosmosUserRepository.cs:137 | an administrator's record that breaks the status rule but passes the read-by-all rules is read back as it is |
| UserRepository.CosmosUserRepository.constructor | src/MemberDatabaseDTO/CosmosUserRepository.cs:37-45 | the repository works over the given container |
| UserRepository.CosmosUserRepository.GetUserByEmail | src/MemberDatabaseDTO/CosmosUserRepository.cs:48-77 | a blank email fails; no match fails the count check; otherwise the first document with that email, after it passes validation |
| UserRepository.CosmosUserRepository.GetUserById | src/MemberDatabaseDTO/CosmosUserRepository.cs:80-107 | no match fails the count check; otherwise the document with that id, after it passes validation |
| UserRepository.CosmosUserRepository.ReadResults | src/MemberDatabaseDTO/CosmosUserRepository.cs:132-188 | the loop that validates and collects each read document equals the read-all outcome |
| UserRepository.CosmosUserRepository.GetAllUsers | src/MemberDatabaseDTO/CosmosUserRepository.cs:124-146 | every document once, in store order, when all pass; otherwise the first failure |
| UserRepository.CosmosUserRepository.GetUsersByQuery | src/MemberDatabaseDTO/CosmosUserRepository.cs:149-193 | a blank query fails; otherwise the read-all outcome over the documents matching the lower-cased, split query |
| UserRepository.CosmosUserRepository.CreateUser | src/MemberDatabaseDTO/CosmosUserRepository.cs:196-215 | an invalid user or a taken id writes nothing; otherwise the user is appended and returned; ids stay unique |
| UserRepository.CosmosUserRepository.ReplaceUser | src/MemberDatabaseDTO/CosmosUserRepository.cs:218-237 | an invalid user, an id mismatch or a missing id writes nothing; otherwise only the document with that id is replaced by the updated user |
| UserRepository.CosmosUserRepository.DeleteUser | src/MemberDatabaseDTO/CosmosUserRepository.cs:110-121 | an invalid user or a missing id writes nothing; otherwise exactly the document with that id is removed |
| UserRepository.CreateThenGetById | src/MemberDatabaseDTO/CosmosUserRepository.cs:196-215 | a create succeeds exactly for a valid user with an unused id, and then a by-id lookup returns exactly the created record |
| UserRepository.QueryReturnsMatches | src/MemberDatabaseDTO/CosmosUserRepository.cs:153-188 | a successful query returns a document exactly when it is stored and matches |
| UserRepository.InvalidMatchFailsQuery | src/MemberDatabaseDTO/CosmosUserRepository.cs:183-184 | a single matching document that fails validation makes the whole query fail |
| UserRepository.NullFieldsNeverReturned | src/MemberDatabaseDTO/CosmosUserRepository.cs:165-170 | a document whose six searched fields are null is never returned by a query |
| UserRepository.IdLookupIsUnique | src/MemberDatabaseDTO/CosmosUserRepository.cs:87-98 | with unique ids, the by-id lookup finds the one document with that id |
| UserRepository.DuplicateEmailsNotReported | src/MemberDatabaseDTO/CosmosUserRepository.cs:59-66 | with two documents sharing an email, the by-email lookup returns the first and reports nothing |
| UserRepository.DeleteRemovesOnlyThatId | src/MemberDatabaseDTO/CosmosUserRepository.cs:118 | after a delete no document with that id is left, and every other document remains |
| ClientFactory.CosmosClientFactory.constructor | src/MemberDatabaseDTO/CosmosClientFactory.cs:31-47 | a new factory caches no client |
| ClientFactory.CosmosClientFactory.GetCosmosClient | src/MemberDatabaseDTO/CosmosClientFactory.cs:59-72 | a blank string fails and changes nothing; a hit returns the stored client and changes nothing; a miss creates one client, adds it under that string only, and returns it |
| ClientFactory.CosmosClientFactory.Dispose | src/MemberDatabaseDTO/CosmosClientFactory.cs:50-56 | every cached client is disposed |
| ClientFactory.ReuseOnSecondRequest | src/MemberDatabaseDTO/CosmosClientFactory.cs:59-72 | two requests for the same non-blank string return the same client, and no entry is ever removed |

## Left out

- Logging, `async`/`await`, the paging of query results (`ReadNextAsync`, `HasMoreResults`) and the translation of LINQ to the store's query language: the store is a finite sequence read in one pass.
- The `Ensure.IsFalse(() => iterator.HasMoreResults)` checks of the two lookups: under `Take(1)` the single page is the last, so the check cannot fail in the model.
- The `Ensure.IsNotNull` checks on records read from the store and on arguments of record or `Guid` type: the model has no null references, so these cannot fail.
- A null element of a record's `Positions` list, on which `ReadByAllUser.Validate` would throw a `NullReferenceException` when it calls `position.Validate()`: list elements here are values, never null, so the model cannot represent that failure.
- The store's own behaviour is taken as:
  - create with a taken id fails with a conflict;
  - replace or delete of a missing id fails with not-found;
  - replace with a body whose id differs from the addressed id fails with a bad request.

  The store code is not part of this model.
- UserRepository.CosmosUserRepository.CreateUser: the store is taken to return the written document as it was written. Server-set fields such as `_ts`, which the administrator's record maps to `TimeStamp`, are not modelled, so the returned record keeps the argument's time stamp.
- UserRepository.CosmosUserRepository.ReplaceUser: the same holds for the document the store returns after a replace.
- Retries, duplicate-email detection and delete-by-id: the repository has none of them. `DeleteUserByIdAsync` and `GetUsersByIdCollectionAsync` are declared in src/MemberDatabaseDTO/Contracts/IUserRepository.cs but never implemented.
- Text.ToLower: lower-cases ASCII letters only. `string.ToLower` follows the current culture over all of Unicode.
- Text.IsWhiteSpace: follows the white-space characters of `char.IsWhiteSpace`. The Unicode categories behind them are not modelled beyond that list.
- Dates carry no time of day: the model uses only null checks and the day-level comparison in `CalculateAge`.
- `DateTime.Today` and `Guid.NewGuid` are parameters.
- The country/region table of `CountryData.Standard` is a parameter.
- The `[EmailAddress]` annotation is never checked by `Validate` and is not modelled.
- The `ToString` methods are text formatting and are not modelled, although they call `Validate`.
- Aliasing: `Clone` copies the `Boards`, `SurfSpots` and `Positions` references, so the copy shares its lists with the original. The model's lists are values.
- Null lists (`updatedUser.Boards ?? oldUser.Boards`) cannot occur in the model: its lists are never null, so the updated record's list is always taken.
- AdminUserTier.Validate: the C# method writes the normalised dates into the record before the surfboard check, so a record that then fails is left changed. The model returns only the failure and does not show that partial write.
- ReadByAllUserTier.Validate: each C# position is validated in place before a later one fails. The model returns only the failure, which for a failing record changes nothing anyway because a position that passes is unchanged.
- `ChapterEnteredStatus` and `WkiEnteredStatus` are not part of this model; both are modelled with the three values of `EnteredStatus`.
- src/Models/ReadByAllWriteByUser.cs is not part of this model: the older `ReadByAllUser` is modelled over the current profile tier.
- The `using var` at src/MemberDatabaseDTO/CosmosClientFactory.cs:69 disposes the freshly cached client when `GetCosmosClient` returns. Client disposal is modelled only through `Dispose`.
- The client options and JSON serializer settings built by the factory's constructor are SDK configuration and are not modelled.
- Where the status documentation in src/MemberDatabaseDTO/Enums/MemberStatus.cs and the code disagree, the model follows the code.
  - The documentation says a pending member has no joined, renewal or terminated date; the code neither checks nor clears them.
  - The documentation says a terminated member must have a terminated date; the code checks the joined date instead and copies it into the terminated date.

  `AdminUserTier.DocumentedRuleDepartures` states both differences.
