/** The user repository over the "Users" container, with the container
    modelled as the finite sequence of stored documents in iteration order.

    The repository is generic in the stored record type `T`, which must be a
    read-by-all record or one derived from it. `Validate` is hidden, not
    overridden, in the derived tiers, so every `user.Validate()` the
    repository makes is the read-by-all one whatever `T` is: `upcast` is the
    conversion of a `T` to that tier, and only its rules are ever applied. */
module UserRepository {
  import opened Wrappers
  import opened Text
  import opened Ensure
  import opened SystemTypes
  import opened CountryData
  import opened Enums
  import ReadByAllUserTier
  import AdminUserTier
  import UserSearch

  type User = ReadByAllUserTier.ReadByAllUser

  /** A stored record passes the read-by-all validation. */
  predicate Passes<T>(table: CountryTable, upcast: T -> User, x: T)
  {
    ReadByAllUserTier.Violation(table, upcast(x)).None?
  }

  /** The container holds at most one document per id. */
  predicate UniqueIds<T>(upcast: T -> User, s: seq<T>)
  {
    forall i, j :: 0 <= i < j < |s| ==> upcast(s[i]).Id() != upcast(s[j]).Id()
  }

  /** The position of the first document whose email is `email`. */
  function IndexOfEmail<T>(upcast: T -> User, s: seq<T>, email: string): (k: Option<nat>)
    ensures k.None? <==> forall i :: 0 <= i < |s| ==> upcast(s[i]).Email() != Some(email)
    ensures k.Some? ==> k.value < |s| && upcast(s[k.value]).Email() == Some(email)
    ensures k.Some? ==> forall i :: 0 <= i < k.value ==> upcast(s[i]).Email() != Some(email)
  {
    if s == [] then None
    else if upcast(s[0]).Email() == Some(email) then Some(0)
    else
      var k := IndexOfEmail(upcast, s[1..], email);
      assert forall i :: 1 <= i < |s| ==> s[i] == s[1..][i - 1];
      if k.None? then None else Some(k.value + 1)
  }

  /** The position of the document with id `id`. */
  function IndexOfId<T>(upcast: T -> User, s: seq<T>, id: Guid): (k: Option<nat>)
    ensures k.None? <==> forall i :: 0 <= i < |s| ==> upcast(s[i]).Id() != id
    ensures k.Some? ==> k.value < |s| && upcast(s[k.value]).Id() == id
    ensures k.Some? ==> forall i :: 0 <= i < k.value ==> upcast(s[i]).Id() != id
  {
    if s == [] then None
    else if upcast(s[0]).Id() == id then Some(0)
    else
      var k := IndexOfId(upcast, s[1..], id);
      assert forall i :: 1 <= i < |s| ==> s[i] == s[1..][i - 1];
      if k.None? then None else Some(k.value + 1)
  }

  /** What a read loop over `s` yields: every record, in order, when all of
      them pass, and otherwise the failure of the first one that does not. */
  function ReadAll<T>(table: CountryTable, upcast: T -> User, s: seq<T>): (r: Result<seq<T>, Error>)
    ensures r.Success? <==> forall i :: 0 <= i < |s| ==> Passes(table, upcast, s[i])
    ensures r.Success? ==> r.value == s
    ensures r.Failure? ==> exists k :: 0 <= k < |s| && !Passes(table, upcast, s[k]) &&
                                       r.error == ReadByAllUserTier.Violation(table, upcast(s[k])).value &&
                                       forall j :: 0 <= j < k ==> Passes(table, upcast, s[j])
    decreases |s|
  {
    if s == [] then Success([])
    else
      var front := s[..|s| - 1];
      var last := s[|s| - 1];
      var earlier := ReadAll(table, upcast, front);
      assert forall i :: 0 <= i < |front| ==> front[i] == s[i];
      if earlier.Failure? then earlier
      else if !Passes(table, upcast, last) then
        Failure(ReadByAllUserTier.Violation(table, upcast(last)).value)
      else
        assert front + [last] == s;
        Success(front + [last])
  }

  /** A read loop that has failed on a prefix fails the same way on the whole. */
  lemma {:induction false} ReadAllFailureStands<T>(table: CountryTable, upcast: T -> User, s: seq<T>, n: nat)
    requires n <= |s| && ReadAll(table, upcast, s[..n]).Failure?
    ensures ReadAll(table, upcast, s) == ReadAll(table, upcast, s[..n])
    decreases |s| - n
  {
    if n < |s| {
      var front := s[..|s| - 1];
      assert front[..n] == s[..n];
      ReadAllFailureStands(table, upcast, front, n);
    } else {
      assert s[..n] == s;
    }
  }

  /** The documents of `s` the store selects with the built predicate, in order. */
  function Selected<T>(upcast: T -> User, s: seq<T>, p: UserSearch.Predicate): (r: seq<T>)
    ensures forall x :: x in r ==> x in s
    decreases |s|
  {
    if s == [] then []
    else
      var front := Selected(upcast, s[..|s| - 1], p);
      var last := s[|s| - 1];
      if UserSearch.Eval(p, upcast(last)) then front + [last] else front
  }

  /** The documents of `s` that match the search tokens, in order. */
  function Matching<T>(upcast: T -> User, s: seq<T>, tokens: seq<string>): (r: seq<T>)
    ensures forall x :: x in r ==> x in s && UserSearch.MatchesQuery(tokens, upcast(x))
    ensures forall i :: 0 <= i < |s| && UserSearch.MatchesQuery(tokens, upcast(s[i])) ==> s[i] in r
    decreases |s|
  {
    if s == [] then []
    else
      var front := s[..|s| - 1];
      var last := s[|s| - 1];
      assert s == front + [last];
      var r := Matching(upcast, front, tokens);
      if UserSearch.MatchesQuery(tokens, upcast(last)) then r + [last] else r
  }

  /** Selecting with a predicate that means the query selects the matching documents. */
  lemma {:induction false} SelectedIsMatching<T>(upcast: T -> User, s: seq<T>, p: UserSearch.Predicate, tokens: seq<string>)
    requires forall u :: UserSearch.Eval(p, u) <==> UserSearch.MatchesQuery(tokens, u)
    ensures Selected(upcast, s, p) == Matching(upcast, s, tokens)
    decreases |s|
  {
    if s != [] {
      SelectedIsMatching(upcast, s[..|s| - 1], p, tokens);
    }
  }

  /** The repository applies only the read-by-all rules: an administrator's
      record that breaks the status and date rules but passes those is still
      read back unchanged. */
  lemma AdminStatusRulesNotApplied(table: CountryTable, a: AdminUserTier.AdminUser)
    requires ReadByAllUserTier.Violation(table, a.base).None?
    requires a.status == ActivePaying && a.joinedDate.None?
    ensures AdminUserTier.Outcome(table, a) == Failure(Null("JoinedDate"))
    ensures ReadAll(table, (x: AdminUserTier.AdminUser) => x.base, [a]) == Success([a])
  {
  }

  class CosmosUserRepository<T(==)> {
    /** The country and region reference table the records are validated against. */
    const table: CountryTable
    /** The conversion of a stored record to the read-by-all tier. */
    const upcast: T -> User
    /** The documents of the container, in iteration order. */
    var container: seq<T>

    ghost predicate Valid()
      reads this
    {
      UniqueIds(upcast, container)
    }

    /** A repository over a container that already holds `documents`. */
    constructor(table: CountryTable, upcast: T -> User, documents: seq<T>)
      requires UniqueIds(upcast, documents)
      ensures Valid()
      ensures this.table == table && this.upcast == upcast && container == documents
    {
      this.table := table;
      this.upcast := upcast;
      container := documents;
    }

    /** `GetUserByEmailAsync`: the first document with that email, if it passes validation. */
    method GetUserByEmail(email: Option<string>) returns (r: Result<T, Error>)
      ensures email.None? || IsBlank(email.value) ==> r == Failure(NullOrWhitespace("email"))
      ensures email.Some? && !IsBlank(email.value) && IndexOfEmail(upcast, container, email.value).None? ==>
                r == Failure(NotEqual("feedResponse.Count"))
      ensures email.Some? && !IsBlank(email.value) && IndexOfEmail(upcast, container, email.value).Some? ==>
                var x := container[IndexOfEmail(upcast, container, email.value).value];
                r == if Passes(table, upcast, x) then Success(x)
                     else Failure(ReadByAllUserTier.Violation(table, upcast(x)).value)
      ensures r.Success? ==> r.value in container && upcast(r.value).Email() == email
    {
      var e :- IsNotNullOrWhitespace(email, "email");
      var k := IndexOfEmail(upcast, container, e);
      // Take(1) caps the page at the first match.
      var page := if k.Some? then [container[k.value]] else [];
      var count :- AreEqual(1, |page|, "feedResponse.Count");
      var user := page[0];
      var validated :- ReadByAllUserTier.Validate(table, upcast(user));
      return Success(user);
    }

    /** `GetUserByIdAsync`: the document with that id, if it passes validation. */
    method GetUserById(id: Guid) returns (r: Result<T, Error>)
      ensures IndexOfId(upcast, container, id).None? ==> r == Failure(NotEqual("feedResponse.Count"))
      ensures IndexOfId(upcast, container, id).Some? ==>
                var x := container[IndexOfId(upcast, container, id).value];
                r == if Passes(table, upcast, x) then Success(x)
                     else Failure(ReadByAllUserTier.Violation(table, upcast(x)).value)
      ensures r.Success? ==> r.value in container && upcast(r.value).Id() == id
    {
      var k := IndexOfId(upcast, container, id);
      var page := if k.Some? then [container[k.value]] else [];
      var count :- AreEqual(1, |page|, "feedResponse.Count");
      var user := page[0];
      var validated :- ReadByAllUserTier.Validate(table, upcast(user));
      return Success(user);
    }

    /** The loop over the result pages shared by the two collection reads:
        each document is validated and appended. */
    method ReadResults(found: seq<T>) returns (r: Result<seq<T>, Error>)
      ensures r == ReadAll(table, upcast, found)
    {
      var users: seq<T> := [];
      var i := 0;
      while i < |found|
        invariant 0 <= i <= |found|
        invariant ReadAll(table, upcast, found[..i]) == Success(users)
      {
        assert found[..i + 1][..i] == found[..i];
        var v := ReadByAllUserTier.Validate(table, upcast(found[i]));
        if v.Failure? {
          ReadAllFailureStands(table, upcast, found, i + 1);
          return Failure(v.error);
        }
        users := users + [found[i]];
        i := i + 1;
      }
      assert found[..i] == found;
      return Success(users);
    }

    /** `GetAllUsersAsync`: every document, in iteration order, all validated. */
    method GetAllUsers() returns (r: Result<seq<T>, Error>)
      ensures r == ReadAll(table, upcast, container)
    {
      r := ReadResults(container);
    }

    /** `GetUsersByQueryAsync`: the documents matching the lower-cased,
        white-space-split query, all validated. */
    method GetUsersByQuery(query: Option<string>) returns (r: Result<seq<T>, Error>)
      ensures query.None? || IsBlank(query.value) ==> r == Failure(NullOrWhitespace("query"))
      ensures query.Some? && !IsBlank(query.value) ==>
                r == ReadAll(table, upcast, Matching(upcast, container, Split(ToLower(query.value))))
    {
      var q :- IsNotNullOrWhitespace(query, "query");
      q := ToLower(q);
      var queries := Split(q);
      var filter := UserSearch.BuildPredicate(queries);
      SelectedIsMatching(upcast, container, filter, queries);
      r := ReadResults(Selected(upcast, container, filter));
    }

    /** `CreateUserAsync`: validate, then add the document unless its id is taken. */
    method CreateUser(user: T) returns (r: Result<T, Error>)
      requires Valid()
      modifies this
      ensures Valid()
      ensures !Passes(table, upcast, user) ==>
                r == Failure(ReadByAllUserTier.Violation(table, upcast(user)).value) &&
                container == old(container)
      ensures Passes(table, upcast, user) && IndexOfId(upcast, old(container), upcast(user).Id()).Some? ==>
                r == Failure(Conflict) && container == old(container)
      ensures Passes(table, upcast, user) && IndexOfId(upcast, old(container), upcast(user).Id()).None? ==>
                r == Success(user) && container == old(container) + [user]
    {
      var validated :- ReadByAllUserTier.Validate(table, upcast(user));
      if IndexOfId(upcast, container, upcast(user).Id()).Some? {
        return Failure(Conflict);
      }
      container := container + [user];
      // The store returns the document as written, which passes again.
      var fromDatabase := user;
      var again := ReadByAllUserTier.Validate(table, upcast(fromDatabase));
      var checked := again.Extract();
      return Success(fromDatabase);
    }

    /** `ReplaceUserAsync`: validate, then store `updated` in place of the document with id `id`. */
    method ReplaceUser(updated: T, id: Guid) returns (r: Result<T, Error>)
      requires Valid()
      modifies this
      ensures Valid()
      ensures !Passes(table, upcast, updated) ==>
                r == Failure(ReadByAllUserTier.Violation(table, upcast(updated)).value) &&
                container == old(container)
      ensures Passes(table, upcast, updated) && upcast(updated).Id() != id ==>
                r == Failure(BadRequest) && container == old(container)
      ensures Passes(table, upcast, updated) && upcast(updated).Id() == id &&
              IndexOfId(upcast, old(container), id).None? ==>
                r == Failure(NotFound) && container == old(container)
      ensures Passes(table, upcast, updated) && upcast(updated).Id() == id &&
              IndexOfId(upcast, old(container), id).Some? ==>
                r == Success(updated) &&
                container == old(container)[IndexOfId(upcast, old(container), id).value := updated]
    {
      var validated :- ReadByAllUserTier.Validate(table, upcast(updated));
      if upcast(updated).Id() != id {
        return Failure(BadRequest);
      }
      var k := IndexOfId(upcast, container, id);
      if k.None? {
        return Failure(NotFound);
      }
      container := container[k.value := updated];
      var fromDatabase := updated;
      var again := ReadByAllUserTier.Validate(table, upcast(fromDatabase));
      var checked := again.Extract();
      return Success(fromDatabase);
    }

    /** `DeleteUserAsync`: validate, then remove the document with the user's id. */
    method DeleteUser(user: T) returns (r: Result<(), Error>)
      requires Valid()
      modifies this
      ensures Valid()
      ensures !Passes(table, upcast, user) ==>
                r == Failure(ReadByAllUserTier.Violation(table, upcast(user)).value) &&
                container == old(container)
      ensures Passes(table, upcast, user) && IndexOfId(upcast, old(container), upcast(user).Id()).None? ==>
                r == Failure(NotFound) && container == old(container)
      ensures Passes(table, upcast, user) && IndexOfId(upcast, old(container), upcast(user).Id()).Some? ==>
                var k := IndexOfId(upcast, old(container), upcast(user).Id()).value;
                r == Success(()) && container == old(container)[..k] + old(container)[k + 1..]
    {
      var validated :- ReadByAllUserTier.Validate(table, upcast(user));
      var k := IndexOfId(upcast, container, upcast(user).Id());
      if k.None? {
        return Failure(NotFound);
      }
      var before := container;
      container := container[..k.value] + container[k.value + 1..];
      assert forall i :: 0 <= i < |container| ==>
               container[i] == if i < k.value then before[i] else before[i + 1];
      return Success(());
    }
  }

  /** A user that is created can be read back by its id: the lookup returns
      exactly the record that was written. */
  method CreateThenGetById<T(==)>(repo: CosmosUserRepository<T>, user: T)
      returns (created: Result<T, Error>, found: Result<T, Error>)
    requires repo.Valid()
    modifies repo
    ensures created.Success? <==>
              Passes(repo.table, repo.upcast, user) &&
              IndexOfId(repo.upcast, old(repo.container), repo.upcast(user).Id()).None?
    ensures created.Success? ==> created == Success(user) && found == Success(user)
  {
    created := repo.CreateUser(user);
    if created.Success? {
      IdLookupIsUnique(repo.upcast, repo.container, repo.upcast(user).Id(), |repo.container| - 1);
    }
    found := repo.GetUserById(repo.upcast(user).Id());
  }

  // ------------------------------------------------- properties of the reads

  /** A query returns exactly the stored documents that match it, once all of them pass. */
  lemma QueryReturnsMatches<T>(table: CountryTable, upcast: T -> User, store: seq<T>, q: string, x: T)
    requires ReadAll(table, upcast, Matching(upcast, store, Split(ToLower(q)))).Success?
    ensures x in ReadAll(table, upcast, Matching(upcast, store, Split(ToLower(q)))).value <==>
              x in store && UserSearch.MatchesQuery(Split(ToLower(q)), upcast(x))
  {
  }

  /** One matching document that fails validation makes the whole query fail. */
  lemma InvalidMatchFailsQuery<T>(table: CountryTable, upcast: T -> User, store: seq<T>, tokens: seq<string>, x: T)
    requires x in store && UserSearch.MatchesQuery(tokens, upcast(x)) && !Passes(table, upcast, x)
    ensures ReadAll(table, upcast, Matching(upcast, store, tokens)).Failure?
  {
    var m := Matching(upcast, store, tokens);
    var i :| 0 <= i < |m| && m[i] == x;
  }

  /** A document whose six searched fields are all null is never part of a query's result. */
  lemma NullFieldsNeverReturned<T>(upcast: T -> User, store: seq<T>, tokens: seq<string>, x: T)
    requires forall f :: UserSearch.FieldValue(upcast(x), f).None?
    ensures x !in Matching(upcast, store, tokens)
  {
    UserSearch.NullFieldsNeverMatch(tokens, upcast(x));
  }

  /** With unique ids, the document a by-id lookup finds is the only one with that id. */
  lemma IdLookupIsUnique<T>(upcast: T -> User, s: seq<T>, id: Guid, i: nat)
    requires UniqueIds(upcast, s) && i < |s| && upcast(s[i]).Id() == id
    ensures IndexOfId(upcast, s, id) == Some(i)
  {
  }

  /** A by-email lookup reports nothing about a second document with the same
      email: with two matches it still returns the first. */
  lemma DuplicateEmailsNotReported<T>(upcast: T -> User, s: seq<T>, email: string, i: nat, j: nat)
    requires i < j < |s| && upcast(s[i]).Email() == Some(email) && upcast(s[j]).Email() == Some(email)
    requires forall k :: 0 <= k < i ==> upcast(s[k]).Email() != Some(email)
    ensures IndexOfEmail(upcast, s, email) == Some(i)
  {
  }

  /** After a delete no document with that id is left, and every other document stays. */
  lemma DeleteRemovesOnlyThatId<T>(upcast: T -> User, s: seq<T>, k: nat)
    requires UniqueIds(upcast, s) && k < |s|
    ensures var rest := s[..k] + s[k + 1..];
            (forall x :: x in rest ==> upcast(x).Id() != upcast(s[k]).Id()) &&
            (forall x :: x in s && upcast(x).Id() != upcast(s[k]).Id() ==> x in rest)
  {
    var rest := s[..k] + s[k + 1..];
    assert forall i :: 0 <= i < |rest| ==> rest[i] == if i < k then s[i] else s[i + 1];
    forall x | x in s && upcast(x).Id() != upcast(s[k]).Id() ensures x in rest {
      var i :| 0 <= i < |s| && s[i] == x;
      if i < k { assert rest[i] == x; } else { assert rest[i - 1] == x; }
    }
  }
}
