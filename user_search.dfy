/** The free-text search of the user repository: the query is lower-cased
    and split on white space, and a user matches when any token occurs in
    any of six searched fields, lower-cased. */
module UserSearch {
  import opened Wrappers
  import opened Text
  import ReadByAllUserTier

  type User = ReadByAllUserTier.ReadByAllUser

  /** The fields the search looks at. */
  datatype SearchField = FirstName | LastName | FacebookName | City | Region | Occupation

  function FieldValue(u: User, f: SearchField): Option<string>
  {
    match f
    case FirstName => u.base.firstName
    case LastName => u.base.lastName
    case FacebookName => u.base.facebookName
    case City => u.base.city
    case Region => u.base.region
    case Occupation => u.base.occupation
  }

  /** `user.F != null && user.F.ToLower().Contains(token)`. */
  predicate Hit(u: User, f: SearchField, token: string)
  {
    FieldValue(u, f).Some? && Contains(ToLower(FieldValue(u, f).value), token)
  }

  /** What the search means: some token is found in some searched field. */
  predicate MatchesQuery(tokens: seq<string>, u: User)
  {
    exists i, f :: 0 <= i < |tokens| && Hit(u, f, tokens[i])
  }

  /** The six tests the builder adds for one token, in the order it adds them. */
  predicate TokenHits(u: User, token: string)
  {
    Hit(u, FirstName, token) || Hit(u, LastName, token) || Hit(u, FacebookName, token) ||
    Hit(u, City, token) || Hit(u, Region, token) || Hit(u, Occupation, token)
  }

  lemma TokenHitsSomeField(u: User, token: string)
    ensures TokenHits(u, token) <==> exists f :: Hit(u, f, token)
  {
    forall f | Hit(u, f, token) ensures TokenHits(u, token) {
      match f
      case FirstName =>
      case LastName =>
      case FacebookName =>
      case City =>
      case Region =>
      case Occupation =>
    }
  }

  /** The predicate under construction: LinqKit's starter, which matches
      nothing, extended one `Or` at a time. */
  datatype Predicate = Nothing | Or(left: Predicate, field: SearchField, token: string)

  function Eval(p: Predicate, u: User): bool
  {
    match p
    case Nothing => false
    case Or(left, f, token) => Eval(left, u) || Hit(u, f, token)
  }

  /** The `foreach` over the tokens that ORs six field tests per token into the predicate. */
  method BuildPredicate(tokens: seq<string>) returns (p: Predicate)
    ensures forall u :: Eval(p, u) <==> MatchesQuery(tokens, u)
  {
    p := Nothing;
    var i := 0;
    while i < |tokens|
      invariant 0 <= i <= |tokens|
      invariant forall u :: Eval(p, u) <==> exists j :: 0 <= j < i && TokenHits(u, tokens[j])
    {
      var q := tokens[i];
      ghost var before := p;
      p := Or(p, FirstName, q);
      p := Or(p, LastName, q);
      p := Or(p, FacebookName, q);
      p := Or(p, City, q);
      p := Or(p, Region, q);
      p := Or(p, Occupation, q);
      forall u ensures Eval(p, u) <==> Eval(before, u) || TokenHits(u, q) {
        AddedTokenTests(before, q, u);
      }
      i := i + 1;
    }
    forall u ensures Eval(p, u) <==> MatchesQuery(tokens, u) {
      forall j | 0 <= j < |tokens| {
        TokenHitsSomeField(u, tokens[j]);
      }
    }
  }

  /** Unfolding the six `Or`s added for one token. */
  lemma AddedTokenTests(p: Predicate, q: string, u: User)
    ensures var added := Or(Or(Or(Or(Or(Or(p, FirstName, q), LastName, q), FacebookName, q), City, q), Region, q), Occupation, q);
            Eval(added, u) <==> Eval(p, u) || TokenHits(u, q)
  {
    var p1 := Or(p, FirstName, q);
    var p2 := Or(p1, LastName, q);
    var p3 := Or(p2, FacebookName, q);
    var p4 := Or(p3, City, q);
    var p5 := Or(p4, Region, q);
    assert Eval(Or(p5, Occupation, q), u) == (Eval(p5, u) || Hit(u, Occupation, q));
    assert Eval(p5, u) == (Eval(p4, u) || Hit(u, Region, q));
    assert Eval(p4, u) == (Eval(p3, u) || Hit(u, City, q));
    assert Eval(p3, u) == (Eval(p2, u) || Hit(u, FacebookName, q));
    assert Eval(p2, u) == (Eval(p1, u) || Hit(u, LastName, q));
  }

  /** A user whose six searched fields are all null matches no query. */
  lemma NullFieldsNeverMatch(tokens: seq<string>, u: User)
    requires forall f :: FieldValue(u, f).None?
    ensures !MatchesQuery(tokens, u)
  {
  }

  /** An empty token, which `Split` yields between adjacent white space,
      matches every user with at least one searched field set. */
  lemma EmptyTokenMatchesAnySetField(tokens: seq<string>, u: User, f: SearchField)
    requires "" in tokens && FieldValue(u, f).Some?
    ensures MatchesQuery(tokens, u)
  {
    var i :| 0 <= i < |tokens| && tokens[i] == "";
    EmptyIsContained(ToLower(FieldValue(u, f).value));
    assert Hit(u, f, tokens[i]);
  }

  /** "jane surf" lower-cases to itself and splits into "jane" and "surf". */
  lemma JaneSurfTokens()
    ensures Split(ToLower("jane surf")) == ["jane", "surf"]
  {
    JaneSurfIsLower();
    JaneSurfSplit();
  }

  lemma JaneSurfIsLower()
    ensures ToLower("jane surf") == "jane surf"
  {
    ToLowerOfLower("jane surf");
  }

  lemma JaneSurfSplit()
    ensures Split("jane surf") == ["jane", "surf"]
  {
    var s := "jane surf";
    assert s[..4] == "jane" && s[5..] == "surf" && s[4] == ' ';
    LettersAreNotWhiteSpace("jane");
    LettersAreNotWhiteSpace("surf");
    SplitAtFirstSeparator(s, 4);
    SplitWithoutSeparators("surf");
  }

  /** Lower-case ASCII letters are not white space. */
  lemma LettersAreNotWhiteSpace(w: string)
    requires forall i :: 0 <= i < |w| ==> 'a' <= w[i] <= 'z'
    ensures forall i :: 0 <= i < |w| ==> !IsWhiteSpace(w[i])
  {
  }

  /** "jane surf" finds Jane of Oceanside, because the first token occurs in
      her lower-cased first name. */
  lemma JaneMatches(jane: User)
    requires jane.base.firstName == Some("Jane") && jane.base.city == Some("Oceanside")
    ensures MatchesQuery(Split(ToLower("jane surf")), jane)
  {
    JaneSurfTokens();
    assert ToLower("Jane") == "jane";
    assert "jane" <= "jane";
    assert Hit(jane, FirstName, ["jane", "surf"][0]);
  }

  /** "jane surf" does not find Bob of Denver, whose other searched fields are null. */
  lemma BobDoesNotMatch(bob: User)
    requires bob.base.firstName == Some("Bob") && bob.base.city == Some("Denver")
    requires bob.base.lastName.None? && bob.base.facebookName.None?
    requires bob.base.region.None? && bob.base.occupation.None?
    ensures !MatchesQuery(Split(ToLower("jane surf")), bob)
  {
    JaneSurfTokens();
    BobMissesTokens(bob);
  }

  lemma BobMissesTokens(bob: User)
    requires bob.base.firstName == Some("Bob") && bob.base.city == Some("Denver")
    requires bob.base.lastName.None? && bob.base.facebookName.None?
    requires bob.base.region.None? && bob.base.occupation.None?
    ensures !MatchesQuery(["jane", "surf"], bob)
  {
    BobAndDenverMissTokens();
    assert !TokenHits(bob, "jane") && !TokenHits(bob, "surf");
    NoTokenHitsNoMatch(["jane", "surf"], bob);
  }

  lemma BobAndDenverMissTokens()
    ensures !Contains(ToLower("Bob"), "jane") && !Contains(ToLower("Bob"), "surf")
    ensures !Contains(ToLower("Denver"), "jane") && !Contains(ToLower("Denver"), "surf")
  {
    assert forall i :: 0 <= i < 3 ==> "Bob"[i] in "Bob";
    FirstCharMissing("Bob", "jane");
    FirstCharMissing("Bob", "surf");
    FirstCharMissing("Denver", "jane");
    FirstCharMissing("Denver", "surf");
  }

  /** A user none of whose searched fields holds any token matches nothing. */
  lemma NoTokenHitsNoMatch(tokens: seq<string>, u: User)
    requires forall i :: 0 <= i < |tokens| ==> !TokenHits(u, tokens[i])
    ensures !MatchesQuery(tokens, u)
  {
    forall i | 0 <= i < |tokens| {
      TokenHitsSomeField(u, tokens[i]);
    }
  }

  /** A token whose first character is not among the lower-cased characters of `s`. */
  lemma FirstCharMissing(s: string, t: string)
    requires |t| > 0 && forall i :: 0 <= i < |s| ==> LowerChar(s[i]) != t[0]
    ensures !Contains(ToLower(s), t)
  {
    NotContained(ToLower(s), t);
  }

  /** A token whose first character does not occur in `s` is not contained in it. */
  lemma {:induction false} NotContained(s: string, t: string)
    requires |t| > 0 && forall i :: 0 <= i < |s| ==> s[i] != t[0]
    ensures !Contains(s, t)
    decreases |s|
  {
    if |s| > 0 {
      assert s[0] != t[0];
      assert !(t <= s);
      assert forall i :: 0 <= i < |s[1..]| ==> s[1..][i] == s[i + 1];
      NotContained(s[1..], t);
    } else {
      assert !(t <= s);
    }
  }
}
