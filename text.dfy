/** The string primitives the core relies on: `char.IsWhiteSpace`,
    `string.IsNullOrWhiteSpace`, `ToLower`, `Contains` and the argument-less
    `Split()`. */
module Text {

  /** `char.IsWhiteSpace`: the Unicode space, line and paragraph separators
      together with U+0009..U+000D and U+0085. */
  predicate IsWhiteSpace(c: char)
  {
    || ('\U{0009}' <= c <= '\U{000D}')
    || c == '\U{0020}' || c == '\U{0085}' || c == '\U{00A0}' || c == '\U{1680}'
    || ('\U{2000}' <= c <= '\U{200A}')
    || c == '\U{2028}' || c == '\U{2029}' || c == '\U{202F}' || c == '\U{205F}' || c == '\U{3000}'
  }

  /** The non-null half of `string.IsNullOrWhiteSpace`: empty or nothing but white space. */
  predicate IsBlank(s: string)
  {
    forall i :: 0 <= i < |s| ==> IsWhiteSpace(s[i])
  }

  /** Lower-casing of one character (ASCII letters only). */
  function LowerChar(c: char): char
  {
    if 'A' <= c <= 'Z' then (c as int + 32) as char else c
  }

  /** `s.ToLower()`, restricted to ASCII letters. */
  function ToLower(s: string): (r: string)
    ensures |r| == |s|
    ensures forall i :: 0 <= i < |s| ==> r[i] == LowerChar(s[i])
  {
    if s == [] then [] else [LowerChar(s[0])] + ToLower(s[1..])
  }

  /** Lower-casing twice is lower-casing once. */
  lemma ToLowerIdempotent(s: string)
    ensures ToLower(ToLower(s)) == ToLower(s)
  {
  }

  /** `s.Contains(t)`: `t` occurs in `s` as a contiguous block. */
  predicate Contains(s: string, t: string)
    decreases |s|
  {
    t <= s || (|s| > 0 && Contains(s[1..], t))
  }

  /** `Contains` holds exactly when `t` occurs at some offset of `s`. */
  lemma {:induction false} ContainsAt(s: string, t: string)
    ensures Contains(s, t) <==> exists k :: 0 <= k <= |s| && t <= s[k..]
    decreases |s|
  {
    assert s[0..] == s;
    if |s| > 0 {
      ContainsAt(s[1..], t);
      if Contains(s[1..], t) {
        var k :| 0 <= k <= |s[1..]| && t <= s[1..][k..];
        assert s[1..][k..] == s[k + 1..];
      }
      if k :| 0 < k <= |s| && t <= s[k..] {
        assert s[k..] == s[1..][k - 1..];
      }
    }
  }

  /** The empty string occurs in every string. */
  lemma EmptyIsContained(s: string)
    ensures Contains(s, "")
  {
  }

  /** `s.Split()` with no arguments: cut at every white-space character and
      keep the empty pieces between adjacent separators. */
  function Split(s: string): (r: seq<string>)
    ensures |r| >= 1
  {
    if s == [] then [""]
    else
      var rest := Split(s[1..]);
      if IsWhiteSpace(s[0]) then [""] + rest
      else [[s[0]] + rest[0]] + rest[1..]
  }

  /** How many white-space characters `s` holds. */
  function WhiteSpaceCount(s: string): nat
  {
    if s == [] then 0 else (if IsWhiteSpace(s[0]) then 1 else 0) + WhiteSpaceCount(s[1..])
  }

  /** The characters of `s` that are not white space, in order. */
  function NonWhiteSpace(s: string): string
  {
    if s == [] then [] else (if IsWhiteSpace(s[0]) then [] else [s[0]]) + NonWhiteSpace(s[1..])
  }

  /** Concatenation of a sequence of strings. */
  function Concat(parts: seq<string>): string
  {
    if parts == [] then [] else parts[0] + Concat(parts[1..])
  }

  /** What `Split` promises: one more piece than there are separators, no
      piece holds white space, and the pieces put back together are the
      input without its separators. */
  lemma {:induction false} SplitPieces(s: string)
    ensures |Split(s)| == WhiteSpaceCount(s) + 1
    ensures forall k, i :: 0 <= k < |Split(s)| && 0 <= i < |Split(s)[k]| ==> !IsWhiteSpace(Split(s)[k][i])
    ensures Concat(Split(s)) == NonWhiteSpace(s)
  {
    if s != [] {
      var rest := Split(s[1..]);
      SplitPieces(s[1..]);
      if IsWhiteSpace(s[0]) {
        assert Split(s) == [""] + rest;
        assert Concat(Split(s)) == "" + Concat(rest);
      } else {
        var r := Split(s);
        assert r == [[s[0]] + rest[0]] + rest[1..];
        forall k, i | 0 <= k < |r| && 0 <= i < |r[k]| ensures !IsWhiteSpace(r[k][i]) {
          if k == 0 {
            if i > 0 { assert r[0][i] == rest[0][i - 1]; }
          } else {
            assert r[k] == rest[k];
          }
        }
        assert Concat(rest) == rest[0] + Concat(rest[1..]);
        assert Concat(r) == ([s[0]] + rest[0]) + Concat(rest[1..]);
      }
    }
  }

  /** A string without white space splits into itself alone. */
  lemma {:induction false} SplitWithoutSeparators(s: string)
    requires forall i :: 0 <= i < |s| ==> !IsWhiteSpace(s[i])
    ensures Split(s) == [s]
  {
    if s != [] {
      SplitWithoutSeparators(s[1..]);
      assert [s[0]] + s[1..] == s;
    }
  }

  /** The first piece of `Split` runs up to the first separator. */
  lemma {:induction false} SplitAtFirstSeparator(s: string, k: nat)
    requires k < |s| && IsWhiteSpace(s[k])
    requires forall i :: 0 <= i < k ==> !IsWhiteSpace(s[i])
    ensures Split(s) == [s[..k]] + Split(s[k + 1..])
  {
    if k > 0 {
      SplitAtFirstSeparator(s[1..], k - 1);
      assert s[1..][..k - 1] == s[1..k];
      assert s[1..][k..] == s[k + 1..];
      assert [s[0]] + s[1..k] == s[..k];
    }
  }

  /** A string without upper-case ASCII letters is its own lower-case form. */
  lemma ToLowerOfLower(s: string)
    requires forall i :: 0 <= i < |s| ==> !('A' <= s[i] <= 'Z')
    ensures ToLower(s) == s
  {
  }
}
