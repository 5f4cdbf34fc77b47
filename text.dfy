/**
 * The three string operations the catalog query relies on:
 * `toLowerCase`, `includes` and `localeCompare`, on strings of characters
 * (Unicode code points).
 */
module Text {

  /** `toLowerCase` on one character, for the Basic Latin and Latin-1 letters. */
  function LowerChar(c: char): (l: char)
  {
    if 'A' <= c <= 'Z' || ('\U{C0}' <= c <= '\U{DE}' && c != '\U{D7}') then (c as int + 32) as char else c
  }

  /**
   * `String.prototype.toLowerCase`, one character at a time: the length is kept,
   * the result has no capitals left, capital ASCII letters become their small
   * letters, and small letters and digits stay as they are.
   */
  function ToLower(s: string): (r: string)
    ensures |r| == |s|
    ensures forall i :: 0 <= i < |r| ==> LowerChar(r[i]) == r[i]
    ensures forall i :: 0 <= i < |s| && 'A' <= s[i] <= 'Z' ==> r[i] as int == s[i] as int + 32
    ensures forall i :: 0 <= i < |s| && ('a' <= s[i] <= 'z' || '0' <= s[i] <= '9') ==> r[i] == s[i]
  {
    seq(|s|, i requires 0 <= i < |s| => LowerChar(s[i]))
  }

  /** Lower-casing a substring gives the matching substring of the lower-cased text. */
  lemma ToLowerSlice(s: string, i: nat, j: nat)
    requires i <= j <= |s|
    ensures ToLower(s)[i..j] == ToLower(s[i..j])
  {
  }

  /** `t` occurs in `s` starting at index `k`. */
  predicate OccursAt(s: string, t: string, k: int)
  {
    0 <= k && k + |t| <= |s| && s[k..k + |t|] == t
  }

  /**
   * `String.prototype.includes(t)`, searching `s` from its first character onwards:
   * the empty text is found everywhere, and nothing longer than `s` is found in it.
   */
  function Includes(s: string, t: string): (b: bool)
    ensures t == [] ==> b
    ensures b ==> |t| <= |s|
    decreases |s|
  {
    if |s| < |t| then false
    else if s[..|t|] == t then true
    else Includes(s[1..], t)
  }

  /** `Includes` is exactly "there is a position where `t` occurs". */
  lemma {:induction false} IncludesIff(s: string, t: string)
    ensures Includes(s, t) <==> exists k :: OccursAt(s, t, k)
    decreases |s|
  {
    if |s| < |t| {
    } else if s[..|t|] == t {
      assert OccursAt(s, t, 0);
    } else {
      IncludesIff(s[1..], t);
      if Includes(s[1..], t) {
        var k :| OccursAt(s[1..], t, k);
        assert s[1..][k..k + |t|] == s[k + 1..k + 1 + |t|];
        assert OccursAt(s, t, k + 1);
      }
      if exists k :: OccursAt(s, t, k) {
        var k :| OccursAt(s, t, k);
        assert k != 0;
        assert s[1..][k - 1..k - 1 + |t|] == s[k..k + |t|];
        assert OccursAt(s[1..], t, k - 1);
      }
    }
  }

  /** `t` occurs in `s` at index `k` when letter case is ignored. */
  predicate OccursIgnoringCase(s: string, t: string, k: int)
  {
    0 <= k && k + |t| <= |s| && ToLower(s[k..k + |t|]) == ToLower(t)
  }

  /**
   * Searching the lower-cased text for the lower-cased needle finds the needle
   * exactly where it occurs in any casing: the search is case-insensitive.
   */
  lemma IncludesIgnoresCase(s: string, t: string)
    ensures Includes(ToLower(s), ToLower(t)) <==> exists k :: OccursIgnoringCase(s, t, k)
  {
    IncludesIff(ToLower(s), ToLower(t));
    forall k | 0 <= k && k + |t| <= |s|
      ensures OccursAt(ToLower(s), ToLower(t), k) <==> OccursIgnoringCase(s, t, k)
    {
      ToLowerSlice(s, k, k + |t|);
    }
  }

  /**
   * `String.prototype.localeCompare`, taken as the order of characters:
   * negative when `a` comes first, zero when the strings are equal, positive otherwise.
   */
  function LocaleCompare(a: string, b: string): (r: int)
    ensures -1 <= r <= 1
    ensures r == 0 <==> a == b
  {
    if a == [] && b == [] then 0
    else if a == [] then -1
    else if b == [] then 1
    else if a[0] < b[0] then -1
    else if b[0] < a[0] then 1
    else
      assert a == [a[0]] + a[1..] && b == [b[0]] + b[1..];
      LocaleCompare(a[1..], b[1..])
  }

  /** Swapping the arguments flips the sign. */
  lemma {:induction false} LocaleCompareAntisymmetric(a: string, b: string)
    ensures LocaleCompare(b, a) == -LocaleCompare(a, b)
  {
    if a != [] && b != [] && a[0] == b[0] {
      LocaleCompareAntisymmetric(a[1..], b[1..]);
    }
  }

  /** "Comes no later than" is transitive. */
  lemma {:induction false} LocaleCompareTransitive(a: string, b: string, c: string)
    requires LocaleCompare(a, b) <= 0 && LocaleCompare(b, c) <= 0
    ensures LocaleCompare(a, c) <= 0
  {
    if a != [] && b != [] && c != [] && a[0] == b[0] == c[0] {
      LocaleCompareTransitive(a[1..], b[1..], c[1..]);
    }
  }
}
