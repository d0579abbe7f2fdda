/**
 The parts of Go's `strings` and `unicode` packages that the tool relies on:
 prefix and suffix tests, occurrence tests and `TrimSpace`.
 Strings are sequences of Unicode code points.
 */
module Strings {

  /** `unicode.IsSpace`: the Unicode White_Space property. */
  predicate IsSpace(c: char) {
    var n := c as int;
    || (0x09 <= n <= 0x0D) || n == 0x20 || n == 0x85 || n == 0xA0
    || n == 0x1680 || (0x2000 <= n <= 0x200A)
    || n == 0x2028 || n == 0x2029 || n == 0x202F || n == 0x205F || n == 0x3000
  }

  /** `strings.HasPrefix`. */
  predicate HasPrefix(s: string, p: string) {
    |p| <= |s| && s[..|p|] == p
  }

  /** `strings.HasSuffix`. */
  predicate HasSuffix(s: string, p: string) {
    |p| <= |s| && s[|s| - |p|..] == p
  }

  /** No occurrence of `pat` starts anywhere in `s`. */
  predicate NoOccurrence(s: string, pat: string) {
    forall k | 0 <= k <= |s| :: !HasPrefix(s[k..], pat)
  }

  /** Number of white-space code points at the start of `s`. */
  function LeadingSpaces(s: string): (i: nat)
    ensures i <= |s|
    ensures forall k | 0 <= k < i :: IsSpace(s[k])
    ensures i < |s| ==> !IsSpace(s[i])
  {
    if s == [] || !IsSpace(s[0]) then 0 else 1 + LeadingSpaces(s[1..])
  }

  /** Index just past the last code point of `s` that is not white space (0 when there is none). */
  function TrimmedEnd(s: string): (j: nat)
    ensures j <= |s|
    ensures forall k | j <= k < |s| :: IsSpace(s[k])
    ensures j > 0 ==> !IsSpace(s[j - 1])
  {
    if s == [] || !IsSpace(s[|s| - 1]) then |s| else TrimmedEnd(s[..|s| - 1])
  }

  /**
   `strings.TrimSpace`: `s` without its leading and trailing white space.
   The result is empty exactly when `s` is all white space; otherwise it starts
   and ends with a code point that is not white space.
   */
  function TrimSpace(s: string): (r: string)
    ensures r == [] <==> forall k | 0 <= k < |s| :: IsSpace(s[k])
    ensures r != [] ==> !IsSpace(r[0]) && !IsSpace(r[|r| - 1])
    ensures |r| <= |s|
  {
    var i := LeadingSpaces(s);
    if i == |s| then [] else s[i..TrimmedEnd(s)]
  }

  /**
   The result of `TrimSpace` is the slice of `s` left once a white-space prefix
   and a white-space suffix are cut off.
   */
  lemma TrimSpaceIsSlice(s: string)
    ensures exists i, j | 0 <= i <= j <= |s| ::
              && TrimSpace(s) == s[i..j]
              && (forall k | 0 <= k < i :: IsSpace(s[k]))
              && (forall k | j <= k < |s| :: IsSpace(s[k]))
  {
    var i := LeadingSpaces(s);
    if i == |s| {
      assert TrimSpace(s) == s[i..i];
    } else {
      var j := TrimmedEnd(s);
      assert TrimSpace(s) == s[i..j];
    }
  }

  /** A code point that does not occur in `s` does not occur in `TrimSpace(s)`. */
  lemma TrimSpaceChars(s: string, c: char)
    requires c !in s
    ensures c !in TrimSpace(s)
  {
    TrimSpaceIsSlice(s);
  }

  /**
   When `s` does not start with white space, trimming keeps a prefix of `s`
   that reaches at least up to its last code point that is not white space.
   */
  lemma TrimSpaceKeepsPrefix(s: string, n: nat)
    requires s != [] && !IsSpace(s[0])
    requires 0 < n <= |s| && !IsSpace(s[n - 1])
    ensures HasPrefix(s, TrimSpace(s))
    ensures n <= |TrimSpace(s)|
  {
    var j := TrimmedEnd(s);
    assert LeadingSpaces(s) == 0;
    assert TrimSpace(s) == s[..j];
  }

  /** A suffix of a suffix of `s` is a suffix of `s`. */
  lemma SuffixOfSuffix(s: string, p: string, q: string)
    ensures HasSuffix(s, p) && HasSuffix(p, q) ==> HasSuffix(s, q)
  {
    if HasSuffix(s, p) && HasSuffix(p, q) {
      assert s[|s| - |q|..] == s[|s| - |p|..][|p| - |q|..];
    }
  }

  /** Regrouping a concatenation whose two parts are known separately. */
  lemma Regroup<T>(whole: seq<T>, left: seq<T>, x: seq<T>, l: seq<T>, r: seq<T>)
    requires whole == x + (l + r) && left == x + l
    ensures whole == left + r
  {
  }

  lemma DropOfAppend<T>(a: seq<T>, b: seq<T>, n: nat)
    requires n <= |a|
    ensures (a + b)[n..] == a[n..] + b
  {
  }
}
