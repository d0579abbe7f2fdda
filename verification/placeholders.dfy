/**
 The replacer built by `strings.NewReplacer("@@owner@@", owner, "@@year@@", year)`:
 a single left-to-right pass that replaces each placeholder it meets and copies
 every other code point, never rescanning replaced text.
 */
module Placeholders {
  import opened Strings
  import opened Scanner

  const OwnerPlaceholder: string := "@@owner@@"
  const YearPlaceholder: string := "@@year@@"

  /**
   The replacer's `Replace`. At each position the first pattern in argument
   order that matches wins; the two patterns differ in their third code point,
   so at most one of them can match.
   */
  function Substitute(s: string, owner: string, year: string): (r: string)
    ensures NoPlaceholder(s) ==> r == s
    decreases |s|
  {
    NoPlaceholderStep(s);
    if s == [] then []
    else if HasPrefix(s, OwnerPlaceholder) then owner + Substitute(s[|OwnerPlaceholder|..], owner, year)
    else if HasPrefix(s, YearPlaceholder) then year + Substitute(s[|YearPlaceholder|..], owner, year)
    else [s[0]] + Substitute(s[1..], owner, year)
  }

  /** No placeholder occurs anywhere in `s`. */
  predicate NoPlaceholder(s: string) {
    NoOccurrence(s, OwnerPlaceholder) && NoOccurrence(s, YearPlaceholder)
  }

  /** The two patterns never match at the same position. */
  lemma PlaceholdersExclusive(s: string)
    ensures !(HasPrefix(s, OwnerPlaceholder) && HasPrefix(s, YearPlaceholder))
  {
    if HasPrefix(s, OwnerPlaceholder) {
      assert s[2] == 'o';
    }
  }

  /**
   A placeholder-free text does not start with a placeholder, and dropping its
   first code point leaves it placeholder-free.
   */
  lemma NoPlaceholderStep(s: string)
    ensures NoPlaceholder(s) ==> !HasPrefix(s, OwnerPlaceholder) && !HasPrefix(s, YearPlaceholder)
    ensures NoPlaceholder(s) && s != [] ==> NoPlaceholder(s[1..])
  {
    assert s[0..] == s;
    if NoPlaceholder(s) && s != [] {
      forall k | 0 <= k <= |s[1..]|
        ensures !HasPrefix(s[1..][k..], OwnerPlaceholder) && !HasPrefix(s[1..][k..], YearPlaceholder)
      {
        assert s[1..][k..] == s[k + 1..];
      }
    }
  }

  /** A replaced placeholder contributes its replacement and nothing is rescanned. */
  lemma SubstituteNoRescan(s: string, owner: string, year: string)
    ensures Substitute(OwnerPlaceholder + s, owner, year) == owner + Substitute(s, owner, year)
    ensures Substitute(YearPlaceholder + s, owner, year) == year + Substitute(s, owner, year)
  {
    assert (OwnerPlaceholder + s)[..|OwnerPlaceholder|] == OwnerPlaceholder;
    assert (OwnerPlaceholder + s)[|OwnerPlaceholder|..] == s;
    assert (YearPlaceholder + s)[..|YearPlaceholder|] == YearPlaceholder;
    assert (YearPlaceholder + s)[|YearPlaceholder|..] == s;
    PlaceholdersExclusive(YearPlaceholder + s);
  }

  /** A text that starts with a code point other than `'@'` has that code point copied. */
  lemma SubstitutePlain(t: string, owner: string, year: string)
    requires t != [] && t[0] != '@'
    ensures Substitute(t, owner, year) == [t[0]] + Substitute(t[1..], owner, year)
  {
    if |t| >= |YearPlaceholder| {
      assert t[..|YearPlaceholder|][0] == t[0];
    }
    if |t| >= |OwnerPlaceholder| {
      assert t[..|OwnerPlaceholder|][0] == t[0];
    }
  }

  /** Text free of `'@'` is copied through verbatim ahead of whatever follows it. */
  lemma {:induction false} SubstituteVerbatim(p: string, s: string, owner: string, year: string)
    requires '@' !in p
    ensures Substitute(p + s, owner, year) == p + Substitute(s, owner, year)
    decreases |p|
  {
    if p == [] {
      assert p + s == s;
    } else {
      var t := p + s;
      SubstitutePlain(t, owner, year);
      assert t[1..] == p[1..] + s;
      SubstituteVerbatim(p[1..], s, owner, year);
      Regroup(Substitute(t, owner, year), p, [p[0]], p[1..], Substitute(s, owner, year));
    }
  }

  /** Whether `a + b` is split at a line boundary. */
  predicate AtLineBreak(a: string, b: string) {
    a == [] || b == [] || a[|a| - 1] == '\n' || b[0] == '\n'
  }

  /** A pattern without newlines that matches at the start of `a + b` lies inside `a`. */
  lemma NoSpanningMatch(a: string, b: string, p: string)
    requires AtLineBreak(a, b) && a != []
    requires '\n' !in p
    requires HasPrefix(a + b, p)
    ensures HasPrefix(a, p)
  {
    var t := a + b;
    assert forall k | 0 <= k < |p| :: t[k] == p[k];
    if a[|a| - 1] == '\n' {
      assert t[|a| - 1] == '\n';
    } else if b != [] {
      assert t[|a|] == b[0];
    }
    assert t[..|p|] == a[..|p|];
  }

  /** How many code points the replacer consumes at the start of non-empty `s`. */
  function MatchLength(s: string): (n: nat)
    requires s != []
    ensures 1 <= n <= |s|
  {
    if HasPrefix(s, OwnerPlaceholder) then |OwnerPlaceholder|
    else if HasPrefix(s, YearPlaceholder) then |YearPlaceholder|
    else 1
  }

  /** What the replacer writes for the code points `MatchLength` consumes. */
  function Emitted(s: string, owner: string, year: string): string
    requires s != []
  {
    if HasPrefix(s, OwnerPlaceholder) then owner
    else if HasPrefix(s, YearPlaceholder) then year
    else [s[0]]
  }

  lemma SubstituteStep(s: string, owner: string, year: string)
    requires s != []
    ensures Substitute(s, owner, year) == Emitted(s, owner, year) + Substitute(s[MatchLength(s)..], owner, year)
  {
  }

  /** At a line boundary, the step taken at the start of `a + b` is the step taken at the start of `a`. */
  lemma StepAtLineBreak(a: string, b: string, owner: string, year: string)
    requires AtLineBreak(a, b) && a != []
    ensures MatchLength(a + b) == MatchLength(a)
    ensures Emitted(a + b, owner, year) == Emitted(a, owner, year)
  {
    var t := a + b;
    assert t[0] == a[0];
    PrefixOfAppend(a, b, OwnerPlaceholder);
    PrefixOfAppend(a, b, YearPlaceholder);
  }

  lemma PrefixOfAppend(a: string, b: string, p: string)
    requires AtLineBreak(a, b) && a != []
    requires '\n' !in p
    ensures HasPrefix(a + b, p) <==> HasPrefix(a, p)
  {
    if HasPrefix(a + b, p) {
      NoSpanningMatch(a, b, p);
    }
    if HasPrefix(a, p) {
      assert (a + b)[..|p|] == a[..|p|];
    }
  }

  lemma AtLineBreakDrop(a: string, b: string, n: nat)
    requires AtLineBreak(a, b) && n <= |a|
    ensures AtLineBreak(a[n..], b)
  {
    if a[n..] != [] && b != [] && b[0] != '\n' {
      assert a[n..][|a[n..]| - 1] == a[|a| - 1];
    }
  }

  /** Replacement commutes with concatenation at a line boundary. */
  lemma {:induction false} SubstituteAppend(a: string, b: string, owner: string, year: string)
    requires AtLineBreak(a, b)
    ensures Substitute(a + b, owner, year) == Substitute(a, owner, year) + Substitute(b, owner, year)
    decreases |a|
  {
    if a == [] {
      assert a + b == b;
    } else {
      var n := MatchLength(a);
      var e := Emitted(a, owner, year);
      StepAtLineBreak(a, b, owner, year);
      SubstituteStep(a + b, owner, year);
      SubstituteStep(a, owner, year);
      DropOfAppend(a, b, n);
      AtLineBreakDrop(a, b, n);
      SubstituteAppend(a[n..], b, owner, year);
      Regroup(Substitute(a + b, owner, year), Substitute(a, owner, year),
              e, Substitute(a[n..], owner, year), Substitute(b, owner, year));
    }
  }

  /** Replacement works part by part on text made of newline-terminated parts and a tail. */
  lemma SubstituteAppend3(a: string, b: string, c: string, owner: string, year: string)
    requires a == [] || a[|a| - 1] == '\n'
    requires b == [] || b[|b| - 1] == '\n'
    ensures Substitute(a + b + c, owner, year)
            == Substitute(a, owner, year) + Substitute(b, owner, year) + Substitute(c, owner, year)
  {
    assert a + b + c == a + (b + c);
    assert AtLineBreak(a, b + c);
    assert AtLineBreak(b, c);
    SubstituteAppend(a, b + c, owner, year);
    SubstituteAppend(b, c, owner, year);
    Regroup(Substitute(a + b + c, owner, year), Substitute(a, owner, year) + Substitute(b, owner, year),
            Substitute(a, owner, year), Substitute(b, owner, year), Substitute(c, owner, year));
  }

  /** Replacement applied to every line. */
  function SubstituteEach(ls: seq<string>, owner: string, year: string): (r: seq<string>)
    ensures |r| == |ls|
    ensures forall k | 0 <= k < |ls| :: r[k] == Substitute(ls[k], owner, year)
  {
    if ls == [] then [] else [Substitute(ls[0], owner, year)] + SubstituteEach(ls[1..], owner, year)
  }

  /** Replacing in newline-terminated lines is replacing in each line. */
  lemma {:induction false} SubstituteTerminated(ls: seq<string>, owner: string, year: string)
    ensures Substitute(Terminated(ls), owner, year) == Terminated(SubstituteEach(ls, owner, year))
    decreases |ls|
  {
    if ls != [] {
      var l := ls[0];
      var rest := Terminated(ls[1..]);
      assert Terminated(ls) == (l + "\n") + rest;
      SubstituteAppend(l + "\n", rest, owner, year);
      SubstituteAppend(l, "\n", owner, year);
      assert Substitute("\n", owner, year) == "\n";
      SubstituteTerminated(ls[1..], owner, year);
      assert SubstituteEach(ls, owner, year)[1..] == SubstituteEach(ls[1..], owner, year);
    }
  }

  /** A code point absent from the text and from both replacements is absent from the result. */
  lemma {:induction false} SubstituteChars(s: string, owner: string, year: string, c: char)
    requires c !in s && c !in owner && c !in year
    ensures c !in Substitute(s, owner, year)
    decreases |s|
  {
    if s != [] {
      if HasPrefix(s, OwnerPlaceholder) {
        assert c !in s[|OwnerPlaceholder|..];
        SubstituteChars(s[|OwnerPlaceholder|..], owner, year, c);
      } else if HasPrefix(s, YearPlaceholder) {
        assert c !in s[|YearPlaceholder|..];
        SubstituteChars(s[|YearPlaceholder|..], owner, year, c);
      } else {
        assert c !in s[1..];
        SubstituteChars(s[1..], owner, year, c);
      }
    }
  }

  /** A newline-terminated text stays newline-terminated. */
  lemma SubstituteKeepsFinalNewline(s: string, owner: string, year: string)
    requires s != [] && s[|s| - 1] == '\n'
    ensures var r := Substitute(s, owner, year); r != [] && r[|r| - 1] == '\n'
  {
    assert s == s[..|s| - 1] + "\n";
    SubstituteAppend(s[..|s| - 1], "\n", owner, year);
    assert Substitute("\n", owner, year) == "\n";
  }
}
