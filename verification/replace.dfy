/**
 `strings.Replace(s, old, "", -1)`: every non-overlapping occurrence of `old`,
 found left to right, is deleted. `DeleteAll` is the reference definition and
 `ReplaceWithEmpty` follows the library's loop over `strings.Index`.
 */
module Replace {
  import opened Strings

  /** `strings.Index`: the first position where `pat` occurs in `s`, or -1. */
  function Index(s: string, pat: string): (i: int)
    ensures -1 <= i <= |s|
    ensures i >= 0 ==> HasPrefix(s[i..], pat)
    ensures i >= 0 ==> forall k | 0 <= k < i :: !HasPrefix(s[k..], pat)
    ensures i < 0 <==> NoOccurrence(s, pat)
    decreases |s|
  {
    if HasPrefix(s, pat) then 0
    else if s == [] then -1
    else
      assert forall k | 1 <= k <= |s| :: s[k..] == s[1..][k - 1..];
      if Index(s[1..], pat) < 0 then -1 else Index(s[1..], pat) + 1
  }

  /** Deletes every occurrence of `pat` met scanning left to right; an empty pattern deletes nothing. */
  function DeleteAll(s: string, pat: string): (r: string)
    ensures |r| <= |s|
    decreases |s|
  {
    if pat == [] || s == [] then s
    else if HasPrefix(s, pat) then DeleteAll(s[|pat|..], pat)
    else [s[0]] + DeleteAll(s[1..], pat)
  }

  /** Code points before the first occurrence are copied unchanged. */
  lemma {:induction false} DeleteAllSkip(s: string, pat: string, i: nat)
    requires i <= |s|
    requires forall k | 0 <= k < i :: !HasPrefix(s[k..], pat)
    ensures DeleteAll(s, pat) == s[..i] + DeleteAll(s[i..], pat)
    decreases i
  {
    if i > 0 {
      var tail := s[1..];
      assert !HasPrefix(s, pat) by {
        assert s[0..] == s;
      }
      forall k | 0 <= k < i - 1
        ensures !HasPrefix(tail[k..], pat)
      {
        assert tail[k..] == s[k + 1..];
      }
      DeleteAllSkip(tail, pat, i - 1);
      assert tail[i - 1..] == s[i..];
      assert DeleteAll(s, pat) == [s[0]] + (tail[..i - 1] + DeleteAll(s[i..], pat));
      assert s[..i] == [s[0]] + tail[..i - 1];
      Regroup(DeleteAll(s, pat), s[..i], [s[0]], tail[..i - 1], DeleteAll(s[i..], pat));
    } else {
      assert s[..0] + DeleteAll(s[0..], pat) == DeleteAll(s, pat);
    }
  }

  /** Deleting from text that does not contain the pattern changes nothing. */
  lemma DeleteAllAbsent(s: string, pat: string)
    requires NoOccurrence(s, pat) || pat == []
    ensures DeleteAll(s, pat) == s
  {
    if pat != [] {
      DeleteAllSkip(s, pat, |s|);
      assert s[|s|..] == [];
    }
  }

  /** An occurrence of a non-empty pattern always makes the text shorter. */
  lemma {:induction false} DeleteAllShrinks(s: string, pat: string, k: nat)
    requires pat != [] && k <= |s| && HasPrefix(s[k..], pat)
    ensures |DeleteAll(s, pat)| < |s|
    decreases k
  {
    if !HasPrefix(s, pat) {
      assert s[0..] == s;
      assert k > 0;
      assert s[1..][k - 1..] == s[k..];
      DeleteAllShrinks(s[1..], pat, k - 1);
    }
  }

  /** Deletion leaves the text unchanged exactly when the pattern does not occur in it. */
  lemma DeleteAllUnchanged(s: string, pat: string)
    requires pat != []
    ensures DeleteAll(s, pat) == s <==> NoOccurrence(s, pat)
  {
    if NoOccurrence(s, pat) {
      DeleteAllAbsent(s, pat);
    } else {
      var k :| 0 <= k <= |s| && HasPrefix(s[k..], pat);
      DeleteAllShrinks(s, pat, k);
    }
  }

  /** A leading occurrence of the pattern is deleted. */
  lemma DeleteAllLeading(pat: string, s: string)
    requires pat != []
    ensures DeleteAll(pat + s, pat) == DeleteAll(s, pat)
  {
    assert (pat + s)[..|pat|] == pat;
    assert (pat + s)[|pat|..] == s;
  }

  /** Deleting at the first occurrence of the pattern. */
  lemma DeleteAllAt(s: string, pat: string, j: nat)
    requires pat != [] && j <= |s| && HasPrefix(s[j..], pat)
    requires forall k | 0 <= k < j :: !HasPrefix(s[k..], pat)
    ensures DeleteAll(s, pat) == s[..j] + DeleteAll(s[j + |pat|..], pat)
  {
    DeleteAllSkip(s, pat, j);
    assert s[j..] == pat + s[j + |pat|..] by {
      assert s[j..][..|pat|] == pat;
    }
    DeleteAllLeading(pat, s[j + |pat|..]);
  }

  /**
   The library's loop for an empty replacement: find the next occurrence with
   `Index`, copy what lies before it, skip the occurrence, and copy what is
   left once no occurrence remains.
   */
  method ReplaceWithEmpty(s: string, target: string) returns (r: string)
    ensures r == DeleteAll(s, target)
  {
    if target == [] {
      return s;
    }
    r := [];
    var rest := s;
    var j := Index(rest, target);
    while j >= 0
      invariant j == Index(rest, target)
      invariant r + DeleteAll(rest, target) == DeleteAll(s, target)
      decreases |rest|
    {
      var piece := rest[..j];
      var after := rest[j + |target|..];
      DeleteAllAt(rest, target, j);
      Regroup(DeleteAll(s, target), r + piece, r, piece, DeleteAll(after, target));
      r := r + piece;
      rest := after;
      j := Index(rest, target);
    }
    DeleteAllAbsent(rest, target);
    r := r + rest;
  }
}
