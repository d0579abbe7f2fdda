/**
 Line splitting as done by a `bufio.Scanner` with the default `bufio.ScanLines`
 split function, and its partner: writing each line back followed by `"\n"`.
 */
module Scanner {
  import opened Strings

  /** `dropCR`: removes one trailing carriage return. */
  function DropCR(s: string): string {
    if s != [] && s[|s| - 1] == '\r' then s[..|s| - 1] else s
  }

  /** `bytes.IndexByte(s, '\n')`, answering `|s|` when there is no newline. */
  function IndexOfNewline(s: string): (i: nat)
    ensures i <= |s|
    ensures forall k | 0 <= k < i :: s[k] != '\n'
    ensures i < |s| ==> s[i] == '\n'
  {
    if s == [] || s[0] == '\n' then 0 else 1 + IndexOfNewline(s[1..])
  }

  /**
   The tokens a line scanner yields for `s`: lines end at `"\n"`, which is not
   part of the token, one trailing `'\r'` is dropped, a final line without
   `"\n"` is still a token, no empty token follows a final `"\n"`, and the
   empty input yields no token at all.
   */
  function Lines(s: string): (ls: seq<string>)
    ensures ls == [] <==> s == []
    decreases |s|
  {
    if s == [] then []
    else if IndexOfNewline(s) < |s| then [DropCR(s[..IndexOfNewline(s)])] + Lines(s[IndexOfNewline(s) + 1..])
    else [DropCR(s)]
  }

  /** Each line written back followed by a single `"\n"`. */
  function Terminated(ls: seq<string>): (s: string)
    ensures s == [] <==> ls == []
    ensures s == [] || s[|s| - 1] == '\n'
  {
    if ls == [] then [] else ls[0] + "\n" + Terminated(ls[1..])
  }

  /** `DropCR` applied to every line. */
  function DropCREach(ls: seq<string>): (r: seq<string>)
    ensures |r| == |ls|
    ensures forall k | 0 <= k < |ls| :: r[k] == DropCR(ls[k])
  {
    if ls == [] then [] else [DropCR(ls[0])] + DropCREach(ls[1..])
  }

  /** Text the scanner reads back unchanged: newline-terminated and without `"\r\n"`. */
  predicate WellTerminated(s: string) {
    && (s == [] || s[|s| - 1] == '\n')
    && forall k | 0 <= k < |s| - 1 :: s[k] == '\r' ==> s[k + 1] != '\n'
  }

  /** One token per `"\n"`, plus one for a final unterminated line. */
  function NewlineCount(s: string): nat {
    if s == [] then 0 else (if s[0] == '\n' then 1 else 0) + NewlineCount(s[1..])
  }

  lemma {:induction false} NewlineCountAppend(a: string, b: string)
    ensures NewlineCount(a + b) == NewlineCount(a) + NewlineCount(b)
    decreases |a|
  {
    if a != [] {
      assert (a + b)[0] == a[0];
      assert (a + b)[1..] == a[1..] + b;
      NewlineCountAppend(a[1..], b);
    } else {
      assert a + b == b;
    }
  }

  lemma {:induction false} NoNewlineCount(s: string)
    requires '\n' !in s
    ensures NewlineCount(s) == 0
    decreases |s|
  {
    if s != [] {
      NoNewlineCount(s[1..]);
    }
  }

  /** The scanner yields one token per line terminator, plus one for a final unterminated line. */
  lemma {:induction false} LinesCount(s: string)
    ensures |Lines(s)| == NewlineCount(s) + (if s != [] && s[|s| - 1] != '\n' then 1 else 0)
    decreases |s|
  {
    if s != [] {
      var i := IndexOfNewline(s);
      if i < |s| {
        assert s == s[..i] + [s[i]] + s[i + 1..];
        NewlineCountAppend(s[..i] + [s[i]], s[i + 1..]);
        NewlineCountAppend(s[..i], [s[i]]);
        NoNewlineCount(s[..i]);
        LinesCount(s[i + 1..]);
        if s[i + 1..] == [] {
          assert s[|s| - 1] == '\n';
        } else {
          assert s[|s| - 1] == s[i + 1..][|s[i + 1..]| - 1];
        }
      } else {
        NoNewlineCount(s);
      }
    }
  }

  lemma IndexOfNewlineAppend(a: string, b: string)
    requires IndexOfNewline(a) < |a|
    ensures IndexOfNewline(a + b) == IndexOfNewline(a)
  {
    var i := IndexOfNewline(a);
    var j := IndexOfNewline(a + b);
    assert (a + b)[i] == '\n';
    if j < i {
      assert (a + b)[j] == a[j];
    }
  }

  /** One step of the scanner on input that holds a newline. */
  lemma LinesStep(s: string)
    requires IndexOfNewline(s) < |s|
    ensures Lines(s) == [DropCR(s[..IndexOfNewline(s)])] + Lines(s[IndexOfNewline(s) + 1..])
  {
  }

  /** Splitting is compositional at a line boundary. */
  lemma {:induction false} LinesAppend(a: string, b: string)
    requires a == [] || a[|a| - 1] == '\n'
    ensures Lines(a + b) == Lines(a) + Lines(b)
    decreases |a|
  {
    if a == [] {
      assert a + b == b;
      assert Lines(a) == [];
      assert Lines(a) + Lines(b) == Lines(b);
    } else {
      var i := IndexOfNewline(a);
      assert i < |a|;
      var rest := a[i + 1..];
      assert Lines(a + b) == [DropCR(a[..i])] + Lines(rest + b) by {
        IndexOfNewlineAppend(a, b);
        assert (a + b)[..i] == a[..i];
        assert (a + b)[i + 1..] == rest + b;
        LinesStep(a + b);
      }
      assert Lines(a) == [DropCR(a[..i])] + Lines(rest) by {
        LinesStep(a);
      }
      assert rest == [] || rest[|rest| - 1] == '\n' by {
        if rest != [] {
          assert rest[|rest| - 1] == a[|a| - 1];
        }
      }
      LinesAppend(rest, b);
      Regroup(Lines(a + b), Lines(a), [DropCR(a[..i])], Lines(rest), Lines(b));
    }
  }

  /** Writing lines back is compositional. */
  lemma {:induction false} TerminatedAppend(x: seq<string>, y: seq<string>)
    ensures Terminated(x + y) == Terminated(x) + Terminated(y)
    decreases |x|
  {
    if x == [] {
      assert x + y == y;
    } else {
      assert (x + y)[0] == x[0];
      assert (x + y)[1..] == x[1..] + y;
      TerminatedAppend(x[1..], y);
    }
  }

  /**
   Scanning text produced by `Terminated` gives back its lines, each with one
   trailing `'\r'` dropped, provided no line holds a `"\n"` of its own.
   */
  lemma {:induction false} LinesOfTerminated(ls: seq<string>)
    requires forall k | 0 <= k < |ls| :: '\n' !in ls[k]
    ensures Lines(Terminated(ls)) == DropCREach(ls)
    decreases |ls|
  {
    if ls != [] {
      var s := Terminated(ls);
      var l := ls[0];
      assert s == l + "\n" + Terminated(ls[1..]);
      var i := IndexOfNewline(s);
      assert s[|l|] == '\n';
      assert i == |l|;
      assert s[..i] == l;
      assert s[i + 1..] == Terminated(ls[1..]);
      LinesOfTerminated(ls[1..]);
    }
  }

  /** Scanning and writing back every line reproduces well-terminated text exactly. */
  lemma {:induction false} TerminatedOfLines(s: string)
    requires WellTerminated(s)
    ensures Terminated(Lines(s)) == s
    decreases |s|
  {
    if s != [] {
      var i := IndexOfNewline(s);
      assert i < |s|;
      var rest := s[i + 1..];
      assert Lines(s) == [s[..i]] + Lines(rest) by {
        assert DropCR(s[..i]) == s[..i] by {
          if i > 0 {
            assert s[i - 1] != '\r';
          }
        }
        LinesStep(s);
      }
      assert WellTerminated(rest) by {
        if rest != [] {
          assert rest[|rest| - 1] == s[|s| - 1];
        }
        forall k | 0 <= k < |rest| - 1
          ensures rest[k] == '\r' ==> rest[k + 1] != '\n'
        {
          assert rest[k] == s[i + 1 + k] && rest[k + 1] == s[i + 1 + k + 1];
        }
      }
      TerminatedOfLines(rest);
      SplitAtNewline(s, i);
    }
  }

  /** Text around a line break is the part before it, the break and the part after it. */
  lemma SplitAtNewline(s: string, i: nat)
    requires i < |s| && s[i] == '\n'
    ensures s == s[..i] + "\n" + s[i + 1..]
  {
    assert s == s[..i] + s[i..];
    assert s[i..] == "\n" + s[i + 1..];
  }

  /** Removing a trailing carriage return keeps a prefix of the line. */
  lemma DropCRPrefix(s: string)
    ensures HasPrefix(s, DropCR(s))
    ensures |s| - 1 <= |DropCR(s)|
  {
  }

  /** A code point absent from a line is absent once its carriage return is dropped. */
  lemma DropCRChars(s: string, c: char)
    requires c !in s
    ensures c !in DropCR(s)
  {
    DropCRPrefix(s);
    assert DropCR(s) == s[..|DropCR(s)|];
  }

  lemma ConsChars(whole: seq<string>, x: string, rest: seq<string>, c: char)
    requires whole == [x] + rest
    requires c !in x
    requires forall k | 0 <= k < |rest| :: c !in rest[k]
    ensures forall k | 0 <= k < |whole| :: c !in whole[k]
  {
    forall k | 0 <= k < |whole|
      ensures c !in whole[k]
    {
      if k > 0 {
        assert whole[k] == rest[k - 1];
      }
    }
  }

  /** A code point absent from `s` is absent from every token of `s`. */
  lemma {:induction false} LinesChars(s: string, c: char)
    requires c !in s
    ensures forall k | 0 <= k < |Lines(s)| :: c !in Lines(s)[k]
    decreases |s|
  {
    if s != [] {
      var i := IndexOfNewline(s);
      if i < |s| {
        assert c !in s[..i];
        assert c !in s[i + 1..];
        DropCRChars(s[..i], c);
        LinesStep(s);
        LinesChars(s[i + 1..], c);
        ConsChars(Lines(s), DropCR(s[..i]), Lines(s[i + 1..]), c);
      } else {
        DropCRChars(s, c);
      }
    }
  }

  /** No token holds a newline. */
  lemma {:induction false} LinesNoNewline(s: string)
    ensures forall k | 0 <= k < |Lines(s)| :: '\n' !in Lines(s)[k]
    decreases |s|
  {
    if s != [] {
      var i := IndexOfNewline(s);
      var head := if i < |s| then s[..i] else s;
      assert head == s[..i];
      assert '\n' !in head;
      DropCRChars(head, '\n');
      if i < |s| {
        LinesStep(s);
        LinesNoNewline(s[i + 1..]);
        ConsChars(Lines(s), DropCR(head), Lines(s[i + 1..]), '\n');
      }
    }
  }

  /** A code point other than the newline that no line holds is absent from the written text. */
  lemma {:induction false} TerminatedChars(ls: seq<string>, c: char)
    requires c != '\n'
    requires forall k | 0 <= k < |ls| :: c !in ls[k]
    ensures c !in Terminated(ls)
    decreases |ls|
  {
    if ls != [] {
      TerminatedChars(ls[1..], c);
      assert c !in ls[0];
    }
  }

  /** A single terminated line scans as one token. */
  lemma LinesOfLine(l: string)
    requires '\n' !in l
    ensures Lines(l + "\n") == [DropCR(l)]
  {
    var s := l + "\n";
    assert s[|l|] == '\n';
    assert IndexOfNewline(s) == |l| by {
      var i := IndexOfNewline(s);
      assert i <= |l|;
    }
    assert s[..|l|] == l;
    assert s[|l| + 1..] == [];
  }
}
