/**
 The aggregate error the tool returns from its batch operations: a list of
 underlying errors, each represented by its message, reported one per line.
 */
module Errors {
  import opened Scanner

  /** The report line for one message: `"! "` before it; the line break is added when written. */
  function Bullet(message: string): string {
    "! " + message
  }

  /** The report lines for a list of messages, in order. */
  function Bullets(messages: seq<string>): seq<string> {
    seq(|messages|, k requires 0 <= k < |messages| => Bullet(messages[k]))
  }

  /** The full report: every message on its own line, as `"! "`, the message and `"\n"`. */
  function Report(messages: seq<string>): (r: string)
    ensures r == [] <==> messages == []
    ensures r == [] || r[|r| - 1] == '\n'
  {
    Terminated(Bullets(messages))
  }

  /** The combined length of a list of messages. */
  function TotalLength(messages: seq<string>): nat {
    if messages == [] then 0 else |messages[0]| + TotalLength(messages[1..])
  }

  /** An aggregate of errors, kept in the order they were appended. */
  datatype Error = Error(errors: seq<string>) {

    /**
     The aggregate with `more` appended after the errors already held: its
     message is the old message followed by the lines of the new errors, and
     appending at least one error makes it non-empty.
     */
    function Append(more: seq<string>): (r: Error)
      ensures |r.errors| == |errors| + |more|
      ensures r.errors[..|errors|] == errors
      ensures r.errors[|errors|..] == more
      ensures Report(r.errors) == Report(errors) + Report(more)
      ensures more != [] ==> !r.IsEmpty()
    {
      ReportAppend(errors, more);
      Error(errors + more)
    }

    /** Whether the aggregate holds no error at all, that is, whether its message is empty. */
    function IsEmpty(): (b: bool)
      ensures b <==> |errors| == 0
      ensures b <==> Report(errors) == []
    {
      !(|errors| > 0)
    }

    /** The aggregate's message, built line by line as the tool builds it. */
    method Message() returns (s: string)
      ensures s == Report(errors)
    {
      s := [];
      if |errors| > 0 {
        var i := 0;
        while i < |errors|
          invariant 0 <= i <= |errors|
          invariant s == Report(errors[..i])
        {
          ReportExtend(errors, i);
          s := s + ("! " + errors[i] + "\n");
          i := i + 1;
        }
        assert errors[..i] == errors;
      }
    }
  }

  /** The report lines of two lists are the report lines of their concatenation. */
  lemma BulletsAppend(a: seq<string>, b: seq<string>)
    ensures Bullets(a + b) == Bullets(a) + Bullets(b)
  {
  }

  /** The report of appended messages is the old report followed by the report of the new ones. */
  lemma ReportAppend(a: seq<string>, b: seq<string>)
    ensures Report(a + b) == Report(a) + Report(b)
  {
    BulletsAppend(a, b);
    TerminatedAppend(Bullets(a), Bullets(b));
  }

  /** The report of one more message is the report so far followed by that message's line. */
  lemma ReportExtend(messages: seq<string>, i: nat)
    requires i < |messages|
    ensures Report(messages[..i + 1]) == Report(messages[..i]) + ("! " + messages[i] + "\n")
  {
    assert messages[..i + 1] == messages[..i] + [messages[i]];
    ReportAppend(messages[..i], [messages[i]]);
    assert Bullets([messages[i]]) == [Bullet(messages[i])];
  }

  /** Appending nothing leaves the aggregate as it was. */
  lemma AppendNothing(e: Error)
    ensures e.Append([]) == e
  {
    assert e.errors + [] == e.errors;
  }

  /** Each message adds its own length plus three characters: `"! "` and the line break. */
  lemma {:induction false} ReportLength(messages: seq<string>)
    ensures |Report(messages)| == TotalLength(messages) + 3 * |messages|
    decreases |messages|
  {
    if messages != [] {
      ReportLength(messages[1..]);
      assert messages == [messages[0]] + messages[1..];
      ReportAppend([messages[0]], messages[1..]);
      assert Bullets([messages[0]]) == [Bullet(messages[0])];
    }
  }

  /**
   Read back by the line scanner, the report yields one line per message, in
   order, provided no message holds a line break itself.
   */
  lemma ReportLines(messages: seq<string>)
    requires forall k | 0 <= k < |messages| :: '\n' !in messages[k]
    ensures |Lines(Report(messages))| == |messages|
    ensures forall k | 0 <= k < |messages| :: Lines(Report(messages))[k] == DropCR(Bullet(messages[k]))
  {
    var bs := Bullets(messages);
    forall k | 0 <= k < |bs|
      ensures '\n' !in bs[k]
    {
      assert bs[k] == "! " + messages[k];
    }
    LinesOfTerminated(bs);
  }
}
