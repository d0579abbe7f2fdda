/**
 `prependEOLComment`: a template rendered as a block of end-of-line comments,
 one comment line per line the scanner reads from the template.
 */
module Comment {
  import opened Strings
  import opened Scanner

  /**
   One template line behind the comment marker, with surrounding white space
   trimmed: it has no white space at either end (so no trailing `'\r'`) and
   holds a newline only if the marker or the template line does.
   */
  function CommentLine(style: string, line: string): (r: string)
    ensures r != [] ==> !IsSpace(r[0]) && !IsSpace(r[|r| - 1])
    ensures '\n' !in style && '\n' !in line ==> '\n' !in r
  {
    CommentLineChars(style, line);
    TrimSpace(style + " " + line)
  }

  /** Trimming a marked line whose marker and text hold no line break leaves none. */
  lemma CommentLineChars(style: string, line: string)
    ensures '\n' !in style && '\n' !in line ==> '\n' !in TrimSpace(style + " " + line)
  {
    if '\n' !in style && '\n' !in line {
      TrimSpaceChars(style + " " + line, '\n');
    }
  }

  /** `CommentLine` applied to every line. */
  function CommentLines(style: string, ls: seq<string>): (r: seq<string>)
    ensures |r| == |ls|
    ensures forall k | 0 <= k < |ls| :: r[k] == CommentLine(style, ls[k])
  {
    if ls == [] then [] else [CommentLine(style, ls[0])] + CommentLines(style, ls[1..])
  }

  /**
   The rendered block: nothing for an empty template, otherwise every scanned
   line as a comment line followed by a single `"\n"`.
   */
  function CommentBlock(style: string, template: string): (r: string)
    ensures r == [] <==> template == []
    ensures r == [] || r[|r| - 1] == '\n'
  {
    if template == [] then [] else Terminated(CommentLines(style, Lines(template)))
  }

  /** Comment lines never end in a carriage return, so the scanner keeps them whole. */
  lemma {:induction false} DropCRCommentLines(style: string, ls: seq<string>)
    ensures DropCREach(CommentLines(style, ls)) == CommentLines(style, ls)
  {
    var cs := CommentLines(style, ls);
    forall k | 0 <= k < |cs|
      ensures DropCR(cs[k]) == cs[k]
    {
      assert IsSpace('\r');
    }
  }

  /**
   Scanning a rendered block gives back exactly one comment line per template
   line, in order, provided the marker holds no newline.
   */
  lemma CommentBlockLines(style: string, template: string)
    requires '\n' !in style
    ensures Lines(CommentBlock(style, template)) == CommentLines(style, Lines(template))
  {
    if template != [] {
      var ls := Lines(template);
      var cs := CommentLines(style, ls);
      LinesNoNewline(template);
      assert forall k | 0 <= k < |cs| :: '\n' !in cs[k];
      LinesOfTerminated(cs);
      DropCRCommentLines(style, ls);
    }
  }

  /** The block has exactly one line terminator per scanned template line. */
  lemma CommentBlockLineCount(style: string, template: string)
    requires '\n' !in style
    ensures NewlineCount(CommentBlock(style, template)) == |Lines(template)|
  {
    var r := CommentBlock(style, template);
    CommentBlockLines(style, template);
    LinesCount(r);
  }

  /**
   With a marker that starts with a non-space, a comment line starts with
   `style + " " + word` exactly when its template line starts with `word`
   (for a `word` that ends in a non-space).
   */
  lemma CommentLinePrefix(style: string, line: string, word: string)
    requires style != [] && !IsSpace(style[0])
    requires word != [] && !IsSpace(word[|word| - 1])
    ensures HasPrefix(CommentLine(style, line), style + " " + word) <==> HasPrefix(line, word)
  {
    var x := style + " " + line;
    var j := TrimmedEnd(x);
    assert CommentLine(style, line) == x[..j] by {
      assert LeadingSpaces(x) == 0;
    }
    if HasPrefix(line, word) {
      PrefixKeptByTrim(style, line, word);
    }
    if HasPrefix(x[..j], style + " " + word) {
      PrefixOfMarked(style, line, word, j);
    }
  }

  /** A template line starting with `word` gives a trimmed comment line starting with `style + " " + word`. */
  lemma PrefixKeptByTrim(style: string, line: string, word: string)
    requires word != [] && !IsSpace(word[|word| - 1]) && HasPrefix(line, word)
    ensures var x := style + " " + line; HasPrefix(x[..TrimmedEnd(x)], style + " " + word)
  {
    var x := style + " " + line;
    var p := style + " " + word;
    assert x[..|p|] == p by {
      assert line[..|word|] == word;
    }
    assert !IsSpace(x[|p| - 1]) by {
      assert x[|p| - 1] == word[|word| - 1];
    }
    var j := TrimmedEnd(x);
    assert |p| <= j;
    assert x[..j][..|p|] == x[..|p|];
  }

  /** A slice of a comment line starting with `style + " " + word` comes from a template line starting with `word`. */
  lemma PrefixOfMarked(style: string, line: string, word: string, j: nat)
    requires j <= |style + " " + line|
    requires HasPrefix((style + " " + line)[..j], style + " " + word)
    ensures HasPrefix(line, word)
  {
    var x := style + " " + line;
    var p := style + " " + word;
    var n := |style| + 1;
    assert x[..|p|] == p by {
      assert x[..j][..|p|] == x[..|p|];
    }
    assert |word| <= |line|;
    assert line[..|word|] == x[n..|p|];
    assert word == p[n..];
  }

  /**
   A code point other than the space and the newline that is absent from the
   marker and from the template is absent from the rendered block.
   */
  lemma CommentBlockChars(style: string, template: string, c: char)
    requires c !in style && c !in template && c != ' ' && c != '\n'
    ensures c !in CommentBlock(style, template)
  {
    if template != [] {
      var ls := Lines(template);
      LinesChars(template, c);
      forall k | 0 <= k < |ls|
        ensures c !in CommentLine(style, ls[k])
      {
        assert c !in style + " " + ls[k];
        TrimSpaceChars(style + " " + ls[k], c);
      }
      TerminatedChars(CommentLines(style, ls), c);
    }
  }
}
