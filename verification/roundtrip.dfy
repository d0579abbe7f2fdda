/**
 When removal undoes insertion. Removal drops lines starting with
 `// Copyright` rather than re-rendering the copyright block, and deletes the
 header block as rendered without substitution, so the round trip holds only
 under explicit conditions: the `//` marker, copyright templates whose every
 line starts with `Copyright`, header templates with no such line and no
 `'@'` at all, an owner without line breaks, and content that the scanner reads
 back unchanged, that has no placeholders and no marked lines, and that does
 not itself contain the rendered header block.
 */
module HeaderRoundTrip {
  import opened Strings
  import opened Scanner
  import opened Decimal
  import opened Placeholders
  import opened Replace
  import opened Comment
  import opened Licentia
  import opened LicentiaLaws

  const SlashStyle: string := "//"
  const CopyrightWord: string := "Copyright"

  /** Every line of the copyright template starts with `Copyright`. */
  predicate CopyrightTemplate(template: string) {
    forall l | l in Lines(template) :: HasPrefix(l, CopyrightWord)
  }

  /** No line of the header template starts with `Copyright`, and it holds no `'@'`. */
  predicate HeaderTemplate(template: string) {
    && '@' !in template
    && forall l | l in Lines(template) :: !HasPrefix(l, CopyrightWord)
  }

  /** Under the `//` marker, a comment line is marked exactly when its template line starts with `Copyright`. */
  lemma SlashCommentMarked(line: string)
    ensures HasPrefix(CommentLine(SlashStyle, line), CopyrightMarker) <==> HasPrefix(line, CopyrightWord)
  {
    assert SlashStyle + " " + CopyrightWord == CopyrightMarker;
    assert !IsSpace(SlashStyle[0]);
    assert !IsSpace(CopyrightWord[|CopyrightWord| - 1]);
    CommentLinePrefix(SlashStyle, line, CopyrightWord);
  }

  /**
   A template line starting with `Copyright` becomes, once commented and
   substituted, a single line starting with the removal marker.
   */
  lemma MarkedCommentLine(line: string, owner: string, year: string)
    requires HasPrefix(line, CopyrightWord) && '\n' !in line
    requires '\n' !in owner && '\n' !in year
    ensures var r := Substitute(CommentLine(SlashStyle, line), owner, year);
            HasPrefix(r, CopyrightMarker) && '\n' !in r
  {
    var c := CommentLine(SlashStyle, line);
    SlashCommentMarked(line);
    var rest := c[|CopyrightMarker|..];
    assert c == CopyrightMarker + rest;
    assert '@' !in CopyrightMarker;
    SubstituteVerbatim(CopyrightMarker, rest, owner, year);
    assert (CopyrightMarker + Substitute(rest, owner, year))[..|CopyrightMarker|] == CopyrightMarker;
    SubstituteChars(c, owner, year, '\n');
  }

  /** Lines that all carry the marker and no line break vanish from the line filter once terminated. */
  lemma MarkedLinesStripped(ss: seq<string>)
    requires forall k | 0 <= k < |ss| :: HasPrefix(ss[k], CopyrightMarker) && '\n' !in ss[k]
    ensures StripCopyrightLines(Terminated(ss)) == []
  {
    LinesOfTerminated(ss);
    DropCREachStripped(ss);
  }

  /** Marked lines stay marked once their carriage returns are dropped, so the filter drops them all. */
  lemma DropCREachStripped(ss: seq<string>)
    requires forall k | 0 <= k < |ss| :: HasPrefix(ss[k], CopyrightMarker)
    ensures KeepLines(DropCREach(ss)) == []
  {
    forall k | 0 <= k < |ss|
      ensures HasPrefix(DropCREach(ss)[k], CopyrightMarker)
    {
      DropCRMarked(ss[k]);
    }
    KeepLinesNone(DropCREach(ss));
  }

  /**
   Every line of a rendered, substituted copyright block is dropped by the
   line filter of removal.
   */
  lemma CopyrightBlockStripped(template: string, owner: string, year: string)
    requires CopyrightTemplate(template)
    requires '\n' !in owner && '\n' !in year
    ensures StripCopyrightLines(Substitute(CommentBlock(SlashStyle, template), owner, year)) == []
  {
    if template != [] {
      var ls := Lines(template);
      var cs := CommentLines(SlashStyle, ls);
      var ss := SubstituteEach(cs, owner, year);
      SubstituteTerminated(cs, owner, year);
      LinesNoNewline(template);
      forall k | 0 <= k < |ss|
        ensures HasPrefix(ss[k], CopyrightMarker) && '\n' !in ss[k]
      {
        assert ls[k] in ls;
        MarkedCommentLine(ls[k], owner, year);
      }
      MarkedLinesStripped(ss);
    }
  }

  /** A rendered header block passes the line filter of removal unchanged. */
  lemma HeaderBlockKept(template: string)
    requires HeaderTemplate(template)
    ensures StripCopyrightLines(CommentBlock(SlashStyle, template)) == CommentBlock(SlashStyle, template)
  {
    if template != [] {
      var ls := Lines(template);
      var cs := CommentLines(SlashStyle, ls);
      CommentBlockLines(SlashStyle, template);
      forall k | 0 <= k < |cs|
        ensures !HasPrefix(cs[k], CopyrightMarker)
      {
        assert ls[k] in ls;
        SlashCommentMarked(ls[k]);
      }
      KeepLinesUnchanged(cs);
    }
  }

  /** Under the round-trip conditions the inserted text is the substituted copyright block, the header block and the content. */
  lemma InsertedLayout(cat: Catalog, config: Config, year: int, content: string)
    requires HeaderKey(config.licenseType) in cat
    requires '@' !in cat[HeaderKey(config.licenseType)] && '@' !in config.eolCommentStyle
    requires NoPlaceholder(content)
    ensures var t := config.licenseType;
            InsertLicense(cat, config, year, content)
            == Substitute(RenderedAsset(cat, CopyrightKey(t), config.eolCommentStyle), config.copyrightOwner, Itoa(year))
               + CommentBlock(config.eolCommentStyle, cat[HeaderKey(t)]) + content
  {
    var t := config.licenseType;
    var owner := config.copyrightOwner;
    var y := Itoa(year);
    var header := cat[HeaderKey(t)];
    var h := CommentBlock(config.eolCommentStyle, header);
    assert RenderedAsset(cat, HeaderKey(t), config.eolCommentStyle) == h;
    YearChars(year);
    CommentBlockChars(config.eolCommentStyle, header, '@');
    SubstituteVerbatim(h, [], owner, y);
    assert h + [] == h;
  }

  /** The line filter of removal maps the inserted text to the header block followed by the content. */
  lemma StripInserted(sc: string, header: string, content: string)
    requires sc == [] || sc[|sc| - 1] == '\n'
    requires StripCopyrightLines(sc) == []
    requires HeaderTemplate(header)
    requires WellTerminated(content)
    requires forall l | l in Lines(content) :: !HasPrefix(l, CopyrightMarker)
    ensures var h := CommentBlock(SlashStyle, header);
            StripCopyrightLines(sc + h + content) == h + content
  {
    var h := CommentBlock(SlashStyle, header);
    assert StripCopyrightLines(sc + h) == h by {
      StripCopyrightLinesAppend(sc, h);
      HeaderBlockKept(header);
      assert [] + h == h;
    }
    assert sc + h == [] || (sc + h)[|sc + h| - 1] == '\n' by {
      if h != [] {
        assert (sc + h)[|sc + h| - 1] == h[|h| - 1];
      }
    }
    StripCopyrightLinesAppend(sc + h, content);
    StripCopyrightLinesInert(content);
  }

  /**
   Removal undoes insertion: under the conditions above, removing the license
   from a file it was just inserted into gives back the original content.
   */
  lemma RemoveAfterInsert(cat: Catalog, config: Config, year: int, content: string)
    requires config.eolCommentStyle == SlashStyle
    requires HeaderKey(config.licenseType) in cat
    requires HeaderTemplate(cat[HeaderKey(config.licenseType)])
    requires CopyrightKey(config.licenseType) in cat ==> CopyrightTemplate(cat[CopyrightKey(config.licenseType)])
    requires '\n' !in config.copyrightOwner
    requires NoPlaceholder(content) && WellTerminated(content)
    requires forall l | l in Lines(content) :: !HasPrefix(l, CopyrightMarker)
    requires var block := CommentBlock(SlashStyle, cat[HeaderKey(config.licenseType)]);
             block == [] || NoOccurrence(content, block)
    ensures RemoveLicense(cat, config, InsertLicense(cat, config, year, content)) == content
  {
    var t := config.licenseType;
    var owner := config.copyrightOwner;
    var y := Itoa(year);
    var header := cat[HeaderKey(t)];
    var c := RenderedAsset(cat, CopyrightKey(t), SlashStyle);
    var h := CommentBlock(SlashStyle, header);
    var sc := Substitute(c, owner, y);
    InsertedLayout(cat, config, year, content);
    assert sc == [] || sc[|sc| - 1] == '\n' by {
      if c != [] {
        SubstituteKeepsFinalNewline(c, owner, y);
      }
    }
    assert StripCopyrightLines(sc) == [] by {
      if CopyrightKey(t) in cat {
        YearChars(year);
        CopyrightBlockStripped(cat[CopyrightKey(t)], owner, y);
      }
    }
    StripInserted(sc, header, content);
    if h == [] {
      assert h + content == content;
      DeleteAllAbsent(content, h);
    } else {
      DeleteAllLeading(h, content);
      DeleteAllAbsent(content, h);
    }
  }
}
