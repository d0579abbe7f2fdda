/** Properties of the license-header transforms, dump and list. */
module LicentiaLaws {
  import opened Wrappers
  import opened Strings
  import opened Scanner
  import opened Decimal
  import opened Placeholders
  import opened Replace
  import opened Comment
  import opened Licentia

  /** Rendered years are plain digits, so they hold neither `'@'` nor a newline. */
  lemma YearChars(year: int)
    ensures '@' !in Itoa(year) && '\n' !in Itoa(year)
  {
    var s := Itoa(year);
    forall k | 0 <= k < |s|
      ensures s[k] != '@' && s[k] != '\n'
    {
    }
  }

  /** With neither a copyright nor a header asset, insertion only runs the replacer over the content. */
  lemma InsertWithoutAssets(cat: Catalog, config: Config, year: int, content: string)
    requires CopyrightKey(config.licenseType) !in cat && HeaderKey(config.licenseType) !in cat
    ensures InsertLicense(cat, config, year, content) == Substitute(content, config.copyrightOwner, Itoa(year))
  {
    assert LicenseBlock(cat, config) + content == content;
  }

  /**
   Content without placeholders survives insertion verbatim as a suffix,
   behind the substituted license block.
   */
  lemma InsertKeepsContent(cat: Catalog, config: Config, year: int, content: string)
    requires NoPlaceholder(content)
    ensures var r := InsertLicense(cat, config, year, content);
            && r == Substitute(LicenseBlock(cat, config), config.copyrightOwner, Itoa(year)) + content
            && HasSuffix(r, content)
  {
    var owner := config.copyrightOwner;
    var y := Itoa(year);
    SubstituteAppend(LicenseBlock(cat, config), content, owner, y);
  }

  /** A non-empty header template makes insertion strictly lengthen placeholder-free content. */
  lemma InsertGrows(cat: Catalog, config: Config, year: int, content: string)
    requires HeaderKey(config.licenseType) in cat && cat[HeaderKey(config.licenseType)] != []
    requires NoPlaceholder(content)
    ensures |InsertLicense(cat, config, year, content)| > |content|
  {
    var t := config.licenseType;
    var style := config.eolCommentStyle;
    var owner := config.copyrightOwner;
    var y := Itoa(year);
    InsertKeepsContent(cat, config, year, content);
    var c := RenderedAsset(cat, CopyrightKey(t), style);
    var h := RenderedAsset(cat, HeaderKey(t), style);
    assert h != [];
    SubstituteAppend(c, h, owner, y);
    SubstituteKeepsFinalNewline(h, owner, y);
  }

  /** Insertion is not idempotent: inserting again adds a second copy of the block. */
  lemma InsertNotIdempotent(cat: Catalog, config: Config, year: int, content: string)
    requires HeaderKey(config.licenseType) in cat && cat[HeaderKey(config.licenseType)] != []
    requires NoPlaceholder(InsertLicense(cat, config, year, content))
    ensures InsertLicense(cat, config, year, InsertLicense(cat, config, year, content))
            != InsertLicense(cat, config, year, content)
  {
    InsertGrows(cat, config, year, InsertLicense(cat, config, year, content));
  }

  /** Filtering keeps the order of the lines: it works piecewise. */
  lemma {:induction false} KeepLinesAppend(a: seq<string>, b: seq<string>)
    ensures KeepLines(a + b) == KeepLines(a) + KeepLines(b)
    decreases |a|
  {
    if a == [] {
      assert a + b == b;
    } else {
      assert (a + b)[0] == a[0];
      assert (a + b)[1..] == a[1..] + b;
      KeepLinesAppend(a[1..], b);
    }
  }

  /** Filtering changes nothing exactly when no line starts with the copyright marker. */
  lemma {:induction false} KeepLinesUnchanged(ls: seq<string>)
    ensures KeepLines(ls) == ls <==> forall k | 0 <= k < |ls| :: !HasPrefix(ls[k], CopyrightMarker)
    decreases |ls|
  {
    if ls != [] {
      KeepLinesUnchanged(ls[1..]);
      if HasPrefix(ls[0], CopyrightMarker) {
        assert |KeepLines(ls)| < |ls|;
      } else {
        assert KeepLines(ls) == [ls[0]] + KeepLines(ls[1..]);
        if KeepLines(ls) == ls {
          assert KeepLines(ls[1..]) == ls[1..];
        }
        if forall k | 0 <= k < |ls| :: !HasPrefix(ls[k], CopyrightMarker) {
          assert forall k | 0 <= k < |ls[1..]| :: !HasPrefix(ls[1..][k], CopyrightMarker) by {
            forall k | 0 <= k < |ls[1..]|
              ensures !HasPrefix(ls[1..][k], CopyrightMarker)
            {
              assert ls[1..][k] == ls[k + 1];
            }
          }
          assert ls == [ls[0]] + ls[1..];
        }
      }
    }
  }

  /** Filtering lines that all start with the marker leaves nothing. */
  lemma {:induction false} KeepLinesNone(ls: seq<string>)
    requires forall k | 0 <= k < |ls| :: HasPrefix(ls[k], CopyrightMarker)
    ensures KeepLines(ls) == []
    decreases |ls|
  {
    if ls != [] {
      assert HasPrefix(ls[0], CopyrightMarker);
      forall k | 0 <= k < |ls[1..]|
        ensures HasPrefix(ls[1..][k], CopyrightMarker)
      {
        assert ls[1..][k] == ls[k + 1];
      }
      KeepLinesNone(ls[1..]);
    }
  }

  /** The line filter works piece by piece on text split at a line boundary. */
  lemma StripCopyrightLinesAppend(a: string, b: string)
    requires a == [] || a[|a| - 1] == '\n'
    ensures StripCopyrightLines(a + b) == StripCopyrightLines(a) + StripCopyrightLines(b)
  {
    LinesAppend(a, b);
    KeepLinesAppend(Lines(a), Lines(b));
    TerminatedAppend(KeepLines(Lines(a)), KeepLines(Lines(b)));
  }

  /** Well-terminated text without marked lines passes the line filter unchanged. */
  lemma StripCopyrightLinesInert(content: string)
    requires WellTerminated(content)
    requires forall l | l in Lines(content) :: !HasPrefix(l, CopyrightMarker)
    ensures StripCopyrightLines(content) == content
  {
    KeepLinesUnchanged(Lines(content));
    TerminatedOfLines(content);
  }

  /**
   Removal without a header asset is a no-op; with one, it leaves the stripped
   text alone exactly when the rendered header block is empty or absent from it.
   */
  lemma RemoveUnchangedIff(cat: Catalog, config: Config, content: string)
    requires HeaderKey(config.licenseType) in cat
    ensures var block := CommentBlock(config.eolCommentStyle, cat[HeaderKey(config.licenseType)]);
            var stripped := StripCopyrightLines(content);
            RemoveLicense(cat, config, content) == stripped <==> block == [] || NoOccurrence(stripped, block)
  {
    var block := CommentBlock(config.eolCommentStyle, cat[HeaderKey(config.licenseType)]);
    var stripped := StripCopyrightLines(content);
    if block == [] {
      DeleteAllAbsent(stripped, block);
    } else {
      DeleteAllUnchanged(stripped, block);
    }
  }

  /** Two terminated lines scan to those two lines, the first without a trailing carriage return. */
  lemma TwoLines(a: string, b: string)
    requires '\n' !in a && '\n' !in b && (b == [] || b[|b| - 1] != '\r')
    ensures Lines(a + "\n" + b + "\n") == [DropCR(a), b]
  {
    assert a + "\n" + b + "\n" == (a + "\n") + (b + "\n");
    LinesAppend(a + "\n", b + "\n");
    LinesOfLine(a);
    LinesOfLine(b);
  }

  /**
   The copyright filter ignores the configured marker: whatever the style, a
   `// Copyright` line goes and any other line, `# Copyright` included, stays.
   (With an empty header template there is no block left to delete.)
   */
  lemma RemoveIgnoresStyle(cat: Catalog, config: Config, a: string, b: string)
    requires HeaderKey(config.licenseType) in cat && cat[HeaderKey(config.licenseType)] == []
    requires '\n' !in a && '\n' !in b && (b == [] || b[|b| - 1] != '\r')
    requires HasPrefix(a, CopyrightMarker) && !HasPrefix(b, CopyrightMarker)
    ensures RemoveLicense(cat, config, a + "\n" + b + "\n") == b + "\n"
  {
    var s := a + "\n" + b + "\n";
    assert StripCopyrightLines(s) == b + "\n" by {
      TwoLines(a, b);
      assert KeepLines([DropCR(a), b]) == [b] by {
        DropCRMarked(a);
        assert [DropCR(a), b][1..] == [b];
      }
    }
    assert CommentBlock(config.eolCommentStyle, cat[HeaderKey(config.licenseType)]) == [];
  }

  /** Without a copyright asset the dump is the full text with its placeholders replaced. */
  lemma DumpWithoutCopyright(cat: Catalog, t: LicenseType, owner: string, year: int)
    requires FullTextKey(t) in cat && CopyrightKey(t) !in cat
    ensures Dump(cat, t, owner, year) == Success(Substitute(cat[FullTextKey(t)], owner, Itoa(year)))
  {
    assert [] + cat[FullTextKey(t)] == cat[FullTextKey(t)];
  }

  /**
   The dump ends with the full text verbatim when that text has no placeholders
   and the copyright template, if any, ends at a line break.
   */
  lemma DumpKeepsFullText(cat: Catalog, t: LicenseType, owner: string, year: int)
    requires FullTextKey(t) in cat && NoPlaceholder(cat[FullTextKey(t)])
    requires CopyrightKey(t) in cat ==> AtLineBreak(cat[CopyrightKey(t)], cat[FullTextKey(t)])
    ensures Dump(cat, t, owner, year).Success?
    ensures HasSuffix(Dump(cat, t, owner, year).value, cat[FullTextKey(t)])
  {
    var text := cat[FullTextKey(t)];
    var copyright := Lookup(cat, CopyrightKey(t)).GetOr([]);
    SubstituteAppend(copyright, text, owner, Itoa(year));
  }

  /** Listing keeps the order of the directory listing: it works piecewise. */
  lemma {:induction false} LicenseNamesAppend(a: seq<string>, b: seq<string>)
    ensures LicenseNames(a + b) == LicenseNames(a) + LicenseNames(b)
    decreases |a|
  {
    if a == [] {
      assert a + b == b;
    } else {
      assert (a + b)[0] == a[0];
      assert (a + b)[1..] == a[1..] + b;
      LicenseNamesAppend(a[1..], b);
    }
  }

  /**
   The suffix test is on bare `header`/`copyright`, without a dot: whatever
   precedes them (`my` in `myheader`, `mpl2.` in `mpl2.header`), no listing
   ever shows such a name.
   */
  lemma ListBareSuffix(listing: seq<string>, stem: string)
    ensures List(Some(listing)).Success?
    ensures stem + "header" !in List(Some(listing)).value
    ensures stem + "copyright" !in List(Some(listing)).value
  {
    assert (stem + "header")[|stem|..] == "header";
    assert (stem + "copyright")[|stem|..] == "copyright";
  }
}
