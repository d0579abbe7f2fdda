/**
 The license-header transforms: inserting the rendered copyright and header
 blocks ahead of a file's content, removing them again, dumping a full license
 text and listing the catalog. The catalog of embedded license assets is a map
 from file name inside the `licenses` directory to contents; the current year
 is a parameter.
 */
module Licentia {
  import opened Wrappers
  import opened Strings
  import opened Scanner
  import opened Decimal
  import opened Placeholders
  import opened Replace
  import opened Comment

  /** A license identifier; the command line may name any string. */
  datatype LicenseType = LicenseType(name: string)

  const Apache2: LicenseType := LicenseType("apache2")
  const Freebsd: LicenseType := LicenseType("freebsd")
  const LGPL3: LicenseType := LicenseType("lgpl3")
  const LGPL2: LicenseType := LicenseType("lgpl2")
  const MIT: LicenseType := LicenseType("mit")
  const MPL2: LicenseType := LicenseType("mpl2")
  const NewBSD: LicenseType := LicenseType("newbsd")
  const GPL3: LicenseType := LicenseType("gpl3")
  const GPL2: LicenseType := LicenseType("gpl2")
  const CDDL: LicenseType := LicenseType("cddl")
  const EPL: LicenseType := LicenseType("epl")
  const Unknown: LicenseType := LicenseType("unknown")

  /** The parsed command line of `set` and `unset`. */
  datatype Config = Config(
    copyrightOwner: string,
    licenseType: LicenseType,
    files: string,
    eolCommentStyle: string)

  /** Asset file name inside the `licenses` directory to its contents. */
  type Catalog = map<string, string>

  /** The asset provider's failure. */
  datatype AssetError = AssetNotFound(path: string)

  const AssetDirectory: string := "licenses"

  function FullTextKey(t: LicenseType): string { t.name }
  function CopyrightKey(t: LicenseType): string { t.name + ".copyright" }
  function HeaderKey(t: LicenseType): string { t.name + ".header" }

  function Lookup(cat: Catalog, key: string): Option<string> {
    if key in cat then Some(cat[key]) else None
  }

  /** The comment block for an asset, or nothing when the catalog lacks it. */
  function RenderedAsset(cat: Catalog, key: string, style: string): (r: string)
    ensures r == [] <==> key !in cat || cat[key] == []
    ensures r == [] || r[|r| - 1] == '\n'
  {
    match Lookup(cat, key)
    case None => []
    case Some(template) => CommentBlock(style, template)
  }

  /** The rendered copyright block followed by the rendered header block, before substitution. */
  function LicenseBlock(cat: Catalog, config: Config): (r: string)
    ensures r == [] <==> forall key | key in [CopyrightKey(config.licenseType), HeaderKey(config.licenseType)] ::
                           key !in cat || cat[key] == []
    ensures r == [] || r[|r| - 1] == '\n'
  {
    var t := config.licenseType;
    var style := config.eolCommentStyle;
    RenderedAsset(cat, CopyrightKey(t), style) + RenderedAsset(cat, HeaderKey(t), style)
  }

  /**
   `insertLicense` on a file holding `content`: the license block and then the
   content, with the placeholders replaced throughout, content included. The
   replacer works on the copyright block, the header block and the content
   separately, since each block ends at a line break.
   */
  function InsertLicense(cat: Catalog, config: Config, year: int, content: string): (r: string)
    ensures var t := config.licenseType;
            var style := config.eolCommentStyle;
            var owner := config.copyrightOwner;
            r == Substitute(RenderedAsset(cat, CopyrightKey(t), style), owner, Itoa(year))
                 + Substitute(RenderedAsset(cat, HeaderKey(t), style), owner, Itoa(year))
                 + Substitute(content, owner, Itoa(year))
  {
    SubstituteAppend3(RenderedAsset(cat, CopyrightKey(config.licenseType), config.eolCommentStyle),
                      RenderedAsset(cat, HeaderKey(config.licenseType), config.eolCommentStyle),
                      content, config.copyrightOwner, Itoa(year));
    Substitute(LicenseBlock(cat, config) + content, config.copyrightOwner, Itoa(year))
  }

  /** The line prefix `removeLicense` drops, fixed whatever the comment marker. */
  const CopyrightMarker: string := "// Copyright"

  /** The lines that do not start with the copyright marker, in order. */
  function KeepLines(ls: seq<string>): (r: seq<string>)
    ensures |r| <= |ls|
    ensures forall k | 0 <= k < |r| :: !HasPrefix(r[k], CopyrightMarker)
    ensures forall l :: l in r <==> l in ls && !HasPrefix(l, CopyrightMarker)
  {
    if ls == [] then []
    else if HasPrefix(ls[0], CopyrightMarker) then KeepLines(ls[1..])
    else [ls[0]] + KeepLines(ls[1..])
  }

  /**
   The scanning loop of `removeLicense`: marked lines dropped, the others
   written back with `"\n"`. Whatever the comment marker, scanning the result
   again meets no line that starts with `// Copyright`.
   */
  function StripCopyrightLines(content: string): (r: string)
    ensures r == [] || r[|r| - 1] == '\n'
    ensures forall l | l in Lines(r) :: !HasPrefix(l, CopyrightMarker)
  {
    LinesNoNewline(content);
    KeptLinesRescanned(Lines(content));
    Terminated(KeepLines(Lines(content)))
  }

  /** Kept lines without line breaks, written back and scanned again, still carry no marker. */
  lemma KeptLinesRescanned(ls: seq<string>)
    requires forall k | 0 <= k < |ls| :: '\n' !in ls[k]
    ensures forall l | l in Lines(Terminated(KeepLines(ls))) :: !HasPrefix(l, CopyrightMarker)
  {
    var ks := KeepLines(ls);
    forall k | 0 <= k < |ks|
      ensures '\n' !in ks[k]
    {
      assert ks[k] in ls;
    }
    LinesOfTerminated(ks);
    forall l | l in Lines(Terminated(ks))
      ensures !HasPrefix(l, CopyrightMarker)
    {
      var k :| 0 <= k < |ks| && l == DropCREach(ks)[k];
      DropCRUnmarked(ks[k]);
    }
  }

  /** A line without the marker keeps lacking it once its carriage return is dropped. */
  lemma DropCRUnmarked(l: string)
    requires !HasPrefix(l, CopyrightMarker)
    ensures !HasPrefix(DropCR(l), CopyrightMarker)
  {
    DropCRPrefix(l);
  }

  /** A line with the marker keeps it once its carriage return is dropped. */
  lemma DropCRMarked(l: string)
    requires HasPrefix(l, CopyrightMarker)
    ensures HasPrefix(DropCR(l), CopyrightMarker)
  {
    if |l| == |CopyrightMarker| {
      assert l == CopyrightMarker;
    } else {
      assert DropCR(l)[..|CopyrightMarker|] == l[..|CopyrightMarker|];
    }
  }

  /**
   `removeLicense` on a file holding `content`. Without a header asset nothing
   changes; otherwise the marked lines go and every occurrence of the rendered,
   unsubstituted header block is deleted.
   */
  function RemoveLicense(cat: Catalog, config: Config, content: string): (r: string)
    ensures HeaderKey(config.licenseType) !in cat ==> r == content
    ensures HeaderKey(config.licenseType) in cat ==> |r| <= |StripCopyrightLines(content)|
  {
    match Lookup(cat, HeaderKey(config.licenseType))
    case None => content
    case Some(header) => DeleteAll(StripCopyrightLines(content), CommentBlock(config.eolCommentStyle, header))
  }

  /** The path the asset provider is asked for. */
  function AssetPath(name: string): string {
    AssetDirectory + "/" + name
  }

  /**
   `Dump`: the copyright template, if any, followed by the full license text,
   with the placeholders replaced. A missing full text is an error.
   */
  function Dump(cat: Catalog, t: LicenseType, owner: string, year: int): (r: Result<string, AssetError>)
    ensures r.Failure? <==> FullTextKey(t) !in cat
    ensures r.Failure? ==> r.error == AssetNotFound(AssetPath(t.name))
  {
    match Lookup(cat, FullTextKey(t))
    case None => Failure(AssetNotFound(AssetPath(t.name)))
    case Some(text) =>
      var copyright := Lookup(cat, CopyrightKey(t)).GetOr([]);
      Success(Substitute(copyright + text, owner, Itoa(year)))
  }

  /**
   Whether `List` skips an asset name: a bare `header` or `copyright` suffix,
   so every `.header` and `.copyright` asset is skipped.
   */
  function IsSubAsset(name: string): (b: bool)
    ensures HasSuffix(name, ".header") || HasSuffix(name, ".copyright") ==> b
  {
    SuffixOfSuffix(name, ".header", "header");
    SuffixOfSuffix(name, ".copyright", "copyright");
    HasSuffix(name, "header") || HasSuffix(name, "copyright")
  }

  /** The listed names: those that are not sub-assets, in listing order. */
  function LicenseNames(names: seq<string>): (r: seq<string>)
    ensures |r| <= |names|
    ensures forall n :: n in r <==> n in names && !IsSubAsset(n)
  {
    if names == [] then []
    else if IsSubAsset(names[0]) then LicenseNames(names[1..])
    else [names[0]] + LicenseNames(names[1..])
  }

  /** `List` over the asset provider's listing of the `licenses` directory, if it has one. */
  function List(listing: Option<seq<string>>): (r: Result<seq<string>, AssetError>)
    ensures r.Failure? <==> listing.None?
    ensures r.Failure? ==> r.error == AssetNotFound(AssetDirectory)
    ensures r.Success? ==> forall n :: n in r.value <==> n in listing.value && !IsSubAsset(n)
  {
    match listing
    case None => Failure(AssetNotFound(AssetDirectory))
    case Some(names) => Success(LicenseNames(names))
  }
}
