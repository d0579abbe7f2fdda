# licentia — a Dafny model of the license-header transforms

licentia is a command-line tool that stamps open-source license headers onto
source files and strips them off again. For each file it renders the
license's copyright notice and header template as end-of-line comments in the
configured comment style. It substitutes the copyright owner and the current
year for the `@@owner@@` and `@@year@@` placeholders. It can also print a
license's full text (`dump`), list the licenses it knows (`list`), and collect
per-file failures into one aggregate error.

This project models those text transforms as pure functions over `string`
(`seq<char>`) and proves properties about them. Each module matches one
piece of the tool's logic:

| module | file | what it models |
|---|---|---|
| `Wrappers` | wrappers.dfy | `Option` for a missing asset, and `Result` for an operation that can fail |
| `Strings` | strings.dfy | Go's `strings.TrimSpace` (Unicode White_Space), `HasPrefix` and `HasSuffix` |
| `Scanner` | scanner.dfy | a line scanner with Go's `bufio.ScanLines` rules, and writing lines back with `"\n"` |
| `Decimal` | decimal.dfy | `strconv.Itoa`, used to render the year |
| `Placeholders` | placeholders.dfy | the two-pattern `strings.NewReplacer` for `@@owner@@` and `@@year@@` |
| `Replace` | replace.dfy | `strings.Replace(s, old, "", -1)`: delete every non-overlapping occurrence |
| `Comment` | comment.dfy | `prependEOLComment`: a template rendered as comment lines |
| `Licentia` | licentia.dfy | license types, `Config`, the asset catalog, insert, remove, dump and list |
| `LicentiaLaws` | licentia_laws.dfy | laws about insert, remove, dump and list |
| `HeaderRoundTrip` | roundtrip.dfy | when removing a header undoes inserting it |
| `Errors` | errors.dfy | the aggregate `Error`: `Append`, `IsEmpty`, and `Error()` as `Message` |

The asset catalog is a `map<string, string>` from a file name inside
`licenses/` to that file's text. License type `t` uses three keys:

- `t` holds the full text;
- `t.copyright` holds the copyright notice;
- `t.header` holds the per-file header.

A missing key plays the part of the asset lookup's error. The year is a
parameter. File contents are input and output strings.

Some behaviour of the code is easy to miss:

- Substitution is applied to the whole new file, so placeholders in the
  original content are replaced too.
- Removal drops lines that start with the fixed text `// Copyright`, whatever
  comment style is configured.
- Removal deletes the header block in its unsubstituted form.
- The line scanner drops one trailing `"\r"` from every line. Removal writes
  every kept line back with a bare `"\n"`.
- Insert adds no blank line between the copyright block, the header block
  and the content.
- Removal does not collapse blank lines before a package declaration.
- `list` keeps the order of the directory listing it is given.
- `Detect` (licentia.go:336-339) always returns `unknown`.

Because of the way removal matches copyright lines and the header block, it is not the inverse of insertion in general.
`HeaderRoundTrip.RemoveAfterInsert` gives conditions under which it is.

## Model

| member | source | states |
|---|---|---|
| Strings.TrimSpace | licentia.go:307 | the trimmed line is empty exactly when every character is white space; otherwise it neither starts nor ends with white space, and it is never longer than the input |
| Strings.TrimSpaceIsSlice | licentia.go:307 | trimming removes only leading and trailing white space: the result is a contiguous slice of the input, and everything cut off around it is white space |
| Strings.TrimSpaceChars | licentia.go:307 | trimming never introduces a character the input lacks |
| Strings.TrimSpaceKeepsPrefix | licentia.go:307 | a line that starts with a non-space keeps its first characters up to its last non-space |
| Scanner.Lines | licentia.go:302-306 | the scanner yields no line at all exactly when the input is empty |
| Scanner.IndexOfNewline | licentia.go:303-305 | the position of the first line break, or the length when there is none; nothing before it is a line break |
| Scanner.Terminated | licentia.go:247 | lines written back with `"\n"` give empty text exactly for no lines, and otherwise text that ends with a line break |
| Scanner.LinesCount | licentia.go:302-306 | the number of scanned lines is the number of line breaks, plus one for an unterminated last line |
| Scanner.LinesAppend | licentia.go:241-243 | scanning text that is split after a line break gives the lines of the first part followed by the lines of the second part |
| Scanner.TerminatedAppend | licentia.go:242-251 | writing lines back distributes over concatenation |
| Scanner.LinesOfTerminated | licentia.go:241-251 | when no line holds a line break, scanning the lines written back returns each line with one trailing carriage return dropped |
| Scanner.TerminatedOfLines | licentia.go:241-251 | writing back the scanned lines of newline-terminated text without `"\r\n"` reproduces that text exactly |
| Scanner.LinesNoNewline | licentia.go:303-306 | no scanned line contains a line break |
| Scanner.LinesChars | licentia.go:303-306 | scanning never introduces a character the text lacks |
| Scanner.LinesOfLine | licentia.go:303-306 | one terminated line scans to that single line, minus a trailing carriage return |
| Decimal.Digits | licentia.go:162 | the decimal digits of a natural number are non-empty, all digit characters, and have no leading zero |
| Decimal.Itoa | licentia.go:162 | the rendered number is non-empty and all digits apart from an optional leading minus, which appears exactly for negative numbers |
| Decimal.ItoaRoundTrip | licentia.go:162 | parsing the rendered number gives the number back |
| Decimal.ItoaInjective | licentia.go:162 | distinct years render differently |
| Placeholders.PlaceholdersExclusive | licentia.go:131 | the owner and year placeholders can never match at the same position |
| Placeholders.Substitute | licentia.go:140 | text without placeholders passes through substitution unchanged |
| Placeholders.SubstituteNoRescan | licentia.go:162 | a placeholder is replaced by the owner verbatim and scanning resumes after it, so placeholders inside the owner are not expanded |
| Placeholders.SubstituteVerbatim | licentia.go:291 | a prefix without `'@'` is copied through unchanged and the rest is substituted on its own |
| Placeholders.NoSpanningMatch | licentia.go:291 | no placeholder occurrence can straddle a line break |
| Placeholders.SubstituteAppend | licentia.go:291 | substituting over text joined at a line break is substituting in each part |
| Placeholders.SubstituteAppend3 | licentia.go:266-291 | the same for three parts: copyright block, header block and content |
| Placeholders.SubstituteEach | licentia.go:291 | the per-line substitution has one result per line, each the substituted line |
| Placeholders.SubstituteTerminated | licentia.go:291 | substituting newline-terminated lines is substituting in each line |
| Placeholders.SubstituteChars | licentia.go:131 | substitution introduces no character missing from the text, the owner and the year |
| Placeholders.SubstituteKeepsFinalNewline | licentia.go:291 | substituted text still ends with a line break if the input did |
| Replace.Index | licentia.go:259 | the first occurrence of the pattern, or -1 exactly when there is none |
| Replace.DeleteAll | licentia.go:259 | deleting every occurrence never lengthens the text |
| Replace.DeleteAllAbsent | licentia.go:259 | text without the pattern is left unchanged, and so is any text when the pattern is empty |
| Replace.DeleteAllShrinks | licentia.go:259 | when a non-empty pattern occurs, the text becomes strictly shorter |
| Replace.DeleteAllUnchanged | licentia.go:259 | for a non-empty pattern, the text is unchanged exactly when the pattern does not occur |
| Replace.DeleteAllLeading | licentia.go:259 | a leading occurrence is deleted and the rest is handled the same way |
| Replace.ReplaceWithEmpty | licentia.go:259 | the search-and-copy loop of the replacement computes exactly the reference deletion |
| Comment.CommentLines | licentia.go:305-311 | one comment line per template line, each the trimmed style, space and line |
| Comment.CommentBlock | licentia.go:297-318 | an empty template renders to nothing; otherwise the block ends with a line break |
| Comment.CommentLine | licentia.go:307 | a comment line neither starts nor ends with white space, and it holds no line break when the style and the template line hold none |
| Comment.DropCRCommentLines | licentia.go:307-308 | comment lines never end with a carriage return, since trimming removes it |
| Comment.CommentBlockLines | licentia.go:297-318 | when the style holds no line break, scanning a rendered block gives back exactly its comment lines, one per template line |
| Comment.CommentBlockLineCount | licentia.go:297-318 | when the style holds no line break, the block has as many lines as the template |
| Comment.CommentLinePrefix | licentia.go:307 | for a style that starts with a non-space and a word that ends with a non-space, a comment line starts with the style, a space and the word exactly when its template line starts with the word |
| Comment.CommentBlockChars | licentia.go:297-318 | rendering introduces no character absent from the style and the template, apart from space and line break |
| Licentia.RenderedAsset | licentia.go:268-283 | an asset renders to nothing exactly when it is missing or empty; otherwise its block ends with a line break |
| Licentia.LicenseBlock | licentia.go:266-283 | nothing is prepended exactly when the copyright and header assets are each missing or empty; otherwise the prepended block ends with a line break |
| Licentia.KeepLines | licentia.go:242-246 | the kept lines are exactly the lines that do not start with `// Copyright` |
| Licentia.RemoveLicense | licentia.go:221-262 | without a header asset the content is untouched; otherwise the result is no longer than the filtered text |
| Licentia.Dump | licentia.go:130-144 | dump fails exactly when the full-text asset is missing, naming it under `licenses/` |
| Licentia.IsSubAsset | licentia.go:328 | every name ending in `.header` or `.copyright` is a sub-asset that `list` skips |
| Licentia.LicenseNames | licentia.go:327-332 | the listed names are exactly the names ending in neither `header` nor `copyright` |
| Licentia.List | licentia.go:321-334 | list fails exactly when the directory listing fails; otherwise it lists exactly the license names |
| LicentiaLaws.YearChars | licentia.go:162 | the rendered year holds neither `'@'` nor a line break |
| Licentia.InsertLicense | licentia.go:265-294 | the inserted file is the substituted copyright block, then the substituted header block, then the substituted content: the replacer never joins text across the block boundaries |
| LicentiaLaws.InsertWithoutAssets | licentia.go:268-283 | with neither asset, insertion only substitutes placeholders in the content |
| LicentiaLaws.InsertKeepsContent | licentia.go:285-291 | content without placeholders ends up unchanged as a suffix of the inserted file |
| LicentiaLaws.InsertGrows | licentia.go:277-291 | when the header template is present and non-empty and the content has no placeholders, insertion always lengthens the file |
| LicentiaLaws.InsertNotIdempotent | licentia.go:265-294 | when the header template is present and non-empty and the inserted file has no placeholders, inserting twice gives a different file than inserting once |
| LicentiaLaws.KeepLinesAppend | licentia.go:242-251 | the line filter works line by line |
| LicentiaLaws.KeepLinesUnchanged | licentia.go:242-246 | the filter keeps every line exactly when no line starts with `// Copyright` |
| LicentiaLaws.KeepLinesNone | licentia.go:244-245 | lines that all start with `// Copyright` are all dropped |
| Licentia.DropCRUnmarked | licentia.go:243-244 | dropping a carriage return never makes a line start with the marker |
| Licentia.DropCRMarked | licentia.go:243-244 | dropping a carriage return keeps the marker at the start of a line |
| Licentia.StripCopyrightLines | licentia.go:241-251 | the filtered text is empty or ends with a line break, and, whatever the comment style, scanning it again meets no line that starts with `// Copyright` |
| Licentia.KeptLinesRescanned | licentia.go:242-251 | kept lines without line breaks, written back and scanned again, still include no line that starts with `// Copyright` |
| LicentiaLaws.StripCopyrightLinesAppend | licentia.go:241-251 | the filter works piece by piece on text split at a line boundary |
| LicentiaLaws.StripCopyrightLinesInert | licentia.go:241-251 | newline-terminated text without `"\r\n"` and without marked lines passes the filter unchanged |
| LicentiaLaws.RemoveUnchangedIff | licentia.go:235-259 | with a header asset, removal returns the filtered text exactly when the rendered header is empty or absent from it |
| LicentiaLaws.RemoveIgnoresStyle | licentia.go:244 | with an empty header template, the marked line is dropped and the other line kept, whatever comment style is configured |
| LicentiaLaws.DumpWithoutCopyright | licentia.go:137-140 | a missing copyright asset counts as empty: dump substitutes in the full text alone |
| LicentiaLaws.DumpKeepsFullText | licentia.go:137-140 | when the full text has no placeholders and any copyright text ends where a line ends, the full text is dumped unchanged as the suffix of the output |
| LicentiaLaws.LicenseNamesAppend | licentia.go:327-332 | the name filter works entry by entry and keeps the listing's order |
| LicentiaLaws.ListBareSuffix | licentia.go:321-332 | the suffix test has no dot: for every listing and every stem, neither the stem followed by `header` nor the stem followed by `copyright` is listed, so `myheader` is hidden along with `mpl2.header` |
| HeaderRoundTrip.SlashCommentMarked | licentia.go:244 | under `//`, a comment line carries the removal marker exactly when its template line starts with `Copyright` |
| HeaderRoundTrip.MarkedCommentLine | licentia.go:268-291 | a `Copyright` template line without a line break stays a single marked line once commented and substituted with an owner and year free of line breaks |
| HeaderRoundTrip.MarkedLinesStripped | licentia.go:242-251 | marked lines without line breaks, written back, vanish entirely from the filter |
| HeaderRoundTrip.CopyrightBlockStripped | licentia.go:242-251 | under the `//` style, a copyright template whose every line starts with `Copyright`, rendered and substituted with an owner and year free of line breaks, is removed completely by the filter |
| HeaderRoundTrip.HeaderBlockKept | licentia.go:242-251 | under the `//` style, a header template with no `'@'` and no line starting with `Copyright` renders to a block that passes the filter unchanged |
| HeaderRoundTrip.InsertedLayout | licentia.go:277-291 | with a header template and comment style free of `'@'` and placeholder-free content, the inserted file is the substituted copyright block, the literal header block and the content |
| HeaderRoundTrip.StripInserted | licentia.go:241-257 | when the substituted copyright block is empty or ends with a line break and is filtered away entirely, the header template is as in `HeaderBlockKept`, and the content is newline-terminated, has no `"\r\n"` and no marked line, the filter turns the inserted file into the header block followed by the content |
| HeaderRoundTrip.RemoveAfterInsert | licentia.go:221-294 | under the `//` style, an owner without line breaks, and the stated conditions on the templates and content, removing right after inserting returns the original content |
| Errors.Report | error.go:12-20 | the report is empty exactly when there are no messages, and otherwise ends with a line break |
| Errors.Error.Append | error.go:22-24 | appending keeps the earlier errors as a prefix and adds the new ones after them, in argument order; the message becomes the old message followed by the report of the new errors, and appending at least one error makes the aggregate non-empty |
| Errors.Error.IsEmpty | error.go:26-32 | the aggregate is empty exactly when it holds no error, which is exactly when its message is the empty string |
| Errors.Error.Message | error.go:12-20 | the string built message by message is the report of all errors, in order |
| Errors.ReportAppend | error.go:15-17 | the report of concatenated message lists is the concatenation of their reports |
| Errors.AppendNothing | error.go:22-24 | appending no errors leaves the aggregate unchanged |
| Errors.ReportLength | error.go:15-17 | the message is as long as all messages together plus three characters per message |
| Errors.ReportLines | error.go:15-17 | when no message holds a line break, the message scanned back has one line per error, each `"! "` and the error text minus one trailing carriage return |

## Left out

- `main` and its command-line parsing (licentia.go:20-97) are left out: they are glue around an argument-parsing library.
- `Set` and `Unset` (licentia.go:147-218) are left out. They expand globs, run one goroutine per file, append to an unsynchronised `Error` and share an `err` variable. Only the per-file transforms and the aggregate error are modelled.
- File reading and writing, and the 0640 mode, are left out. Content is an input string and the new file is the result. The ignored `ReadFile` error at licentia.go:237 and licentia.go:285 is therefore not modelled.
- The embedded asset functions `Asset` and `AssetDir` are not part of this model. They become a catalog map and an optional directory listing.
- `time.Now().Year()` becomes the `year` parameter.
- Printing by `Dump` and `List` is left out: the model returns the dumped text and the listed names instead.
- The scanner's 64 KiB line limit and its `Scanner error` path are left out: lines are unbounded.
- A write error from the in-memory buffer is left out, because buffer writes do not fail.
- `Detect` (licentia.go:336-339) is a stub that returns `unknown`, so it is left out.
- `filepath.Join` is modelled as plain joining with `/`. It would clean unusual license names such as ones containing `..`, and that is not modelled.
- Go strings are bytes. The model works on characters, so invalid UTF-8, which Go handles byte by byte, is not modelled.
- `Errors.Error.Message`: an error's message is held as the string its `Error()` method returns, so nil errors are not modelled.
- `HeaderRoundTrip.RemoveAfterInsert`: the round trip is proved only under its stated conditions. Without them it does not hold; for example, a non-`//` style leaves the copyright lines in place.
- The expectation in licentia_test.go:52 is not modelled. That test is written against a different signature of `Set`, `List` and `Dump`, and the license assets it relies on are not part of this model.
