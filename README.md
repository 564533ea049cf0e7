# Compendium site tools, modelled in Dafny

This project models the logic of three of the site's deployment scripts.

- `deploy_tools/generate_compendium.py` turns each parsed BibTeX record into a normalised compendium entry. The entry holds the numeric year, the month number looked up in the month-name table, the brace-stripped title, the publisher from the first present key, the tags split on `", "`, and the authors from `{...}` groups. Entries receive the positional ids `0..n-1`. The script then renders one Hugo page per entry: a TOML front matter between `+++` lines with the escaped title, then a body of optional paragraphs in a fixed order.
- `deploy_tools/bibtex_verify.py` reads the string `ID` of every entry and reports the identifiers that occur more than once.
- `deploy_tools/get_dependencies.py` installs vendored assets. Its pure rules are modelled:
  - which vendor directory a file goes to;
  - the SHA-256 checksum format check and digest comparison;
  - the `{{ version }}` placeholder substitution;
  - the source/destination pairs of the final move.

Modules:

| file | module | contents |
|---|---|---|
| `wrappers.dfy` | `Wrappers` | `Option` and `Result` |
| `text.dfy` | `Text` | the string methods the scripts use: one-character `replace`, `split`/`join`, ASCII `lower` |
| `numerals.dfy` | `Numerals` | `int()` of a decimal string, `str()` of an integer |
| `paths.dfy` | `Paths` | `os.path.join` and `os.path.basename` on `/`-separated paths |
| `toml_string.dfy` | `TomlString` | a decoder for TOML v1.0.0 basic strings, covering the short escapes of section "String" of the TOML specification |
| `compendium.dfy` | `Compendium` | record extraction, the month tables, the id-assigning loop |
| `pages.dfy` | `Pages` | the page text, title escaping and the step-by-step renderer |
| `bib_verify.dfy` | `BibVerify` | the duplicate-identifier check |
| `dependencies.dfy` | `Dependencies` | move paths, checksums, version placeholders, move pairs |

The TOML decoder is the partner of the title escaping. For a title with no control characters other than tab, reading the title line of a rendered page gives back the entry's title, stopping exactly at the closing quotation mark.

Python truthiness is followed exactly:
- a year or month of `0` is treated as absent;
- an empty URL or abstract still adds an empty paragraph, because the filter on line 187 drops only `None`.

`generate_page_for_entry` reads `entry["title"]` (line 142) and calls `.replace` on it (line 143), so an entry whose title is `None` raises `AttributeError`; `Pages.Page` fails with `TitleMissing` exactly then.

## Model

| member | source | states |
|---|---|---|
| Compendium.MonthNumber | deploy_tools/generate_compendium.py:37 | a name maps to a month number that names it back; a name is unmapped iff it is not in the English month table, whose index 0 is `""` |
| Compendium.MonthTablesInverse | deploy_tools/generate_compendium.py:33-37 | name-to-number after number-to-name is the identity on `0..12` |
| Compendium.MonthLookupExamples | deploy_tools/generate_compendium.py:37 | `"March"` gives 3, an unknown name gives nothing, `""` gives 0 |
| Compendium.MonthName | deploy_tools/generate_compendium.py:34 | `ID_MONTH_MAPPING[m]`, the English month name with `""` for 0; `MonthNumber` and `MonthTablesInverse` show it is the inverse of the name-to-number table |
| Numerals.ParseInt | deploy_tools/generate_compendium.py:80 | `int(s)` succeeds exactly on an optional sign followed by one or more ASCII digits |
| Numerals.Digits | deploy_tools/generate_compendium.py:158-160 | `str(n)` of a natural number is a non-empty digit string with no leading zero |
| Numerals.DigitChar | deploy_tools/generate_compendium.py:158-160 | the character of a digit is a digit of that value |
| Numerals.DigitsValueOfDigits | deploy_tools/generate_compendium.py:80 | reading the digits of `n` gives `n` |
| Numerals.ParseDecimal | deploy_tools/generate_compendium.py:80 | `int(str(n)) == n` for every integer |
| Numerals.DecimalInjective | deploy_tools/generate_compendium.py:199 | different integers have different decimal strings |
| Numerals.Decimal | deploy_tools/generate_compendium.py:158-160 | `str(n)` of an integer: a `-` for negatives, then the digits; `ParseDecimal` reads it back and `DecimalInjective` keeps different integers apart |
| Compendium.ExtractDate | deploy_tools/generate_compendium.py:75-83 | fails iff a year is present and is not an integer, reporting that text; otherwise the year is `int(year)` or absent, the month is present iff its name is in the table and then names it back, and the day is always absent |
| Text.ReplaceChar | deploy_tools/generate_compendium.py:90 | replacing a character that does not occur changes nothing; the character is gone unless the replacement contains it; deleting never lengthens |
| Text.ReplaceCharKeepsAbsent | deploy_tools/generate_compendium.py:90 | a character in neither the text nor the replacement stays absent |
| Text.ReplaceCharAppend | deploy_tools/generate_compendium.py:143-144 | replacement works piecewise over concatenation |
| Compendium.StripBraces | deploy_tools/generate_compendium.py:90 | the result has no `{` or `}`, is the input when the input has none, and is no longer than the input |
| Compendium.StripBracesDeletes | deploy_tools/generate_compendium.py:90 | brace removal distributes over concatenation and deletes exactly the brace characters |
| Compendium.StripBracesIdempotent | deploy_tools/generate_compendium.py:90 | stripping twice is stripping once |
| Compendium.ExtractTitle | deploy_tools/generate_compendium.py:86-91 | absent iff the record has no title; a present title has no braces and is unchanged when the record's title had none |
| Compendium.FirstPresent | deploy_tools/generate_compendium.py:95-98 | nothing iff no key is present; otherwise the value of some present key |
| Compendium.PublisherPreference | deploy_tools/generate_compendium.py:94-98 | `publisher` wins over `journal`, which wins over `journaltitle`; none of them gives nothing |
| Compendium.ExtractPublisher | deploy_tools/generate_compendium.py:94-98 | the first present of `publisher`, `journal` and `journaltitle`; see `FirstPresent` and `PublisherPreference` |
| Text.Split | deploy_tools/generate_compendium.py:104 | `split` always yields at least one piece |
| Text.JoinPrependFirst | deploy_tools/generate_compendium.py:104 | prefixing the first piece prefixes the joined text |
| Text.JoinSplit | deploy_tools/generate_compendium.py:104 | joining the pieces of a split with the separator restores the string |
| Text.SplitExample | deploy_tools/generate_compendium.py:104 | `"a, b, c"` splits into `a`, `b`, `c` |
| Text.SplitHeadIsPrefix | deploy_tools/generate_compendium.py:104 | the first piece is a prefix of the string |
| Text.SplitPiecesAvoidSeparator | deploy_tools/generate_compendium.py:104 | no piece contains the separator |
| Text.Join | deploy_tools/generate_compendium.py:188 | `sep.join(parts)`: the pieces with the separator between neighbours; `JoinSplit` shows it undoes `split` and `JoinPrependFirst` gives its behaviour on the first piece |
| Compendium.ExtractTags | deploy_tools/generate_compendium.py:101-107 | no keywords gives `[]`; otherwise at least one tag, the tags joined by `", "` give back the keywords, and no tag contains `", "` |
| Compendium.TagsExamples | deploy_tools/generate_compendium.py:101-107 | `"a, b, c"` gives three tags, `""` gives `[""]`, no keywords gives `[]` |
| Text.IndexOf | deploy_tools/generate_compendium.py:113-114 | the first position of a character, absent iff it does not occur |
| Compendium.BraceGroups | deploy_tools/generate_compendium.py:113-114 | every group found by `\{([^\}]+)\}` is non-empty and has no `}` |
| Compendium.NoBraceNoGroups | deploy_tools/generate_compendium.py:113-114 | text without `{` has no groups |
| Compendium.BraceGroupsStep | deploy_tools/generate_compendium.py:113-114 | a braced name after brace-free text is found first, then the search continues after it |
| Compendium.BraceGroupsOfBracedNames | deploy_tools/generate_compendium.py:113-116 | names wrapped in braces between brace-free gaps are found in order of occurrence |
| Compendium.ExtractAuthors | deploy_tools/generate_compendium.py:110-121 | empty iff no author field; with groups, the groups in order; without groups, the whole field unchanged |
| Compendium.AuthorsExample | deploy_tools/generate_compendium.py:110-121 | two braced names give both names; an unbraced field gives itself |
| Compendium.ExtractEntry | deploy_tools/generate_compendium.py:56-69 | fails exactly when the date fails, with that error; the entry carries the given id and no day |
| Compendium.ParseEntries | deploy_tools/generate_compendium.py:53-72 | succeeds iff every record extracts; then one entry per record, in order, entry `i` is record `i` extracted with id `i`; a failure is the error of a failing record |
| Pages.Shortcodes | deploy_tools/generate_compendium.py:175 | one `{{< tag tagname="t" >}}` shortcode per tag, in order |
| Pages.AuthorsParagraph | deploy_tools/generate_compendium.py:146-152 | `**Authors**: ` and the names joined with `, ` when there are any, otherwise nothing; see `ParagraphShownIff` |
| Pages.PublishedParagraph | deploy_tools/generate_compendium.py:154-164 | month name and year when both are truthy, the year alone when only it is, otherwise nothing; see `PublishedDateReadsBack` and `PublishedYearOnlyReadsBack` |
| Pages.UrlParagraph | deploy_tools/generate_compendium.py:166-170 | a Markdown link whose label and target are both a non-empty URL, an empty paragraph for `""`, nothing when absent; see `ParagraphShownIff` |
| Pages.TagsParagraph | deploy_tools/generate_compendium.py:172-177 | the intended tags paragraph, with one shortcode per tag separated by spaces and nothing without tags; see `UntaggedPageHasNoTagsParagraph` |
| Pages.TagsParagraphAsWritten | deploy_tools/generate_compendium.py:172-177 | the tags slot as the code fills it: the intended paragraph when there are tags, else the text `[]`; see `UntaggedPageShowsBracketsAsWritten` |
| Pages.AbstractParagraph | deploy_tools/generate_compendium.py:179-183 | `**Abstract**: ` and the abstract when it is non-empty, an empty paragraph for `""`, nothing when absent; see `ParagraphShownIff` |
| Pages.Present | deploy_tools/generate_compendium.py:187 | the kept paragraphs are exactly the present slots, and there are no more of them than slots |
| Pages.PresentAppend | deploy_tools/generate_compendium.py:187 | filtering distributes over concatenation |
| Pages.PresentSkipsNone | deploy_tools/generate_compendium.py:163-164 | a missing date slot leaves the same paragraphs as appending no slot |
| Pages.PresentKeepsOrder | deploy_tools/generate_compendium.py:187 | filtering keeps the slots' order |
| Pages.Texts | deploy_tools/generate_compendium.py:187 | the text of each kept paragraph, in order |
| Pages.Slots | deploy_tools/generate_compendium.py:146-183 | the five intended slots in the order the code appends them; see `ParagraphsInFixedOrder` |
| Pages.SlotsAsWritten | deploy_tools/generate_compendium.py:146-183 | the five slots as the code appends them, with the as-written tags slot; see `AsWrittenAgreesWhenTagged` |
| Pages.Paragraphs | deploy_tools/generate_compendium.py:185-187 | the present intended slots, in order; see `ParagraphsInFixedOrder` and `ParagraphShownIff` |
| Pages.ParagraphsAsWritten | deploy_tools/generate_compendium.py:185-187 | the present slots as written, in order; see `UntaggedBodyAsWritten` and `AsWrittenAgreesWhenTagged` |
| Pages.Body | deploy_tools/generate_compendium.py:187-188 | the intended paragraphs joined with blank lines; used by `Page` and `PageTitleReadsBack` |
| Pages.BodyAsWritten | deploy_tools/generate_compendium.py:187-188 | the as-written paragraphs joined with blank lines; used by `PageAsWritten` and `PageAsWrittenAgreesWhenTagged` |
| Pages.ParagraphsInFixedOrder | deploy_tools/generate_compendium.py:146-188 | the paragraphs come in the order Authors, Published, URL, Tags, Abstract |
| Pages.ParagraphShownIff | deploy_tools/generate_compendium.py:146-187 | a paragraph shows iff its value is truthy: authors non-empty, year non-zero, URL present, tags non-empty, abstract present |
| Pages.UntaggedPageHasNoTagsParagraph | deploy_tools/generate_compendium.py:172-177 | with the intended tags rule, an untagged entry has no Tags paragraph |
| Pages.UntaggedPageShowsBracketsAsWritten | deploy_tools/generate_compendium.py:172-177 | as written, an untagged entry gets a paragraph reading `[]` |
| Pages.AsWrittenAgreesWhenTagged | deploy_tools/generate_compendium.py:172-177 | the as-written and intended bodies agree on every tagged entry |
| Pages.UntaggedBodyAsWritten | deploy_tools/generate_compendium.py:172-187 | as written, an untagged body is the intended body with a `[]` paragraph between the URL and the abstract |
| Pages.PageAsWritten | deploy_tools/generate_compendium.py:142-197 | as written, rendering fails iff the title is absent; a rendered page always starts with `+++` and `draft = false` |
| Pages.PageAsWrittenAgreesWhenTagged | deploy_tools/generate_compendium.py:172-197 | the as-written and intended pages agree on every tagged entry |
| Pages.PublishedDateReadsBack | deploy_tools/generate_compendium.py:155-158 | with year and month truthy the paragraph is "Month Year", and extracting that month and year gives them back |
| Pages.PublishedYearOnlyReadsBack | deploy_tools/generate_compendium.py:159-160 | with only the year truthy the paragraph is the year alone, which reads back as that year |
| Pages.EscapeTitleCons | deploy_tools/generate_compendium.py:143-144 | escaping works character by character: `\` becomes `\\`, `"` becomes `\"`, anything else stays |
| Pages.EscapeTitle | deploy_tools/generate_compendium.py:143-144 | `\` is doubled first, then `"` is escaped; `EscapeTitleCons` shows it works character by character, `EscapeRoundTrip` that TOML reads it back, and `QuoteFirstEscapingBreaks` that the order matters |
| Pages.EscapeFirstChar | deploy_tools/generate_compendium.py:143-144 | the escaped title is the first character's escape followed by the rest's |
| Pages.DecodeEscapeChar | deploy_tools/generate_compendium.py:143-144 | TOML decoding of one escaped character gives that character |
| Pages.EscapeRoundTrip | deploy_tools/generate_compendium.py:138-144 | TOML decoding the escaped title followed by `"` gives back the title and stops at that quotation mark |
| Pages.QuoteFirstEscapingBreaks | deploy_tools/generate_compendium.py:143-144 | escaping `"` before doubling `\` would turn `"` into `\\"`, which decodes to a lone backslash and ends the string early |
| Pages.LineBreakInTitleIsNotEscaped | deploy_tools/generate_compendium.py:143-144 | a line break passes through the escaping unchanged and the TOML title line is then rejected |
| TomlString.DecodeBasic | deploy_tools/generate_compendium.py:193 | a decoded string leaves strictly less text after it than it was given |
| Pages.PageText | deploy_tools/generate_compendium.py:190-197 | the front matter around the escaped title, the tags literal and the body; see `PageTextShape` and `PageTitleReadsBack` |
| Pages.PageTextShape | deploy_tools/generate_compendium.py:190-197 | the page starts with `+++`, `draft = false` and the opening of the title string, and the escaped title follows it |
| Pages.Page | deploy_tools/generate_compendium.py:142-197 | rendering fails iff the title is absent; a rendered page always starts with `+++` and `draft = false` |
| Pages.PageTitleReadsBack | deploy_tools/generate_compendium.py:142-144 | for a title with no control characters other than tab, TOML decoding the title line of the rendered page gives the entry's title, and the rest of the page follows the closing quotation mark |
| Pages.PagePathsDistinct | deploy_tools/generate_compendium.py:199 | entries with different ids are written to different files |
| Pages.PagePath | deploy_tools/generate_compendium.py:199 | `content/entries/<id>.md`; see `PagePathsDistinct` |
| Pages.RenderPage | deploy_tools/generate_compendium.py:135-197 | the step-by-step construction (escape, append slots, filter, join, front matter) gives exactly `Pages.Page`, the page with the corrected tags slot, and fails when the title is absent |
| BibVerify.GetEntryId | deploy_tools/bibtex_verify.py:18-25 | succeeds iff `ID` is present and a string, returning it; a missing `ID` is `KeyError`, a non-string one a `TypeError` naming its type |
| BibVerify.EntryIds | deploy_tools/bibtex_verify.py:29 | succeeds iff every entry has a valid identifier; then one identifier per entry in order; otherwise the error of the first entry without one |
| BibVerify.Count | deploy_tools/bibtex_verify.py:32 | a count is positive iff the identifier occurs, and at most the length |
| BibVerify.CountAboveOne | deploy_tools/bibtex_verify.py:31-33 | an identifier counts more than once iff it sits at two different positions |
| BibVerify.DistinctIffNoRepeat | deploy_tools/bibtex_verify.py:27-36 | the identifiers are pairwise distinct iff none counts more than once |
| BibVerify.FindDuplicates | deploy_tools/bibtex_verify.py:30-33 | the collected set is exactly the identifiers with count above one |
| BibVerify.CheckForDuplicateIds | deploy_tools/bibtex_verify.py:27-36 | fails exactly when an identifier is invalid, with that error; otherwise reports nothing iff all identifiers are distinct, and a reported set is non-empty and is exactly the repeated identifiers |
| Paths.Basename | deploy_tools/get_dependencies.py:234 | a base name has no `/`, and a path without `/` is its own base name |
| Paths.BasenameAppend | deploy_tools/get_dependencies.py:234 | the base name of a concatenation depends on whether the second part has a `/` |
| Paths.BasenameOfJoin | deploy_tools/get_dependencies.py:234 | the base name of `join(a, b)` is the base name of `b` |
| Paths.PathJoin | deploy_tools/get_dependencies.py:234 | posix `os.path.join` of two parts: an absolute second part replaces the first, otherwise they are joined with one `/`; see `BasenameOfJoin` |
| Dependencies.FindSaveDir | deploy_tools/get_dependencies.py:232-234 | no directory iff no pattern in the table matches |
| Dependencies.PatternMatches | deploy_tools/get_dependencies.py:92-94 | `re.match` of `.*\.ext$`: a path without a line break before its last character, ending in `.ext` once a final newline is dropped; see `FindSaveDir` and `ExtensionsExclusive` |
| Dependencies.GetMovePath | deploy_tools/get_dependencies.py:226-236 | the loop returns the first matching row's directory joined with the base name, or the unrecognised-type error |
| Dependencies.MovePath | deploy_tools/get_dependencies.py:226-236 | `get_move_path`: the first matching directory joined with the base name, else `UnrecognizedFileType`; `GetMovePath` computes it by the loop and `MovePathByExtension` and `MovePathKeepsBasename` pin it down |
| Dependencies.FindSaveDirInOrder | deploy_tools/get_dependencies.py:91-95 | the table is tried `.js`, then `.css`, then `.ttf` |
| Dependencies.ExtensionsExclusive | deploy_tools/get_dependencies.py:91-95 | two extensions differing near their end never match the same path |
| Dependencies.MovePathByExtension | deploy_tools/get_dependencies.py:91-95 | `.js`, `.css` and `.ttf` go to the script, style and font directories; every other path is rejected as unrecognised |
| Dependencies.MovePathKeepsBasename | deploy_tools/get_dependencies.py:234 | a moved file keeps its base name |
| Dependencies.CheckChecksum | deploy_tools/get_dependencies.py:132-139 | fails iff a non-empty checksum does not begin with 64 hex digits; a missing checksum passes while checksums are not required |
| Dependencies.LongChecksumAccepted | deploy_tools/get_dependencies.py:89 | 64 hex digits followed by anything pass the format check |
| Dependencies.IsSha256Prefix | deploy_tools/get_dependencies.py:89 | `SHA256_PATT.match`: the first 64 characters are hex digits in either case; see `CheckChecksum` and `LongChecksumAccepted` |
| Text.Lower | deploy_tools/get_dependencies.py:216 | lower-casing keeps the length and maps each character |
| Dependencies.VerifyDigest | deploy_tools/get_dependencies.py:214-221 | fails iff a non-empty checksum, lower-cased, differs from the digest |
| Dependencies.LowerIdempotent | deploy_tools/get_dependencies.py:216 | lower-casing twice is lower-casing once |
| Dependencies.VerifyDigestIgnoresCase | deploy_tools/get_dependencies.py:216-217 | the comparison gives the same verdict for a checksum and its lower-case form |
| Dependencies.LongChecksumNeverVerifies | deploy_tools/get_dependencies.py:214-221 | a checksum longer than 64 characters never matches a 64-character digest |
| Dependencies.SpaceRun | deploy_tools/get_dependencies.py:88 | `\s*` takes the longest run of whitespace |
| Dependencies.SpaceRunOfSpaces | deploy_tools/get_dependencies.py:88 | whitespace followed by a non-space is taken whole |
| Dependencies.PlaceholderLength | deploy_tools/get_dependencies.py:88 | a match starts with `{` and is at least the eleven characters of `{{version}}` |
| Dependencies.PlaceholderLengthSound | deploy_tools/get_dependencies.py:88 | every match is exactly `{{`, whitespace, `version`, whitespace, `}}` |
| Dependencies.MatchIsPlaceholder | deploy_tools/get_dependencies.py:88 | the text the matcher accepts splits into the braces, two whitespace runs and `version` |
| Dependencies.NearMissesNotMatched | deploy_tools/get_dependencies.py:88 | `{{ver}}`, `{{ version }` and `{ version }}` are not matched |
| Dependencies.PlaceholderSlices | deploy_tools/get_dependencies.py:88 | where the parts of a placeholder begin and end |
| Dependencies.PlaceholderRecognised | deploy_tools/get_dependencies.py:88 | every `{{ version }}` with any whitespace inside the braces is matched whole, whatever follows |
| Dependencies.SubstituteKeepsPlainPrefix | deploy_tools/get_dependencies.py:117 | text without `{` is copied before the substituted rest |
| Dependencies.SubstituteWithoutBraces | deploy_tools/get_dependencies.py:117 | a string without `{` is left unchanged |
| Dependencies.SubstituteStep | deploy_tools/get_dependencies.py:117 | a brace-free prefix, one placeholder and a tail become the prefix, the version and the substituted tail |
| Dependencies.SubstituteTemplate | deploy_tools/get_dependencies.py:116-118 | brace-free pieces separated by placeholders, each with its own whitespace inside the braces, become the pieces separated by the version |
| Dependencies.SubstituteVersion | deploy_tools/get_dependencies.py:117 | `VERSION_PATT.sub(version, s)`, replacing leftmost matches without overlap; `SubstituteStep`, `SubstituteTemplate` and `SubstituteWithoutBraces` pin it down |
| Dependencies.SubstituteAll | deploy_tools/get_dependencies.py:118 | the file list keeps its length and order, and each name is substituted |
| Dependencies.Dependency.constructor | deploy_tools/get_dependencies.py:109-113 | a dependency holds the name, URL, files, checksum and version it was read with |
| Dependencies.Dependency.ApplyVersion | deploy_tools/get_dependencies.py:116-119 | with a truthy version, the URL and the stored file list are substituted; otherwise both are unchanged |
| Dependencies.CheckFileTypes | deploy_tools/get_dependencies.py:166-178 | succeeds iff every requested file under the output directory has a recognised type |
| Dependencies.DownloadOutcome | deploy_tools/get_dependencies.py:130-180 | yields the output directory iff the checksum format, the digest and every file type pass |
| Dependencies.DownloadedChecksumMatches | deploy_tools/get_dependencies.py:132-134 | after a successful download, a given checksum is well formed and its lower-case form is the digest |
| Dependencies.DownloadedFilesCanMove | deploy_tools/get_dependencies.py:290-292 | after a successful download, every file of the dependency has a move path |
| Dependencies.JoinAll | deploy_tools/get_dependencies.py:252-253 | each file joined to the output directory, in order |
| Dependencies.MovePaths | deploy_tools/get_dependencies.py:254 | succeeds iff every file is recognised, giving each file's move path in order; a failure names the first unrecognised file |
| Dependencies.Zip | deploy_tools/get_dependencies.py:257 | pairs the two lists position by position, as many pairs as the shorter list |
| Dependencies.MoveDependencyFiles | deploy_tools/get_dependencies.py:247-257 | succeeds iff every file is recognised; then one pair per file and per license, files first; each file goes to its move path and each license to `LICENSE_DIR/name/basename`; a failure names the first unrecognised file |
| Dependencies.LicenseKeepsBasename | deploy_tools/get_dependencies.py:255 | a moved license keeps its base name |

## Left out

- Reading the `.bib` file through `bibtexparser`, and `entries_dict`, which keeps only one of several entries sharing a key. `Compendium.ParseEntries` takes the parsed records in dictionary order as input.
- Writing `entries.js`, `json.dumps`, the pages' files, `argparse` and every `print`. This includes the debugging `print(type(entry))` on line 55. The pages are returned as strings, and the output list has the entries' order.
- Pages.Page: the `tags = ...` line of the front matter is Python's `repr` of the tag list. Its quoting is interpreter-defined, so it is a parameter `tagsLiteral`.
- Compendium.MonthNumber: `calendar.month_name` depends on the locale. It is fixed as the English table with `""` at index 0.
- Numerals.ParseInt: Python's `int()` also accepts surrounding whitespace, underscores between digits and non-ASCII digits. Those years are errors here.
- Text.Lower: lower-cases ASCII letters only, where Python's `str.lower` maps all of Unicode. Digests are ASCII.
- Paths.PathJoin: only the `/` rules of `os.path.join` are modelled. There is no normalisation, and `relpath` is not modelled. Directories are the relative paths seen from the repository root.
- Dependencies.SubstituteVersion: the version is inserted literally. `re.sub` would also process backslash escapes in the version string.
- Dependencies.DownloadOutcome: the network download is not modelled, nor are `aiohttp`/`aiofiles`, the semaphore, `asyncio.gather` concurrency, zip/tar extraction, SHA-256 hashing itself, and the existence and is-a-file checks on lines 168-175. The digest and the output directory are inputs.
- The warnings about placeholders without a version (lines 120-128), all logging, and the cache directory cleanup.
- Dependencies.MoveDependencyFiles: returns the (source, destination) pairs instead of calling `shutil.move`. The `os.makedirs` of the license directory is not modelled.
- Dependencies.Dependency.ApplyVersion: the dependency dictionary is a class holding only the fields the installer reads. A missing `files` key is the empty list.
- BibVerify.CheckForDuplicateIds: returns the set of repeated identifiers instead of the message `duplicate IDs: {...}`. Python's set formatting is interpreter-defined. The script's exit status is not modelled.
- Pages.EscapeRoundTrip: holds only for titles without control characters other than tab. The escaping leaves those characters as they are, and TOML rejects them unescaped (see `Pages.LineBreakInTitleIsNotEscaped`).
- Pages.PageTitleReadsBack: has the same limit as `Pages.EscapeRoundTrip`, since it is built on it: titles with control characters other than tab are excluded.
- `deploy_tools/scrape_zotero.py` (a network client) and `deploy_tools/normalize-unicode.py` (a wrapper around Unicode normalisation and a file rename) are not part of this model.

## Findings

| source | as written | input that shows it | evidently intended | confidence | as-written member | corrected member |
|---|---|---|---|---|---|---|
| deploy_tools/generate_compendium.py:172-177 | when `tags` is the empty list, `if tags:` is false and the list itself is appended; the `is not None` filter keeps it, so it is rendered as `[]` | an entry without keywords (`tags == []`) | no Tags paragraph for an untagged entry, like every other empty field | not executed | Pages.UntaggedPageShowsBracketsAsWritten | Pages.UntaggedPageHasNoTagsParagraph |

`Pages.ParagraphsAsWritten` and `Pages.PageAsWritten` build the body and the page the way the code does. `Pages.Paragraphs` and `Pages.Page` build the intended ones, and `Pages.RenderPage` uses them. `Pages.AsWrittenAgreesWhenTagged` and `Pages.PageAsWrittenAgreesWhenTagged` show the two differ only on untagged entries, and `Pages.UntaggedBodyAsWritten` says exactly how.

The same `is not None` filter on line 187 also keeps an empty URL or an empty abstract, which then renders as an empty paragraph. This has a lower impact, since such an entry is unusual and the page stays readable, so the model keeps it as written, in both bodies.
