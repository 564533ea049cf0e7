/**
 * The pure rules of the vendor-dependency installer: where a downloaded
 * file is moved to, how a SHA-256 checksum is checked, how `{{ version }}`
 * placeholders are filled in, and which source/destination pairs a
 * dependency's files and licenses are moved along.
 *
 * Directories are the installer's relative paths as seen from the
 * repository root.
 */
module Dependencies {
  import opened Wrappers
  import opened Text
  import opened Paths

  const VENDOR_JS_DIR: string := "assets/js/vendor"
  const VENDOR_CSS_DIR: string := "static/css"
  const VENDOR_FONTS_DIR: string := "static/fonts"
  const LICENSE_DIR: string := "public/misc/LICENSE"

  /** A dependency without a checksum is accepted. */
  const REQUIRE_CHECKSUM: bool := false

  datatype DepError =
    | InvalidChecksum(name: string)
    | ChecksumRequired(name: string)
    | ChecksumMismatch(name: string)
    | UnrecognizedFileType(path: string)

  /** Python truthiness of an optional string: present and non-empty. */
  predicate Truthy(s: Option<string>) {
    s.Some? && s.value != ""
  }

  // ---------------------------------------------------------------------
  // Destination directories
  // ---------------------------------------------------------------------

  /** A vendor directory and the extension of the pattern `.*\.ext$` that selects it. */
  datatype SaveDir = SaveDir(dir: string, extension: string)

  const SAVE_DIRS: seq<SaveDir> := [
    SaveDir(VENDOR_JS_DIR, ".js"),
    SaveDir(VENDOR_CSS_DIR, ".css"),
    SaveDir(VENDOR_FONTS_DIR, ".ttf")
  ]

  /** The path without one final newline, if it has one. */
  function DropFinalNewline(path: string): string {
    if path != [] && path[|path| - 1] == '\n' then path[..|path| - 1] else path
  }

  /**
   * `re.match(r".*\.ext$", path)`: `.*` cannot cross a newline and `$` also
   * matches just before a final newline, so the path, less one final
   * newline, is a single line ending in the extension.
   */
  predicate PatternMatches(path: string, ext: string) {
    var line := DropFinalNewline(path);
    EndsWith(line, ext) && '\n' !in line
  }

  /** The directory of the first table row whose pattern matches `path`. */
  function FindSaveDir(dirs: seq<SaveDir>, path: string): (r: Option<string>)
    ensures r.None? <==> forall k :: 0 <= k < |dirs| ==> !PatternMatches(path, dirs[k].extension)
  {
    if dirs == [] then None
    else if PatternMatches(path, dirs[0].extension) then Some(dirs[0].dir)
    else
      assert forall k :: 1 <= k < |dirs| ==> dirs[k] == dirs[1..][k - 1];
      FindSaveDir(dirs[1..], path)
  }

  /** Where `get_move_path` sends a saved file. */
  function MovePath(path: string): Result<string, DepError> {
    match FindSaveDir(SAVE_DIRS, path)
    case None => Failure(UnrecognizedFileType(path))
    case Some(dir) => Success(PathJoin(dir, Basename(path)))
  }

  /** `get_move_path`: the loop over `SAVE_DIRS` that returns at the first match. */
  method GetMovePath(path: string) returns (r: Result<string, DepError>)
    ensures r == MovePath(path)
  {
    for i := 0 to |SAVE_DIRS|
      invariant FindSaveDir(SAVE_DIRS[i..], path) == FindSaveDir(SAVE_DIRS, path)
    {
      var row := SAVE_DIRS[i];
      if PatternMatches(path, row.extension) {
        return Success(PathJoin(row.dir, Basename(path)));
      }
      assert SAVE_DIRS[i..][1..] == SAVE_DIRS[i + 1..];
    }
    return Failure(UnrecognizedFileType(path));
  }

  /** `MovePath` tries the three patterns in table order. */
  lemma FindSaveDirInOrder(path: string)
    ensures FindSaveDir(SAVE_DIRS, path) ==
      if PatternMatches(path, ".js") then Some(VENDOR_JS_DIR)
      else if PatternMatches(path, ".css") then Some(VENDOR_CSS_DIR)
      else if PatternMatches(path, ".ttf") then Some(VENDOR_FONTS_DIR)
      else None
  {
    var rest := [SaveDir(VENDOR_CSS_DIR, ".css"), SaveDir(VENDOR_FONTS_DIR, ".ttf")];
    var last := [SaveDir(VENDOR_FONTS_DIR, ".ttf")];
    assert SAVE_DIRS[1..] == rest;
    assert rest[1..] == last;
    assert last[1..] == [];
    assert FindSaveDir(last, path) == if PatternMatches(path, ".ttf") then Some(VENDOR_FONTS_DIR) else None;
    assert FindSaveDir(rest, path) ==
      if PatternMatches(path, ".css") then Some(VENDOR_CSS_DIR) else FindSaveDir(last, path);
  }

  /** Two extensions that differ at the `k`-th character from their end never match the same path. */
  lemma ExtensionsExclusive(path: string, e1: string, e2: string, k: nat)
    requires k < |e1| && k < |e2|
    requires e1[|e1| - 1 - k] != e2[|e2| - 1 - k]
    ensures !(PatternMatches(path, e1) && PatternMatches(path, e2))
  {
    var line := DropFinalNewline(path);
    if EndsWith(line, e1) && |e2| <= |line| {
      assert line[|line| - 1 - k] == line[|line| - |e1|..][|e1| - 1 - k];
      assert line[|line| - 1 - k] == line[|line| - |e2|..][|e2| - 1 - k];
    }
  }

  /** Each extension is sent to its own directory; nothing else is recognised. */
  lemma MovePathByExtension(path: string)
    ensures PatternMatches(path, ".js") ==> MovePath(path) == Success(PathJoin(VENDOR_JS_DIR, Basename(path)))
    ensures PatternMatches(path, ".css") ==> MovePath(path) == Success(PathJoin(VENDOR_CSS_DIR, Basename(path)))
    ensures PatternMatches(path, ".ttf") ==> MovePath(path) == Success(PathJoin(VENDOR_FONTS_DIR, Basename(path)))
    ensures MovePath(path).Failure? <==>
      !PatternMatches(path, ".js") && !PatternMatches(path, ".css") && !PatternMatches(path, ".ttf")
    ensures MovePath(path).Failure? ==> MovePath(path).error == UnrecognizedFileType(path)
  {
    FindSaveDirInOrder(path);
    ExtensionsExclusive(path, ".js", ".css", 1);
    ExtensionsExclusive(path, ".js", ".ttf", 1);
    ExtensionsExclusive(path, ".css", ".ttf", 1);
  }

  /** A moved file keeps its name. */
  lemma MovePathKeepsBasename(path: string)
    ensures MovePath(path).Success? ==> Basename(MovePath(path).value) == Basename(path)
  {
    match FindSaveDir(SAVE_DIRS, path)
    case None =>
    case Some(dir) => BasenameOfJoin(dir, Basename(path));
  }

  // ---------------------------------------------------------------------
  // Checksums
  // ---------------------------------------------------------------------

  /** A character of `[0-9a-f]` under `re.IGNORECASE`. */
  predicate IsHexDigit(c: char) {
    '0' <= c <= '9' || 'a' <= c <= 'f' || 'A' <= c <= 'F'
  }

  /** `SHA256_PATT.match(s)`: the string begins with 64 hexadecimal digits. */
  predicate IsSha256Prefix(s: string) {
    |s| >= 64 && forall i :: 0 <= i < 64 ==> IsHexDigit(s[i])
  }

  /** The checks made on a dependency's checksum before anything is downloaded. */
  function CheckChecksum(name: string, checksum: Option<string>): (r: Result<(), DepError>)
    ensures r.Failure? <==> Truthy(checksum) && !IsSha256Prefix(checksum.value)
    ensures r.Failure? ==> r.error == InvalidChecksum(name)
  {
    if Truthy(checksum) && !IsSha256Prefix(checksum.value) then Failure(InvalidChecksum(name))
    else if !Truthy(checksum) && REQUIRE_CHECKSUM then Failure(ChecksumRequired(name))
    else Success(())
  }

  /** A checksum may be longer than 64 characters: only its beginning is checked. */
  lemma LongChecksumAccepted(name: string, hex: string, tail: string)
    requires |hex| == 64 && forall i :: 0 <= i < 64 ==> IsHexDigit(hex[i])
    ensures CheckChecksum(name, Some(hex + tail)).Success?
  {
    assert forall i :: 0 <= i < 64 ==> (hex + tail)[i] == hex[i];
  }

  /** The comparison of the downloaded file's hexadecimal digest with the checksum. */
  function VerifyDigest(name: string, checksum: Option<string>, digest: string): (r: Result<(), DepError>)
    ensures r.Failure? <==> Truthy(checksum) && Lower(checksum.value) != digest
    ensures r.Failure? ==> r.error == ChecksumMismatch(name)
  {
    if Truthy(checksum) && Lower(checksum.value) != digest then Failure(ChecksumMismatch(name))
    else Success(())
  }

  lemma LowerIdempotent(s: string)
    ensures Lower(Lower(s)) == Lower(s)
  {
  }

  /** The comparison ignores the case of the checksum. */
  lemma VerifyDigestIgnoresCase(name: string, checksum: string, digest: string)
    ensures VerifyDigest(name, Some(checksum), digest) == VerifyDigest(name, Some(Lower(checksum)), digest)
  {
    LowerIdempotent(checksum);
  }

  /**
   * A checksum accepted for its 64-digit prefix but longer than 64 characters
   * never matches a 64-character digest.
   */
  lemma LongChecksumNeverVerifies(name: string, checksum: string, digest: string)
    requires |checksum| > 64 && |digest| == 64
    ensures VerifyDigest(name, Some(checksum), digest).Failure?
  {
  }

  // ---------------------------------------------------------------------
  // Version placeholders
  // ---------------------------------------------------------------------

  /** A character matched by `\s` in a `str` pattern (the characters `str.isspace` accepts). */
  predicate IsRegexSpace(c: char) {
    '\t' <= c <= '\r' || '\U{1C}' <= c <= ' ' || c == '\U{85}' || c == '\U{A0}' ||
    c == '\U{1680}' || '\U{2000}' <= c <= '\U{200A}' || c == '\U{2028}' || c == '\U{2029}' ||
    c == '\U{202F}' || c == '\U{205F}' || c == '\U{3000}'
  }

  predicate AllSpace(w: string) {
    forall i :: 0 <= i < |w| ==> IsRegexSpace(w[i])
  }

  /** The length of the run of whitespace that begins `s`, as `\s*` takes it. */
  function SpaceRun(s: string): (n: nat)
    ensures n <= |s|
    ensures AllSpace(s[..n])
    ensures n < |s| ==> !IsRegexSpace(s[n])
  {
    if s != [] && IsRegexSpace(s[0]) then
      var n := 1 + SpaceRun(s[1..]);
      assert forall i :: 1 <= i < n ==> s[..n][i] == s[1..][..n - 1][i - 1];
      n
    else 0
  }

  /** The placeholder `{{`, whitespace, `version`, whitespace, `}}`. */
  function Placeholder(w1: string, w2: string): string {
    "{{" + w1 + "version" + w2 + "}}"
  }

  /** The length of the match of `\{\{\s*version\s*\}\}` at the start of `s`, if there is one. */
  function PlaceholderLength(s: string): (r: Option<nat>)
    ensures r.Some? ==> 11 <= r.value <= |s| && s[0] == '{'
  {
    if !StartsWith(s, "{{") then None
    else
      var a := 2 + SpaceRun(s[2..]);
      if !StartsWith(s[a..], "version") then None
      else
        var b := a + 7 + SpaceRun(s[a + 7..]);
        if StartsWith(s[b..], "}}") then Some(b + 2) else None
  }

  /** A match is exactly a placeholder: `{{`, whitespace, `version`, whitespace, `}}`. */
  lemma PlaceholderLengthSound(s: string)
    ensures PlaceholderLength(s).Some? ==>
      exists w1, w2 :: AllSpace(w1) && AllSpace(w2) && s[..PlaceholderLength(s).value] == Placeholder(w1, w2)
  {
    if PlaceholderLength(s).Some? {
      var a := 2 + SpaceRun(s[2..]);
      var b := a + 7 + SpaceRun(s[a + 7..]);
      MatchIsPlaceholder(s, a, b);
    }
  }

  lemma SliceJoin(s: string, i: nat, j: nat, k: nat)
    requires i <= j <= k <= |s|
    ensures s[i..k] == s[i..j] + s[j..k]
  {
  }

  /** The text a successful match spans is a placeholder, with the whitespace runs it skipped. */
  lemma MatchIsPlaceholder(s: string, a: nat, b: nat)
    requires StartsWith(s, "{{") && a == 2 + SpaceRun(s[2..])
    requires StartsWith(s[a..], "version") && b == a + 7 + SpaceRun(s[a + 7..])
    requires StartsWith(s[b..], "}}")
    ensures b + 2 <= |s| && AllSpace(s[2..a]) && AllSpace(s[a + 7..b])
    ensures s[..b + 2] == Placeholder(s[2..a], s[a + 7..b])
  {
    var w1, w2 := s[2..a], s[a + 7..b];
    assert s[2..][..a - 2] == w1;
    assert s[a + 7..][..b - a - 7] == w2;
    assert s[a..a + 7] == s[a..][..7] == "version";
    assert s[b..b + 2] == s[b..][..2] == "}}";
    SliceJoin(s, 0, 2, a);
    SliceJoin(s, 0, a, a + 7);
    SliceJoin(s, 0, a + 7, b);
    SliceJoin(s, 0, b, b + 2);
    assert s[..b + 2] == s[0..b + 2];
  }

  /** Near misses are not placeholders. */
  lemma NearMissesNotMatched()
    ensures PlaceholderLength("{{ver}}") == None
    ensures PlaceholderLength("{{ version }") == None
    ensures PlaceholderLength("{ version }}") == None
  {
    assert "{ version }}"[..2] == "{ ";
    var s := "{{ version }";
    assert s[2..] == " version }";
    assert " version }"[1..] == "version }";
    assert SpaceRun("version }") == 0;
    assert SpaceRun(" version }") == 1;
    assert s[3..][..7] == "version";
    assert s[10..] == " }";
    assert " }"[1..] == "}";
    assert SpaceRun(" }") == 1;
    assert s[11..] == "}";
  }

  lemma SpaceRunOfSpaces(w: string, t: string)
    requires AllSpace(w)
    requires t != [] && !IsRegexSpace(t[0])
    ensures SpaceRun(w + t) == |w|
  {
    if w != [] {
      assert (w + t)[1..] == w[1..] + t;
      SpaceRunOfSpaces(w[1..], t);
    } else {
      assert w + t == t;
    }
  }

  /** How a placeholder followed by `rest` falls apart at the positions the match reaches. */
  lemma PlaceholderSlices(w1: string, w2: string, rest: string)
    ensures var s := Placeholder(w1, w2) + rest;
      s[..2] == "{{" &&
      s[2..] == w1 + ("version" + (w2 + ("}}" + rest))) &&
      s[2 + |w1|..] == "version" + (w2 + ("}}" + rest)) &&
      s[9 + |w1|..] == w2 + ("}}" + rest) &&
      s[9 + |w1| + |w2|..] == "}}" + rest
  {
    var t3 := "}}" + rest;
    var t2 := w2 + t3;
    var t1 := "version" + t2;
    var t0 := w1 + t1;
    assert Placeholder(w1, w2) + rest == "{{" + t0;
  }

  /** Every placeholder is recognised, whatever follows it. */
  lemma PlaceholderRecognised(w1: string, w2: string, rest: string)
    requires AllSpace(w1) && AllSpace(w2)
    ensures PlaceholderLength(Placeholder(w1, w2) + rest) == Some(|Placeholder(w1, w2)|)
  {
    PlaceholderSlices(w1, w2, rest);
    SpaceRunOfSpaces(w1, "version" + (w2 + ("}}" + rest)));
    SpaceRunOfSpaces(w2, "}}" + rest);
  }

  /**
   * `VERSION_PATT.sub(version, s)`: every match, found left to right without
   * overlap, is replaced by `version`.
   */
  function SubstituteVersion(s: string, version: string): string
    decreases |s|
  {
    if s == [] then []
    else match PlaceholderLength(s)
      case Some(n) => version + SubstituteVersion(s[n..], version)
      case None => [s[0]] + SubstituteVersion(s[1..], version)
  }

  /** Text with no `{` is copied unchanged in front of what follows. */
  lemma {:induction false} SubstituteKeepsPlainPrefix(a: string, b: string, version: string)
    requires '{' !in a
    ensures SubstituteVersion(a + b, version) == a + SubstituteVersion(b, version)
  {
    if a != [] {
      assert (a + b)[0] == a[0];
      assert (a + b)[1..] == a[1..] + b;
      SubstituteKeepsPlainPrefix(a[1..], b, version);
    } else {
      assert a + b == b;
    }
  }

  /** A string without `{` has no placeholder and is left alone. */
  lemma SubstituteWithoutBraces(s: string, version: string)
    requires '{' !in s
    ensures SubstituteVersion(s, version) == s
  {
    SubstituteKeepsPlainPrefix(s, [], version);
    assert s + [] == s;
  }

  /** A placeholder after brace-free text is replaced, and the rest substituted in turn. */
  lemma SubstituteStep(a: string, w1: string, w2: string, tail: string, version: string)
    requires '{' !in a && AllSpace(w1) && AllSpace(w2)
    ensures SubstituteVersion(a + (Placeholder(w1, w2) + tail), version) ==
            a + (version + SubstituteVersion(tail, version))
  {
    var p := Placeholder(w1, w2);
    SubstituteKeepsPlainPrefix(a, p + tail, version);
    PlaceholderRecognised(w1, w2, tail);
    assert (p + tail)[|p|..] == tail;
  }

  /**
   * The pieces `parts`, separated by placeholders; placeholder `i` carries
   * the whitespace pair `spaces[i]` inside its braces.
   */
  function Template(parts: seq<string>, spaces: seq<(string, string)>): string
    requires |parts| == |spaces| + 1
    decreases |spaces|
  {
    if spaces == [] then parts[0]
    else parts[0] + (Placeholder(spaces[0].0, spaces[0].1) + Template(parts[1..], spaces[1..]))
  }

  /**
   * A template made of brace-free pieces separated by placeholders, each with
   * its own whitespace, becomes the pieces separated by the version.
   */
  lemma {:induction false} SubstituteTemplate(parts: seq<string>, spaces: seq<(string, string)>, version: string)
    requires |parts| == |spaces| + 1
    requires forall i :: 0 <= i < |parts| ==> '{' !in parts[i]
    requires forall i :: 0 <= i < |spaces| ==> AllSpace(spaces[i].0) && AllSpace(spaces[i].1)
    ensures SubstituteVersion(Template(parts, spaces), version) == Join(parts, version)
    decreases |spaces|
  {
    if spaces == [] {
      SubstituteWithoutBraces(parts[0], version);
    } else {
      var tail := Template(parts[1..], spaces[1..]);
      SubstituteStep(parts[0], spaces[0].0, spaces[0].1, tail, version);
      assert forall i :: 0 <= i < |parts| - 1 ==> parts[1..][i] == parts[i + 1];
      assert forall i :: 0 <= i < |spaces| - 1 ==> spaces[1..][i] == spaces[i + 1];
      SubstituteTemplate(parts[1..], spaces[1..], version);
      assert Join(parts, version) == parts[0] + version + Join(parts[1..], version);
    }
  }

  /** `[VERSION_PATT.sub(version, f) for f in files]`. */
  function SubstituteAll(files: seq<string>, version: string): (r: seq<string>)
    ensures |r| == |files|
    ensures forall i :: 0 <= i < |files| ==> r[i] == SubstituteVersion(files[i], version)
  {
    seq(|files|, i requires 0 <= i < |files| => SubstituteVersion(files[i], version))
  }

  /** The fields of a dependency that the installer reads and updates. */
  class Dependency {
    const name: string
    const url: string
    var files: seq<string>
    const checksum: Option<string>
    const version: Option<string>

    constructor (name: string, url: string, files: seq<string>, checksum: Option<string>, version: Option<string>)
      ensures this.name == name && this.url == url && this.files == files
      ensures this.checksum == checksum && this.version == version
    {
      this.name := name;
      this.url := url;
      this.files := files;
      this.checksum := checksum;
      this.version := version;
    }

    /**
     * The version step of `download_dependency`: with a version given, the
     * URL to download from and the stored file list have their placeholders
     * replaced; otherwise both are left as they are.
     */
    method ApplyVersion() returns (downloadUrl: string)
      modifies this
      ensures Truthy(version) ==> downloadUrl == SubstituteVersion(url, version.value)
      ensures Truthy(version) ==> files == SubstituteAll(old(files), version.value)
      ensures !Truthy(version) ==> downloadUrl == url && files == old(files)
    {
      downloadUrl := url;
      if Truthy(version) {
        downloadUrl := SubstituteVersion(url, version.value);
        files := SubstituteAll(files, version.value);
      }
    }
  }

  // ---------------------------------------------------------------------
  // Downloading and moving
  // ---------------------------------------------------------------------

  /** The type check of each requested file, failing at the first unrecognised one. */
  function CheckFileTypes(outdir: string, files: seq<string>): (r: Result<(), DepError>)
    ensures r.Success? <==> forall i :: 0 <= i < |files| ==> MovePath(PathJoin(outdir, files[i])).Success?
  {
    if files == [] then Success(())
    else match MovePath(PathJoin(outdir, files[0]))
      case Failure(e) => Failure(e)
      case Success(_) =>
        assert forall i :: 1 <= i < |files| ==> files[i] == files[1..][i - 1];
        CheckFileTypes(outdir, files[1..])
  }

  /**
   * The checks of `download_dependency` around the download itself, with
   * the digest of the downloaded file and the directory it was saved or
   * extracted to taken as given: the directory, or the first error.
   */
  function DownloadOutcome(name: string, checksum: Option<string>, files: seq<string>,
                           digest: string, outdir: string): (r: Result<string, DepError>)
    ensures r.Success? ==> r.value == outdir
    ensures r.Success? <==>
      CheckChecksum(name, checksum).Success? && VerifyDigest(name, checksum, digest).Success? &&
      CheckFileTypes(outdir, files).Success?
  {
    match CheckChecksum(name, checksum)
    case Failure(e) => Failure(e)
    case Success(_) =>
      match VerifyDigest(name, checksum, digest)
      case Failure(e) => Failure(e)
      case Success(_) =>
        match CheckFileTypes(outdir, files)
        case Failure(e) => Failure(e)
        case Success(_) => Success(outdir)
  }

  /** A verified checksum is well formed and its lower-case form is the digest. */
  lemma DownloadedChecksumMatches(name: string, checksum: string, files: seq<string>, digest: string, outdir: string)
    requires checksum != ""
    requires DownloadOutcome(name, Some(checksum), files, digest, outdir).Success?
    ensures IsSha256Prefix(checksum) && Lower(checksum) == digest
  {
  }

  /** `os.path.join(outdir, f)` for each file. */
  function JoinAll(outdir: string, files: seq<string>): (r: seq<string>)
    ensures |r| == |files|
    ensures forall i :: 0 <= i < |files| ==> r[i] == PathJoin(outdir, files[i])
  {
    seq(|files|, i requires 0 <= i < |files| => PathJoin(outdir, files[i]))
  }

  /** `paths[k]` is the first path whose file type is not recognised. */
  predicate FirstUnrecognized(paths: seq<string>, k: int) {
    0 <= k < |paths| && MovePath(paths[k]).Failure? &&
    forall j :: 0 <= j < k ==> MovePath(paths[j]).Success?
  }

  /** `[get_move_path(f) for f in files]`: the destinations, or the error of the first unrecognised file. */
  method MovePaths(sources: seq<string>) returns (r: Result<seq<string>, DepError>)
    ensures r.Success? <==> forall i :: 0 <= i < |sources| ==> MovePath(sources[i]).Success?
    ensures r.Success? ==> |r.value| == |sources|
    ensures r.Success? ==> forall i :: 0 <= i < |sources| ==> MovePath(sources[i]) == Success(r.value[i])
    ensures r.Failure? ==>
      exists k :: FirstUnrecognized(sources, k) && r.error == UnrecognizedFileType(sources[k])
  {
    var paths: seq<string> := [];
    for i := 0 to |sources|
      invariant |paths| == i
      invariant forall j :: 0 <= j < i ==> MovePath(sources[j]) == Success(paths[j])
    {
      var p := GetMovePath(sources[i]);
      if p.Failure? {
        assert FirstUnrecognized(sources, i);
        return Failure(p.error);
      }
      paths := paths + [p.value];
    }
    return Success(paths);
  }

  /** The loop over `zip(origins, destinations)`: the pairs in order, as many as the shorter list. */
  method Zip(origins: seq<string>, destinations: seq<string>) returns (moves: seq<(string, string)>)
    ensures |moves| == if |origins| <= |destinations| then |origins| else |destinations|
    ensures forall j :: 0 <= j < |moves| ==> moves[j] == (origins[j], destinations[j])
  {
    var n := if |origins| <= |destinations| then |origins| else |destinations|;
    moves := [];
    for i := 0 to n
      invariant |moves| == i
      invariant forall j :: 0 <= j < i ==> moves[j] == (origins[j], destinations[j])
    {
      moves := moves + [(origins[i], destinations[i])];
    }
  }

  /**
   * `move_dependency_files`, with the moves returned as (source, destination)
   * pairs in the order they are made: the files, each to its vendor
   * directory, then the licenses, each to `LICENSE_DIR/name`.
   */
  method MoveDependencyFiles(name: string, outdir: string, files: seq<string>, licenses: seq<string>)
    returns (r: Result<seq<(string, string)>, DepError>)
    ensures r.Success? <==> forall i :: 0 <= i < |files| ==> MovePath(PathJoin(outdir, files[i])).Success?
    ensures r.Failure? ==>
      exists k :: FirstUnrecognized(JoinAll(outdir, files), k) && r.error == UnrecognizedFileType(PathJoin(outdir, files[k]))
    ensures r.Success? ==> |r.value| == |files| + |licenses|
    ensures r.Success? ==> forall i :: 0 <= i < |files| ==>
      r.value[i] == (PathJoin(outdir, files[i]), MovePath(PathJoin(outdir, files[i])).value)
    ensures r.Success? ==> forall i :: 0 <= i < |licenses| ==>
      r.value[|files| + i] ==
        (PathJoin(outdir, licenses[i]), PathJoin(PathJoin(LICENSE_DIR, name), Basename(PathJoin(outdir, licenses[i]))))
  {
    var licenseSaveDir := PathJoin(LICENSE_DIR, name);
    var sources := JoinAll(outdir, files);
    var licenseSources := JoinAll(outdir, licenses);
    var filePaths := MovePaths(sources);
    if filePaths.Failure? {
      return Failure(filePaths.error);
    }
    var paths := filePaths.value;
    for i := 0 to |licenseSources|
      invariant |paths| == |files| + i
      invariant paths[..|files|] == filePaths.value
      invariant forall j :: 0 <= j < i ==> paths[|files| + j] == PathJoin(licenseSaveDir, Basename(licenseSources[j]))
    {
      paths := paths + [PathJoin(licenseSaveDir, Basename(licenseSources[i]))];
    }
    var moves := Zip(sources + licenseSources, paths);
    assert forall j :: 0 <= j < |files| ==> paths[j] == filePaths.value[j];
    return Success(moves);
  }

  /** Every license keeps its file name in the license directory. */
  lemma LicenseKeepsBasename(name: string, outdir: string, license: string)
    ensures Basename(PathJoin(PathJoin(LICENSE_DIR, name), Basename(PathJoin(outdir, license)))) == Basename(license)
  {
    BasenameOfJoin(PathJoin(LICENSE_DIR, name), Basename(PathJoin(outdir, license)));
    BasenameOfJoin(outdir, license);
    assert '/' !in Basename(PathJoin(outdir, license));
  }

  /** Once every file of a dependency has been downloaded and checked, all of them can be moved. */
  lemma DownloadedFilesCanMove(name: string, checksum: Option<string>, files: seq<string>, digest: string, outdir: string)
    requires DownloadOutcome(name, checksum, files, digest, outdir).Success?
    ensures forall i :: 0 <= i < |files| ==> MovePath(PathJoin(outdir, files[i])).Success?
  {
  }
}
