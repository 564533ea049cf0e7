/**
 * Page rendering of the compendium generator: one normalised entry becomes a
 * Markdown page for Hugo, a front-matter block between `+++` lines followed by
 * a body of paragraphs in a fixed order.
 */
module Pages {
  import opened Wrappers
  import opened Text
  import opened Numerals
  import opened Paths
  import opened TomlString
  import opened Compendium

  /** The body paragraphs, in the order the page lists them. */
  datatype Field = Authors | Published | Url | Tags | Abstract

  function Rank(f: Field): nat {
    match f
    case Authors => 0
    case Published => 1
    case Url => 2
    case Tags => 3
    case Abstract => 4
  }

  datatype Paragraph = Paragraph(field: Field, text: string)

  /** `entry["title"].replace(...)` on an entry whose title is `None`. */
  datatype RenderError = TitleMissing

  /**
   * When a field has a paragraph: authors, year and tags by Python truthiness
   * (a non-empty list, a non-zero year); url and abstract whenever they are
   * not `None`, an empty string giving an empty paragraph.
   */
  predicate Shown(e: Entry, f: Field) {
    match f
    case Authors => |e.authors| > 0
    case Published => e.year.Some? && e.year.value != 0
    case Url => e.url.Some?
    case Tags => |e.tags| > 0
    case Abstract => e.abstractText.Some?
  }

  function AuthorsParagraph(e: Entry): Option<Paragraph> {
    if |e.authors| > 0 then Some(Paragraph(Authors, "**Authors**: " + Join(e.authors, ", "))) else None
  }

  function PublishedParagraph(e: Entry): Option<Paragraph> {
    if e.year.Some? && e.year.value != 0 then
      if e.month.Some? && e.month.value != 0 then
        Some(Paragraph(Published, "**Published**: " + MonthName(e.month.value) + " " + Decimal(e.year.value)))
      else
        Some(Paragraph(Published, "**Published**: " + Decimal(e.year.value)))
    else None
  }

  /** The URL as a Markdown link whose label and target are both the raw URL. */
  function UrlParagraph(e: Entry): Option<Paragraph> {
    match e.url
    case None => None
    case Some(u) => Some(Paragraph(Url, if u != "" then "**URL**: [" + u + "](" + u + ")" else ""))
  }

  /** The Hugo shortcode that links one tag. */
  function TagShortcode(t: string): string {
    "{{< tag tagname=\"" + t + "\" >}}"
  }

  function Shortcodes(tags: seq<string>): (r: seq<string>)
    ensures |r| == |tags|
    ensures forall i :: 0 <= i < |tags| ==> r[i] == TagShortcode(tags[i])
  {
    seq(|tags|, i requires 0 <= i < |tags| => TagShortcode(tags[i]))
  }

  /** The tags paragraph as intended: one shortcode per tag, space-separated, none without tags. */
  function TagsParagraph(e: Entry): Option<Paragraph> {
    if |e.tags| > 0 then Some(Paragraph(Tags, "**Tags**: " + Join(Shortcodes(e.tags), " "))) else None
  }

  /**
   * The tags slot as the script fills it: an empty tag list is appended as the
   * list itself, which the `is not None` filter keeps and the f-string turns
   * into the text `[]`.
   */
  function TagsParagraphAsWritten(e: Entry): Option<Paragraph> {
    if |e.tags| > 0 then TagsParagraph(e) else Some(Paragraph(Tags, "[]"))
  }

  function AbstractParagraph(e: Entry): Option<Paragraph> {
    match e.abstractText
    case None => None
    case Some(a) => Some(Paragraph(Abstract, if a != "" then "**Abstract**: " + a else ""))
  }

  /** The paragraphs of the slots that are not `None`, in slot order. */
  function Present(slots: seq<Option<Paragraph>>): (r: seq<Paragraph>)
    ensures forall p :: p in r <==> Some(p) in slots
    ensures |r| <= |slots|
  {
    if slots == [] then []
    else
      var rest := Present(slots[1..]);
      assert forall p :: Some(p) in slots <==> Some(p) == slots[0] || Some(p) in slots[1..];
      match slots[0]
      case None => rest
      case Some(p) => [p] + rest
  }

  lemma {:induction false} PresentAppend(a: seq<Option<Paragraph>>, b: seq<Option<Paragraph>>)
    ensures Present(a + b) == Present(a) + Present(b)
  {
    if a != [] {
      assert (a + b)[0] == a[0];
      assert (a + b)[1..] == a[1..] + b;
      PresentAppend(a[1..], b);
    } else {
      assert a + b == b;
    }
  }

  lemma PresentSkipsNone(a: seq<Option<Paragraph>>, b: seq<Option<Paragraph>>)
    ensures Present(a + [None] + b) == Present(a + b)
  {
    PresentAppend(a + [None], b);
    PresentAppend(a, [None]);
    PresentAppend(a, b);
    assert Present([None]) == [];
  }

  /** Slots whose paragraphs rise in rank give paragraphs that rise in rank. */
  lemma {:induction false} PresentKeepsOrder(slots: seq<Option<Paragraph>>)
    requires forall i, j :: 0 <= i < j < |slots| && slots[i].Some? && slots[j].Some?
               ==> Rank(slots[i].value.field) < Rank(slots[j].value.field)
    ensures forall i, j :: 0 <= i < j < |Present(slots)|
              ==> Rank(Present(slots)[i].field) < Rank(Present(slots)[j].field)
  {
    if slots != [] {
      var tail := slots[1..];
      assert forall i, j :: 0 <= i < j < |tail| && tail[i].Some? && tail[j].Some?
               ==> Rank(tail[i].value.field) < Rank(tail[j].value.field) by {
        forall i, j | 0 <= i < j < |tail| && tail[i].Some? && tail[j].Some?
          ensures Rank(tail[i].value.field) < Rank(tail[j].value.field)
        {
          assert tail[i] == slots[i + 1] && tail[j] == slots[j + 1];
        }
      }
      PresentKeepsOrder(tail);
      if slots[0].Some? {
        var r := Present(slots);
        var rest := Present(tail);
        assert r == [slots[0].value] + rest;
        forall k | 0 <= k < |rest| ensures Rank(slots[0].value.field) < Rank(rest[k].field) {
          assert rest[k] in rest;
          var j :| 0 <= j < |tail| && tail[j] == Some(rest[k]);
          assert slots[j + 1] == Some(rest[k]);
        }
      }
    }
  }

  function Slots(e: Entry): seq<Option<Paragraph>> {
    [AuthorsParagraph(e), PublishedParagraph(e), UrlParagraph(e), TagsParagraph(e), AbstractParagraph(e)]
  }

  function Paragraphs(e: Entry): seq<Paragraph> {
    Present(Slots(e))
  }

  function SlotsAsWritten(e: Entry): seq<Option<Paragraph>> {
    [AuthorsParagraph(e), PublishedParagraph(e), UrlParagraph(e), TagsParagraphAsWritten(e), AbstractParagraph(e)]
  }

  function ParagraphsAsWritten(e: Entry): seq<Paragraph> {
    Present(SlotsAsWritten(e))
  }

  function Texts(ps: seq<Paragraph>): (r: seq<string>)
    ensures |r| == |ps|
    ensures forall i :: 0 <= i < |ps| ==> r[i] == ps[i].text
  {
    seq(|ps|, i requires 0 <= i < |ps| => ps[i].text)
  }

  /** The page body: the paragraphs separated by blank lines. */
  function Body(e: Entry): string {
    Join(Texts(Paragraphs(e)), "\n\n")
  }

  /** The paragraphs of a page appear in the order Authors, Published, URL, Tags, Abstract. */
  lemma ParagraphsInFixedOrder(e: Entry)
    ensures forall i, j :: 0 <= i < j < |Paragraphs(e)|
              ==> Rank(Paragraphs(e)[i].field) < Rank(Paragraphs(e)[j].field)
  {
    var s := Slots(e);
    assert forall i :: 0 <= i < |s| && s[i].Some? ==> Rank(s[i].value.field) == i;
    PresentKeepsOrder(s);
  }

  /** A field has a paragraph exactly when its value is given (truthy, for lists and the year). */
  lemma ParagraphShownIff(e: Entry, f: Field)
    ensures (exists p :: p in Paragraphs(e) && p.field == f) <==> Shown(e, f)
  {
    var s := Slots(e);
    var k := Rank(f);
    assert forall i :: 0 <= i < |s| && s[i].Some? ==> Rank(s[i].value.field) == i;
    if Shown(e, f) {
      assert s[k].Some?;
      assert s[k].value in Paragraphs(e);
    }
    if p :| p in Paragraphs(e) && p.field == f {
      assert Some(p) in s;
    }
  }

  /** No tags, no Tags paragraph. */
  lemma UntaggedPageHasNoTagsParagraph(e: Entry)
    requires e.tags == []
    ensures forall p :: p in Paragraphs(e) ==> p.field != Tags
  {
    ParagraphShownIff(e, Tags);
  }

  /** As written, an entry without tags gets a paragraph that reads `[]`. */
  lemma UntaggedPageShowsBracketsAsWritten(e: Entry)
    requires e.tags == []
    ensures Paragraph(Tags, "[]") in ParagraphsAsWritten(e)
    ensures "[]" in Texts(ParagraphsAsWritten(e))
  {
    var ps := ParagraphsAsWritten(e);
    assert Some(Paragraph(Tags, "[]")) == SlotsAsWritten(e)[3];
    var i :| 0 <= i < |ps| && ps[i] == Paragraph(Tags, "[]");
    assert Texts(ps)[i] == "[]";
  }

  /** The two renderings differ only for entries without tags. */
  lemma AsWrittenAgreesWhenTagged(e: Entry)
    requires |e.tags| > 0
    ensures ParagraphsAsWritten(e) == Paragraphs(e)
  {
    assert SlotsAsWritten(e) == Slots(e);
  }

  /**
   * A published line names the month and the year such that extracting a date
   * from those two strings gives back the entry's year and month.
   */
  lemma PublishedDateReadsBack(e: Entry)
    requires e.year.Some? && e.year.value != 0 && e.month.Some? && e.month.value != 0
    ensures PublishedParagraph(e)
            == Some(Paragraph(Published, "**Published**: " + MonthName(e.month.value) + " " + Decimal(e.year.value)))
    ensures ExtractDate(map["year" := Decimal(e.year.value), "month" := MonthName(e.month.value)])
            == Success(Date(e.year, e.month, None))
  {
    ParseDecimal(e.year.value);
    MonthTablesInverse(e.month.value);
  }

  /** With no month (or month 0) only the year is printed, and it reads back. */
  lemma PublishedYearOnlyReadsBack(e: Entry)
    requires e.year.Some? && e.year.value != 0 && (e.month.None? || e.month.value == 0)
    ensures PublishedParagraph(e) == Some(Paragraph(Published, "**Published**: " + Decimal(e.year.value)))
    ensures ParseInt(Decimal(e.year.value)) == e.year
  {
    ParseDecimal(e.year.value);
  }

  /** The title escaping: backslashes doubled first, then quotation marks escaped. */
  function EscapeTitle(t: string): string {
    ReplaceChar(ReplaceChar(t, '\\', "\\\\"), '"', "\\\"")
  }

  function EscapeChar(c: char): string {
    if c == '\\' then "\\\\" else if c == '"' then "\\\"" else [c]
  }

  lemma EscapeTitleCons(c: char, t: string)
    ensures EscapeTitle([c] + t) == EscapeChar(c) + EscapeTitle(t)
  {
    var a := ReplaceChar([c], '\\', "\\\\");
    var b := ReplaceChar(t, '\\', "\\\\");
    ReplaceCharAppend([c], t, '\\', "\\\\");
    ReplaceCharAppend(a, b, '"', "\\\"");
    assert [c][1..] == [];
    if c == '\\' {
      assert a == "\\\\";
    } else {
      assert a == [c];
      assert ReplaceChar(a, '"', "\\\"") == (if c == '"' then "\\\"" else [c]) + ReplaceChar([], '"', "\\\"");
    }
  }

  /** One escaped character decodes to itself. */
  lemma DecodeEscapeChar(c: char, x: string)
    requires !IsControl(c)
    ensures DecodeBasic(EscapeChar(c) + x) == Prepend(c, DecodeBasic(x))
  {
    var s := EscapeChar(c) + x;
    if c == '\\' || c == '"' {
      assert s[0] == '\\' && s[1] == c && s[2..] == x;
      assert Unescape(c) == Some(c);
    } else {
      assert s[0] == c && s[1..] == x;
    }
  }

  /**
   * Decoding the escaped title as a TOML basic string gives back the title and
   * stops exactly at the closing quotation mark, so no quotation mark of the
   * title ends the string early.
   */
  lemma {:induction false} EscapeRoundTrip(t: string, rest: string)
    requires forall i :: 0 <= i < |t| ==> !IsControl(t[i])
    ensures DecodeBasic(EscapeTitle(t) + "\"" + rest) == Some((t, rest))
    decreases |t|
  {
    if t == [] {
      assert EscapeTitle(t) == [];
      assert EscapeTitle(t) + "\"" + rest == "\"" + rest;
    } else {
      EscapeFirstChar(t, rest);
      EscapeRoundTrip(t[1..], rest);
      DecodeEscapeChar(t[0], EscapeTitle(t[1..]) + "\"" + rest);
      assert [t[0]] + t[1..] == t;
    }
  }

  lemma EscapeFirstChar(t: string, rest: string)
    requires t != []
    ensures EscapeTitle(t) + "\"" + rest == EscapeChar(t[0]) + (EscapeTitle(t[1..]) + "\"" + rest)
  {
    assert t == [t[0]] + t[1..];
    EscapeTitleCons(t[0], t[1..]);
  }

  /** Escaping quotation marks first would double the backslash it inserts. */
  lemma QuoteFirstEscapingBreaks()
    ensures ReplaceChar(ReplaceChar("\"", '"', "\\\""), '\\', "\\\\") == "\\\\\""
    ensures DecodeBasic("\\\\\"" + "\"") == Some(("\\", "\""))
  {
    assert ReplaceChar("\"", '"', "\\\"") == "\\\"";
    ReplaceCharAppend("\\", "\"", '\\', "\\\\");
    assert "\\\"" == "\\" + "\"";
    var s := "\\\\\"" + "\"";
    assert s[0] == '\\' && s[1] == '\\' && s[2..] == "\"\"";
    assert "\"\""[0] == '"' && "\"\""[1..] == "\"";
    assert DecodeBasic("\"\"") == Some(("", "\""));
    assert Unescape('\\') == Some('\\');
    assert ['\\'] + "" == "\\";
  }

  /**
   * Only backslashes and quotation marks are escaped: a title holding a line
   * break keeps it, and TOML rejects the title line.
   */
  lemma LineBreakInTitleIsNotEscaped()
    ensures EscapeTitle("a\nb") == "a\nb"
    ensures DecodeBasic(EscapeTitle("a\nb") + "\"") == None
  {
    var s := "a\nb" + "\"";
    assert s[1..] == "\nb\"";
    assert IsControl('\n');
  }

  /** The front matter up to the opening quotation mark of the title. */
  const FRONT_MATTER_OPEN := "+++\ndraft = false\ntitle = \""

  /** The page around an already escaped title and an already joined body. */
  function PageText(escapedTitle: string, tagsLiteral: string, body: string): string {
    FRONT_MATTER_OPEN + escapedTitle + "\"\ntags = " + tagsLiteral + "\n+++\n" + body + "\n"
  }

  lemma PageTextShape(escapedTitle: string, tagsLiteral: string, body: string)
    ensures StartsWith(PageText(escapedTitle, tagsLiteral, body), "+++\ndraft = false\n")
    ensures StartsWith(PageText(escapedTitle, tagsLiteral, body), FRONT_MATTER_OPEN)
    ensures PageText(escapedTitle, tagsLiteral, body)[|FRONT_MATTER_OPEN|..]
            == escapedTitle + "\"" + ("\ntags = " + tagsLiteral + "\n+++\n" + body + "\n")
  {
    var p := PageText(escapedTitle, tagsLiteral, body);
    var tail := "\ntags = " + tagsLiteral + "\n+++\n" + body + "\n";
    assert p == FRONT_MATTER_OPEN + (escapedTitle + "\"" + tail);
    assert FRONT_MATTER_OPEN == "+++\ndraft = false\n" + "title = \"";
  }

  /**
   * `generate_page_for_entry` as text: the front matter (draft flag, escaped
   * title, the tags line), then the body and a final newline. The tags line is
   * Python's `repr` of the tag list, supplied as `tagsLiteral`.
   */
  function Page(e: Entry, tagsLiteral: string): (r: Result<string, RenderError>)
    ensures r.Failure? <==> e.title.None?
    ensures r.Success? ==> StartsWith(r.value, "+++\ndraft = false\n")
  {
    match e.title
    case None => Failure(TitleMissing)
    case Some(t) =>
      PageTextShape(EscapeTitle(t), tagsLiteral, Body(e));
      Success(PageText(EscapeTitle(t), tagsLiteral, Body(e)))
  }

  /** Reading the title line of a rendered page back as TOML gives the entry's title. */
  lemma PageTitleReadsBack(e: Entry, tagsLiteral: string)
    requires e.title.Some?
    requires forall i :: 0 <= i < |e.title.value| ==> !IsControl(e.title.value[i])
    ensures Page(e, tagsLiteral).Success?
    ensures StartsWith(Page(e, tagsLiteral).value, FRONT_MATTER_OPEN)
    ensures DecodeBasic(Page(e, tagsLiteral).value[|FRONT_MATTER_OPEN|..])
            == Some((e.title.value, "\ntags = " + tagsLiteral + "\n+++\n" + Body(e) + "\n"))
  {
    var t := e.title.value;
    PageTextShape(EscapeTitle(t), tagsLiteral, Body(e));
    EscapeRoundTrip(t, "\ntags = " + tagsLiteral + "\n+++\n" + Body(e) + "\n");
  }

  /** The body as the code builds it, with the `[]` paragraph on untagged entries. */
  function BodyAsWritten(e: Entry): string {
    Join(Texts(ParagraphsAsWritten(e)), "\n\n")
  }

  /** The page as the code builds it. */
  function PageAsWritten(e: Entry, tagsLiteral: string): (r: Result<string, RenderError>)
    ensures r.Failure? <==> e.title.None?
    ensures r.Success? ==> StartsWith(r.value, "+++\ndraft = false\n")
  {
    match e.title
    case None => Failure(TitleMissing)
    case Some(t) =>
      PageTextShape(EscapeTitle(t), tagsLiteral, BodyAsWritten(e));
      Success(PageText(EscapeTitle(t), tagsLiteral, BodyAsWritten(e)))
  }

  /** The page as written and the intended page are the same for every tagged entry. */
  lemma PageAsWrittenAgreesWhenTagged(e: Entry, tagsLiteral: string)
    requires |e.tags| > 0
    ensures PageAsWritten(e, tagsLiteral) == Page(e, tagsLiteral)
  {
    AsWrittenAgreesWhenTagged(e);
  }

  /** As written, the body of an untagged entry is its intended paragraphs with `[]` among them. */
  lemma UntaggedBodyAsWritten(e: Entry)
    requires e.tags == []
    ensures ParagraphsAsWritten(e) ==
      Present([AuthorsParagraph(e), PublishedParagraph(e), UrlParagraph(e)]) + [Paragraph(Tags, "[]")] +
      Present([AbstractParagraph(e)])
    ensures Paragraphs(e) ==
      Present([AuthorsParagraph(e), PublishedParagraph(e), UrlParagraph(e)]) + Present([AbstractParagraph(e)])
  {
    var front := [AuthorsParagraph(e), PublishedParagraph(e), UrlParagraph(e)];
    var back := [AbstractParagraph(e)];
    assert SlotsAsWritten(e) == front + ([Some(Paragraph(Tags, "[]"))] + back);
    assert Slots(e) == front + [None] + back;
    PresentAppend(front, [Some(Paragraph(Tags, "[]"))] + back);
    PresentAppend([Some(Paragraph(Tags, "[]"))], back);
    assert Present([Some(Paragraph(Tags, "[]"))]) == [Paragraph(Tags, "[]")];
    PresentSkipsNone(front, back);
    PresentAppend(front, back);
  }

  /** The directory that receives the pages, relative to the repository root. */
  const MARKDOWN_ENTRIES_DIRECTORY := "content/entries"

  /** The file a page is written to, named by the entry's id. */
  function PagePath(e: Entry): string {
    PathJoin(MARKDOWN_ENTRIES_DIRECTORY, Decimal(e.id) + ".md")
  }

  /** Entries with different ids are written to different files. */
  lemma PagePathsDistinct(a: Entry, b: Entry)
    requires a.id != b.id
    ensures PagePath(a) != PagePath(b)
  {
    DecimalInjective(a.id, b.id);
    var x, y := Decimal(a.id), Decimal(b.id);
    var dir := MARKDOWN_ENTRIES_DIRECTORY;
    assert dir[|dir| - 1] != '/';
    assert (x + ".md")[0] == x[0] != '/';
    assert (y + ".md")[0] == y[0] != '/';
    var p, q := PagePath(a), PagePath(b);
    assert p == dir + "/" + (x + ".md");
    assert q == dir + "/" + (y + ".md");
    if |x| != |y| {
      assert |p| != |q|;
    } else {
      var k :| 0 <= k < |x| && x[k] != y[k];
      assert p[|dir| + 1 + k] == x[k];
      assert q[|dir| + 1 + k] == y[k];
    }
  }

  /**
   * `generate_page_for_entry` step by step: the title is escaped first (and
   * fails when absent), then the paragraph slots are appended in order and the
   * present ones joined; the tags slot follows the intended behaviour.
   */
  method RenderPage(e: Entry, tagsLiteral: string) returns (r: Result<string, RenderError>)
    ensures r == Page(e, tagsLiteral)
  {
    if e.title.None? {
      return Failure(TitleMissing);
    }
    var title := ReplaceChar(e.title.value, '\\', "\\\\");
    title := ReplaceChar(title, '"', "\\\"");

    var fields: seq<Option<Paragraph>> := [];

    var authors: Option<Paragraph> := None;
    if |e.authors| > 0 {
      authors := Some(Paragraph(Authors, "**Authors**: " + Join(e.authors, ", ")));
    }
    fields := fields + [authors];

    var date: Option<Paragraph>;
    if e.year.Some? && e.year.value != 0 && e.month.Some? && e.month.value != 0 {
      date := Some(Paragraph(Published, "**Published**: " + MonthName(e.month.value) + " " + Decimal(e.year.value)));
    } else if e.year.Some? && e.year.value != 0 {
      date := Some(Paragraph(Published, "**Published**: " + Decimal(e.year.value)));
    } else {
      date := None;
    }
    if date.Some? {
      fields := fields + [date];
    }

    var url: Option<Paragraph> := None;
    if e.url.Some? {
      var u := e.url.value;
      url := Some(Paragraph(Url, if u != "" then "**URL**: [" + u + "](" + u + ")" else ""));
    }
    fields := fields + [url];

    var tags: Option<Paragraph> := None;
    if |e.tags| > 0 {
      tags := Some(Paragraph(Tags, "**Tags**: " + Join(Shortcodes(e.tags), " ")));
    }
    fields := fields + [tags];

    var summary: Option<Paragraph> := None;
    if e.abstractText.Some? {
      var a := e.abstractText.value;
      summary := Some(Paragraph(Abstract, if a != "" then "**Abstract**: " + a else ""));
    }
    fields := fields + [summary];

    assert authors == AuthorsParagraph(e);
    assert date == PublishedParagraph(e);
    assert url == UrlParagraph(e);
    assert tags == TagsParagraph(e);
    assert summary == AbstractParagraph(e);
    ghost var slots := [authors, date, url, tags, summary];
    assert slots == Slots(e);
    if date.Some? {
      assert fields == slots;
    } else {
      assert fields == [authors] + [url, tags, summary];
      assert slots == [authors] + [None] + [url, tags, summary];
      PresentSkipsNone([authors], [url, tags, summary]);
    }

    var fieldstr := Join(Texts(Present(fields)), "\n\n");
    var page := FRONT_MATTER_OPEN + title + "\"\ntags = " + tagsLiteral + "\n+++\n" + fieldstr + "\n";
    return Success(page);
  }
}
