/**
 * Record extraction of the compendium generator: one raw bibliography record
 * (field name to string, as the BibTeX parser hands it over) becomes one
 * normalised entry, and a sequence of records becomes a sequence of entries
 * numbered by position.
 */
module Compendium {
  import opened Wrappers
  import opened Text
  import opened Numerals

  /** A parsed BibTeX record: lower-case field name to raw value. */
  type Record = map<string, string>

  /** A key of the month tables; 0 is the empty name at the head of the table. */
  type MonthNum = m: int | 0 <= m <= 12

  /** English `calendar.month_name`, whose entry 0 is the empty string. */
  const MONTH_NAMES: seq<string> := ["", "January", "February", "March", "April", "May", "June",
                                     "July", "August", "September", "October", "November", "December"]

  /** The number-to-name table. */
  function MonthName(m: MonthNum): string {
    MONTH_NAMES[m]
  }

  /** The name-to-number table: `MONTH_ID_MAPPING.get(name)`. */
  function MonthNumber(name: string): (r: Option<MonthNum>)
    ensures r.Some? ==> MonthName(r.value) == name
    ensures r.None? <==> name !in MONTH_NAMES
  {
    if name == "" then Some(0)
    else if name == "January" then Some(1)
    else if name == "February" then Some(2)
    else if name == "March" then Some(3)
    else if name == "April" then Some(4)
    else if name == "May" then Some(5)
    else if name == "June" then Some(6)
    else if name == "July" then Some(7)
    else if name == "August" then Some(8)
    else if name == "September" then Some(9)
    else if name == "October" then Some(10)
    else if name == "November" then Some(11)
    else if name == "December" then Some(12)
    else None
  }

  /** The two tables are inverse to each other. */
  lemma MonthTablesInverse(m: MonthNum)
    ensures MonthNumber(MonthName(m)) == Some(m)
  {
  }

  lemma MonthLookupExamples()
    ensures MonthNumber("March") == Some(3)
    ensures MonthNumber("Marchx") == None
    ensures MonthNumber("") == Some(0)
  {
  }

  datatype Date = Date(year: Option<int>, month: Option<MonthNum>, day: Option<int>)

  datatype ExtractError = YearNotInteger(text: string)

  /**
   * `_extract_date`: the year is read with `int()`, and a year that is not an
   * integer stops the whole run; the month is looked up and an unknown name is
   * simply absent; the day is never extracted.
   */
  function ExtractDate(record: Record): (r: Result<Date, ExtractError>)
    ensures r.Failure? <==> "year" in record && ParseInt(record["year"]).None?
    ensures r.Failure? ==> r.error == YearNotInteger(record["year"])
    ensures r.Success? ==> r.value.year == if "year" in record then ParseInt(record["year"]) else None
    ensures r.Success? ==> (r.value.month.Some? <==> "month" in record && record["month"] in MONTH_NAMES)
    ensures r.Success? && r.value.month.Some? ==> MonthName(r.value.month.value) == record["month"]
    ensures r.Success? ==> r.value.day == None
  {
    var year := if "year" in record then ParseInt(record["year"]) else None;
    if "year" in record && year.None? then Failure(YearNotInteger(record["year"]))
    else
      var month := if "month" in record then MonthNumber(record["month"]) else None;
      Success(Date(year, month, None))
  }

  /** The title with every `{` and then every `}` removed. */
  function StripBraces(s: string): (r: string)
    ensures '{' !in r && '}' !in r
    ensures '{' !in s && '}' !in s ==> r == s
    ensures |r| <= |s|
  {
    ReplaceCharKeepsAbsent(ReplaceChar(s, '{', ""), '}', "", '{');
    ReplaceChar(ReplaceChar(s, '{', ""), '}', "")
  }

  /**
   * Brace removal is fixed by three facts: it keeps a character that is not a
   * brace, drops a brace, and works piece by piece on a concatenation.
   */
  lemma StripBracesDeletes(a: string, b: string, c: char)
    ensures StripBraces(a + b) == StripBraces(a) + StripBraces(b)
    ensures StripBraces([c]) == if c == '{' || c == '}' then "" else [c]
  {
    ReplaceCharAppend(a, b, '{', "");
    ReplaceCharAppend(ReplaceChar(a, '{', ""), ReplaceChar(b, '{', ""), '}', "");
  }

  lemma StripBracesIdempotent(s: string)
    ensures StripBraces(StripBraces(s)) == StripBraces(s)
  {
  }

  /** `_extract_title`. */
  function ExtractTitle(record: Record): (r: Option<string>)
    ensures r.None? <==> "title" !in record
    ensures r.Some? ==> '{' !in r.value && '}' !in r.value
    ensures r.Some? && '{' !in record["title"] && '}' !in record["title"] ==> r.value == record["title"]
  {
    if "title" in record then Some(StripBraces(record["title"])) else None
  }

  /** The keys tried, in order, for the publisher text. */
  const PUBLISHER_KEYS: seq<string> := ["publisher", "journal", "journaltitle"]

  /** The value of the first key of `keys` that the record has. */
  function FirstPresent(record: Record, keys: seq<string>): (r: Option<string>)
    ensures r.None? <==> forall i :: 0 <= i < |keys| ==> keys[i] !in record
    ensures r.Some? ==> exists i :: 0 <= i < |keys| && keys[i] in record && r.value == record[keys[i]]
                                    && forall j :: 0 <= j < i ==> keys[j] !in record
  {
    if keys == [] then None
    else if keys[0] in record then Some(record[keys[0]])
    else
      var r := FirstPresent(record, keys[1..]);
      if r.Some? then
        var i :| 0 <= i < |keys[1..]| && keys[1..][i] in record && r.value == record[keys[1..][i]]
                 && forall j :: 0 <= j < i ==> keys[1..][j] !in record;
        assert keys[i + 1] in record && r.value == record[keys[i + 1]];
        assert forall j :: 0 <= j < i + 1 ==> keys[j] !in record by {
          forall j | 0 <= j < i + 1 ensures keys[j] !in record {
            if j > 0 { assert keys[j] == keys[1..][j - 1]; }
          }
        }
        r
      else
        assert forall i :: 0 <= i < |keys| ==> keys[i] !in record by {
          forall i | 0 <= i < |keys| ensures keys[i] !in record {
            if i > 0 { assert keys[i] == keys[1..][i - 1]; }
          }
        }
        r
  }

  /** `_extract_publisher`. */
  function ExtractPublisher(record: Record): Option<string> {
    FirstPresent(record, PUBLISHER_KEYS)
  }

  /** A publisher field wins over a journal field, which wins over a journal title. */
  lemma PublisherPreference(record: Record)
    ensures "publisher" in record ==> ExtractPublisher(record) == Some(record["publisher"])
    ensures "publisher" !in record && "journal" in record ==> ExtractPublisher(record) == Some(record["journal"])
    ensures "publisher" !in record && "journal" !in record && "journaltitle" in record
            ==> ExtractPublisher(record) == Some(record["journaltitle"])
    ensures "publisher" !in record && "journal" !in record && "journaltitle" !in record
            ==> ExtractPublisher(record) == None
  {
    var r := ExtractPublisher(record);
    if r.Some? {
      var i :| 0 <= i < |PUBLISHER_KEYS| && PUBLISHER_KEYS[i] in record && r.value == record[PUBLISHER_KEYS[i]]
               && forall j :: 0 <= j < i ==> PUBLISHER_KEYS[j] !in record;
      if "publisher" in record {
        assert PUBLISHER_KEYS[0] in record;
        assert i == 0;
      } else if "journal" in record {
        assert PUBLISHER_KEYS[1] in record;
        assert i == 1;
      } else {
        assert i == 2;
      }
    } else {
      assert PUBLISHER_KEYS[0] !in record && PUBLISHER_KEYS[1] !in record && PUBLISHER_KEYS[2] !in record;
    }
  }

  /** `_extract_tags`: the keywords split on `", "`, or no tags at all. */
  function ExtractTags(record: Record): (r: seq<string>)
    ensures "keywords" !in record ==> r == []
    ensures "keywords" in record ==> |r| >= 1 && Join(r, ", ") == record["keywords"]
    ensures forall t, i :: t in r && 0 <= i ==> !OccursAt(t, ", ", i)
  {
    if "keywords" in record then
      JoinSplit(record["keywords"], ", ");
      SplitPiecesAvoidSeparator(record["keywords"], ", ");
      Split(record["keywords"], ", ")
    else []
  }

  lemma TagsExamples()
    ensures ExtractTags(map["keywords" := "a, b, c"]) == ["a", "b", "c"]
    ensures ExtractTags(map["keywords" := ""]) == [""]
    ensures ExtractTags(map[]) == []
  {
    SplitExample();
  }

  /**
   * The contents of the `{...}` groups of `s`, as `re.findall(r"\{([^\}]+)\}", s)`
   * finds them: at a `{` the group runs to the first `}` and must not be
   * empty; scanning resumes after the `}` of a group, else one character on.
   */
  function BraceGroups(s: string): (r: seq<string>)
    ensures forall g :: g in r ==> g != "" && '}' !in g
    decreases |s|
  {
    if s == [] then []
    else if s[0] == '{' then
      match IndexOf(s[1..], '}')
      case Some(k) =>
        if k > 0 then
          assert '}' !in s[1..k + 1] by {
            assert forall j :: 0 <= j < k ==> s[1..k + 1][j] == s[1..][j];
          }
          [s[1..k + 1]] + BraceGroups(s[k + 2..])
        else BraceGroups(s[1..])
      case None => BraceGroups(s[1..])
    else BraceGroups(s[1..])
  }

  /** A string without `{` has no groups. */
  lemma {:induction false} NoBraceNoGroups(s: string)
    requires '{' !in s
    ensures BraceGroups(s) == []
    decreases |s|
  {
    if s != [] {
      NoBraceNoGroups(s[1..]);
    }
  }

  /** Text without `{`, then a braced name, contributes exactly that name. */
  lemma {:induction false} BraceGroupsStep(p: string, name: string, rest: string)
    requires '{' !in p && name != "" && '}' !in name
    ensures BraceGroups(p + "{" + name + "}" + rest) == [name] + BraceGroups(rest)
    decreases |p|
  {
    var s := p + "{" + name + "}" + rest;
    if p == [] {
      assert s == "{" + name + "}" + rest;
      assert s[1..] == name + "}" + rest;
      assert s[1..][|name|] == '}';
      assert forall j :: 0 <= j < |name| ==> s[1..][j] == name[j];
      var k := IndexOf(s[1..], '}');
      assert k == Some(|name|);
      assert s[1..|name| + 1] == name;
      assert s[|name| + 2..] == rest;
    } else {
      assert s[0] == p[0] && s[0] != '{';
      assert s[1..] == p[1..] + "{" + name + "}" + rest;
      BraceGroupsStep(p[1..], name, rest);
    }
  }

  /** `{A} and {B}` style author lists give back the names in order. */
  lemma {:induction false} BraceGroupsOfBracedNames(names: seq<string>, gaps: seq<string>)
    requires |gaps| == |names| + 1
    requires forall n :: n in names ==> n != "" && '{' !in n && '}' !in n
    requires forall g :: g in gaps ==> '{' !in g
    ensures BraceGroups(Braced(names, gaps)) == names
    decreases |names|
  {
    assert gaps[0] in gaps;
    if names == [] {
      NoBraceNoGroups(gaps[0]);
    } else {
      assert names[0] in names;
      assert forall n :: n in names[1..] ==> n in names;
      assert forall g :: g in gaps[1..] ==> g in gaps;
      BraceGroupsOfBracedNames(names[1..], gaps[1..]);
      BraceGroupsStep(gaps[0], names[0], Braced(names[1..], gaps[1..]));
    }
  }

  /** `gaps[0] + "{" + names[0] + "}" + gaps[1] + ...`. */
  function Braced(names: seq<string>, gaps: seq<string>): string
    requires |gaps| == |names| + 1
    decreases |names|
  {
    if names == [] then gaps[0]
    else gaps[0] + "{" + names[0] + "}" + Braced(names[1..], gaps[1..])
  }

  /**
   * `_extract_authors`: the braced groups of the author field when there are
   * any, else the whole field as the only author; no field, no authors.
   */
  function ExtractAuthors(record: Record): (r: seq<string>)
    ensures "author" !in record <==> r == []
    ensures "author" in record && '{' !in record["author"] ==> r == [record["author"]]
    ensures "author" in record && |BraceGroups(record["author"])| > 0 ==> r == BraceGroups(record["author"])
    ensures "author" in record && |BraceGroups(record["author"])| == 0 ==> r == [record["author"]]
  {
    if "author" in record then
      var groups := BraceGroups(record["author"]);
      assert '{' !in record["author"] ==> groups == [] by {
        if '{' !in record["author"] { NoBraceNoGroups(record["author"]); }
      }
      if |groups| > 0 then groups else [record["author"]]
    else []
  }

  lemma AuthorsExample()
    ensures ExtractAuthors(map["author" := "{Smith, J.} and {Doe, A.}"]) == ["Smith, J.", "Doe, A."]
    ensures ExtractAuthors(map["author" := "Smith, J."]) == ["Smith, J."]
  {
    assert "{Smith, J.} and {Doe, A.}" == Braced(["Smith, J.", "Doe, A."], ["", " and ", ""]);
    BraceGroupsOfBracedNames(["Smith, J.", "Doe, A."], ["", " and ", ""]);
    assert '{' !in "Smith, J.";
  }

  /** A normalised entry; `abstractText` is the record's `abstract` field. */
  datatype Entry = Entry(
    id: nat,
    title: Option<string>,
    abstractText: Option<string>,
    publisherText: Option<string>,
    year: Option<int>,
    month: Option<MonthNum>,
    day: Option<int>,
    url: Option<string>,
    authors: seq<string>,
    tags: seq<string>)

  function Get(record: Record, key: string): Option<string> {
    if key in record then Some(record[key]) else None
  }

  /** The entry that one iteration of the loop of `parse_bibtex` appends. */
  function ExtractEntry(record: Record, id: nat): (r: Result<Entry, ExtractError>)
    ensures r.Failure? <==> ExtractDate(record).Failure?
    ensures r.Failure? ==> r.error == ExtractDate(record).error
    ensures r.Success? ==> r.value.id == id && r.value.day == None
  {
    match ExtractDate(record)
    case Failure(e) => Failure(e)
    case Success(date) =>
      Success(Entry(
        id := id,
        title := ExtractTitle(record),
        abstractText := Get(record, "abstract"),
        publisherText := ExtractPublisher(record),
        year := date.year,
        month := date.month,
        day := date.day,
        url := Get(record, "url"),
        authors := ExtractAuthors(record),
        tags := ExtractTags(record)))
  }

  /**
   * The loop of `parse_bibtex` over the parsed records: entry `i` is record
   * `i` numbered `i`, and the first record with a non-integer year stops the
   * run with that record's error.
   */
  method ParseEntries(records: seq<Record>) returns (r: Result<seq<Entry>, ExtractError>)
    ensures r.Success? <==> forall i :: 0 <= i < |records| ==> ExtractEntry(records[i], i).Success?
    ensures r.Success? ==> |r.value| == |records|
    ensures r.Success? ==> forall i :: 0 <= i < |records| ==> Success(r.value[i]) == ExtractEntry(records[i], i)
    ensures r.Success? ==> forall i :: 0 <= i < |records| ==> r.value[i].id == i
    ensures r.Failure? ==> exists k :: 0 <= k < |records| && ExtractEntry(records[k], k) == Failure(r.error)
                                       && forall i :: 0 <= i < k ==> ExtractEntry(records[i], i).Success?
  {
    var entries: seq<Entry> := [];
    for i := 0 to |records|
      invariant |entries| == i
      invariant forall j :: 0 <= j < i ==> Success(entries[j]) == ExtractEntry(records[j], j)
    {
      var entry := ExtractEntry(records[i], i);
      if entry.Failure? {
        return Failure(entry.error);
      }
      entries := entries + [entry.value];
    }
    return Success(entries);
  }
}
