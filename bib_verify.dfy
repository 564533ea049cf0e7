/**
 * The duplicate-identifier check run over the BibTeX database before the
 * site is built: every entry must carry a string `ID`, and the check
 * reports exactly the identifiers that occur more than once.
 */
module BibVerify {
  import opened Wrappers

  /** A field value of a parsed entry: a string, or a value of some other type. */
  datatype Value = Str(text: string) | Other(typeName: string)

  /** A parsed BibTeX entry: field name to value. */
  type BibEntry = map<string, Value>

  /** `KeyError` for an entry without `ID`, `TypeError` for an `ID` that is not a string. */
  datatype IdError = MissingId | IdNotString(typeName: string)

  /** `get_entry_id`: the string `ID` of an entry. */
  function GetEntryId(entry: BibEntry): (r: Result<string, IdError>)
    ensures r.Success? <==> "ID" in entry && entry["ID"].Str?
    ensures r.Success? ==> entry["ID"] == Str(r.value)
    ensures r == Failure(MissingId) <==> "ID" !in entry
    ensures r.Failure? && "ID" in entry ==> r.error == IdNotString(entry["ID"].typeName)
  {
    if "ID" !in entry then Failure(MissingId)
    else match entry["ID"]
      case Str(id) => Success(id)
      case Other(t) => Failure(IdNotString(t))
  }

  /** Entry `k` is the first whose identifier is invalid, and `err` is its error. */
  predicate FailsFirstAt(entries: seq<BibEntry>, k: int, err: IdError) {
    0 <= k < |entries| && GetEntryId(entries[k]) == Failure(err) &&
    forall j :: 0 <= j < k ==> GetEntryId(entries[j]).Success?
  }

  /**
   * `list(map(get_entry_id, entries))`: the identifiers in entry order, or
   * the error of the first entry without a valid one.
   */
  function EntryIds(entries: seq<BibEntry>): (r: Result<seq<string>, IdError>)
    ensures r.Success? <==> forall i :: 0 <= i < |entries| ==> GetEntryId(entries[i]).Success?
    ensures r.Success? ==> |r.value| == |entries|
    ensures r.Success? ==> forall i :: 0 <= i < |entries| ==> GetEntryId(entries[i]) == Success(r.value[i])
    ensures r.Failure? ==> exists k :: FailsFirstAt(entries, k, r.error)
    decreases |entries|
  {
    if entries == [] then Success([])
    else match GetEntryId(entries[0])
      case Failure(err) =>
        assert FailsFirstAt(entries, 0, err);
        Failure(err)
      case Success(id) =>
        match EntryIds(entries[1..])
        case Failure(err) =>
          assert exists k :: FailsFirstAt(entries, k, err) by {
            var k :| 0 <= k < |entries| - 1 && GetEntryId(entries[1..][k]) == Failure(err) &&
              forall j :: 0 <= j < k ==> GetEntryId(entries[1..][j]).Success?;
            assert GetEntryId(entries[k + 1]) == Failure(err);
            forall j | 0 <= j < k + 1 ensures GetEntryId(entries[j]).Success? {
              if j > 0 { assert entries[j] == entries[1..][j - 1]; }
            }
            assert FailsFirstAt(entries, k + 1, err);
          }
          Failure(err)
        case Success(rest) =>
          assert forall i :: 1 <= i < |entries| ==> entries[i] == entries[1..][i - 1];
          Success([id] + rest)
  }

  /** `ids.count(x)`. */
  function Count(ids: seq<string>, x: string): (n: nat)
    ensures n <= |ids|
    ensures n > 0 <==> x in ids
  {
    if ids == [] then 0
    else (if ids[0] == x then 1 else 0) + Count(ids[1..], x)
  }

  /** No identifier occurs twice. */
  predicate Distinct(ids: seq<string>) {
    forall i, j :: 0 <= i < j < |ids| ==> ids[i] != ids[j]
  }

  /** An identifier counts more than once exactly when it sits at two different positions. */
  lemma {:induction false} CountAboveOne(ids: seq<string>, x: string)
    ensures Count(ids, x) > 1 <==> exists i, j :: 0 <= i < j < |ids| && ids[i] == x && ids[j] == x
  {
    if ids != [] {
      var rest := ids[1..];
      CountAboveOne(rest, x);
      if Count(ids, x) > 1 {
        if ids[0] == x {
          var k :| 0 <= k < |rest| && rest[k] == x;
          assert ids[k + 1] == x;
        } else {
          var i, j :| 0 <= i < j < |rest| && rest[i] == x && rest[j] == x;
          assert ids[i + 1] == x && ids[j + 1] == x;
        }
      }
      if exists i, j :: 0 <= i < j < |ids| && ids[i] == x && ids[j] == x {
        var i, j :| 0 <= i < j < |ids| && ids[i] == x && ids[j] == x;
        assert rest[j - 1] == x;
        if i > 0 {
          assert rest[i - 1] == x;
        }
      }
    }
  }

  /** The identifiers are pairwise distinct exactly when none counts more than once. */
  lemma DistinctIffNoRepeat(ids: seq<string>)
    ensures Distinct(ids) <==> forall x :: Count(ids, x) <= 1
  {
    if Distinct(ids) {
      forall x ensures Count(ids, x) <= 1 {
        CountAboveOne(ids, x);
      }
    }
    if !Distinct(ids) {
      var i, j :| 0 <= i < j < |ids| && ids[i] == ids[j];
      CountAboveOne(ids, ids[i]);
    }
  }

  /** The loop of `check_for_duplicate_ids`: the identifiers whose count exceeds one. */
  method FindDuplicates(ids: seq<string>) returns (dups: set<string>)
    ensures forall x :: x in dups <==> Count(ids, x) > 1
  {
    dups := {};
    for i := 0 to |ids|
      invariant forall x :: x in dups <==> x in ids[..i] && Count(ids, x) > 1
    {
      assert ids[..i + 1] == ids[..i] + [ids[i]];
      if Count(ids, ids[i]) > 1 {
        dups := dups + {ids[i]};
      }
    }
    assert ids[..|ids|] == ids;
  }

  /**
   * `check_for_duplicate_ids`: an identifier error, or `None` when all
   * identifiers are distinct, or the set of repeated identifiers.
   */
  method CheckForDuplicateIds(entries: seq<BibEntry>) returns (r: Result<Option<set<string>>, IdError>)
    ensures r.Failure? <==> EntryIds(entries).Failure?
    ensures r.Failure? ==> r.error == EntryIds(entries).error
    ensures r.Success? ==> (r.value.None? <==> Distinct(EntryIds(entries).value))
    ensures r.Success? && r.value.Some? ==> r.value.value != {}
    ensures r.Success? && r.value.Some? ==>
      forall x :: x in r.value.value <==> Count(EntryIds(entries).value, x) > 1
  {
    var ids := EntryIds(entries);
    if ids.Failure? {
      return Failure(ids.error);
    }
    var dups := FindDuplicates(ids.value);
    DistinctIffNoRepeat(ids.value);
    if dups != {} {
      var x :| x in dups;
      CountAboveOne(ids.value, x);
      return Success(Some(dups));
    }
    return Success(None);
  }
}
