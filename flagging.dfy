/**
 * What `flag_classification` does to the training-data log, as a function of the
 * file and the requested id, and what follows from it.
 */
module Flagging {
  import opened Wrappers
  import opened Entries
  import opened Stats

  /** The answers of the flag handler: 200 with success, 400, 404. */
  datatype FlagStatus = Flagged | BadRequest | NotFound

  /** The position of the first entry with the given id, the one the `break` stops at. */
  function FirstMatch(entries: seq<Entry>, id: string): (r: Option<nat>)
    ensures r.None? <==> IdAbsent(entries, id)
    ensures r.Some? ==> r.value < |entries| && entries[r.value].id == id
    ensures r.Some? ==> forall j :: 0 <= j < r.value ==> entries[j].id != id
  {
    if entries == [] then None
    else if entries[0].id == id then Some(0)
    else
      match FirstMatch(entries[1..], id)
      case None => None
      case Some(k) => Some(k + 1)
  }

  /** The entries with entry k marked as flagged incorrect. */
  function SetFlag(entries: seq<Entry>, k: nat): seq<Entry>
    requires k < |entries|
  {
    entries[k := entries[k].(userFlaggedIncorrect := true)]
  }

  /**
   * The status the flag handler answers with and the file it leaves behind: an
   * empty id is refused, an id no entry has is not found (and nothing is
   * written), otherwise the file is rewritten with the first matching entry
   * flagged and every blank line dropped.
   */
  function Flag(file: Option<seq<Line>>, id: string): (r: (FlagStatus, Option<seq<Line>>))
    ensures r.0 == BadRequest <==> id == ""
    ensures r.0 != Flagged ==> r.1 == file
    ensures r.0 == Flagged ==>
      r.1.Some? && NoBlank(r.1.value) && |r.1.value| == |Records(LinesOf(file))|
  {
    if id == "" then (BadRequest, file)
    else
      var entries := Records(LinesOf(file));
      match FirstMatch(entries, id)
      case None => (NotFound, file)
      case Some(k) => (Flagged, Some(AsLines(SetFlag(entries, k))))
  }

  /** An empty id is a 400 and the file is left as it was. */
  lemma FlagEmptyIdIsBadRequest(file: Option<seq<Line>>)
    ensures Flag(file, "") == (BadRequest, file)
  {
  }

  /**
   * Not found is answered exactly when the id is not empty and no entry read
   * from the file carries it (in particular when the file is missing); the
   * file is then left as it was, so a missing file stays missing.
   */
  lemma {:induction false} FlagNotFoundExactly(file: Option<seq<Line>>, id: string)
    ensures Flag(file, id).0 == NotFound <==> id != "" && IdAbsent(Records(LinesOf(file)), id)
    ensures Flag(file, id).0 == NotFound ==> Flag(file, id).1 == file
    ensures file.None? && id != "" ==> Flag(file, id) == (NotFound, None)
  {
  }

  /**
   * A successful flag rewrites the file with as many entries, in the same
   * order: the first entry with the id gets its flag set and keeps every other
   * field, and every other entry is unchanged.
   */
  lemma {:induction false} FlagUpdatesFirstMatchOnly(file: Option<seq<Line>>, id: string)
    requires Flag(file, id).0 == Flagged
    ensures var before, after := Records(LinesOf(file)), Records(LinesOf(Flag(file, id).1));
      var k := FirstMatch(before, id).value;
      && Flag(file, id).1.Some?
      && NoBlank(LinesOf(Flag(file, id).1))
      && |after| == |before|
      && before[k].id == id
      && (forall j :: 0 <= j < k ==> before[j].id != id)
      && after[k] == before[k].(userFlaggedIncorrect := true)
      && (forall j :: 0 <= j < |before| && j != k ==> after[j] == before[j])
  {
    var entries := Records(LinesOf(file));
    var k := FirstMatch(entries, id).value;
    RecordsOfAsLines(SetFlag(entries, k));
  }

  /** No flag is ever cleared: an entry flagged before is flagged after. */
  lemma {:induction false} FlagNeverClears(file: Option<seq<Line>>, id: string, j: nat)
    requires Flag(file, id).0 == Flagged
    requires j < |Records(LinesOf(file))| && Records(LinesOf(file))[j].userFlaggedIncorrect
    ensures Records(LinesOf(Flag(file, id).1))[j].userFlaggedIncorrect
  {
    FlagUpdatesFirstMatchOnly(file, id);
  }

  /** FirstMatch looks at nothing but the ids. */
  lemma {:induction false} FirstMatchSameIds(a: seq<Entry>, b: seq<Entry>, id: string)
    requires |a| == |b|
    requires forall i :: 0 <= i < |a| ==> a[i].id == b[i].id
    ensures FirstMatch(a, id) == FirstMatch(b, id)
  {
  }

  /**
   * Flagging is idempotent: flagging the same id again succeeds and leaves the
   * file exactly as the first flag left it.
   */
  lemma {:induction false} FlagIdempotent(file: Option<seq<Line>>, id: string)
    requires Flag(file, id).0 == Flagged
    ensures Flag(Flag(file, id).1, id) == (Flagged, Flag(file, id).1)
  {
    var entries := Records(LinesOf(file));
    var k := FirstMatch(entries, id).value;
    var flagged := SetFlag(entries, k);
    RecordsOfAsLines(flagged);
    FirstMatchSameIds(entries, flagged, id);
    assert SetFlag(flagged, k) == flagged;
  }

  /** Flagging keeps the ids of the entries unique when they were. */
  lemma FlagKeepsUniqueIds(file: Option<seq<Line>>, id: string)
    requires UniqueIds(Records(LinesOf(file)))
    ensures UniqueIds(Records(LinesOf(Flag(file, id).1)))
  {
    if Flag(file, id).0 == Flagged {
      FlagUpdatesFirstMatchOnly(file, id);
    }
  }

  /**
   * With unique ids the first match is the only match: a successful flag sets
   * the flag on the single entry with that id.
   */
  lemma FirstMatchIsOnlyMatch(entries: seq<Entry>, id: string, j: nat)
    requires UniqueIds(entries)
    requires j < |entries| && entries[j].id == id
    ensures FirstMatch(entries, id) == Some(j)
  {
  }

  /**
   * On a log without blank lines, a successful flag keeps the total, safe and
   * misuse counts.
   */
  lemma {:induction false} StatisticsAfterFlagKeepCounts(file: Option<seq<Line>>, id: string)
    requires Flag(file, id).0 == Flagged
    requires NoBlank(LinesOf(file))
    ensures var before, after := GetStatistics(file), GetStatistics(Flag(file, id).1);
      && before.Counts? && after.Counts?
      && after.totalPrompts == before.totalPrompts
      && after.safeCount == before.safeCount
      && after.misuseCount == before.misuseCount
  {
    var lines := LinesOf(file);
    var entries := Records(lines);
    var flagged := SetFlag(entries, FirstMatch(entries, id).value);
    assert Flag(file, id).1 == Some(AsLines(flagged));
    assert file == Some(lines);
    SafeCountAfterFlag(entries, FirstMatch(entries, id).value);
    StatisticsOfRecords(lines);
    StatisticsOfAsLines(flagged);
  }

  /**
   * On a log without blank lines, a successful flag adds one to the flagged
   * count, unless the entry was flagged already.
   */
  lemma {:induction false} StatisticsAfterFlagCountsFlag(file: Option<seq<Line>>, id: string)
    requires Flag(file, id).0 == Flagged
    requires NoBlank(LinesOf(file))
    ensures var before, after := GetStatistics(file), GetStatistics(Flag(file, id).1);
      var entries := Records(LinesOf(file));
      && before.Counts? && after.Counts?
      && before.flaggedCount.Some? && after.flaggedCount.Some?
      && after.flaggedCount.value == before.flaggedCount.value
         + (if entries[FirstMatch(entries, id).value].userFlaggedIncorrect then 0 else 1)
  {
    var lines := LinesOf(file);
    var entries := Records(lines);
    var k := FirstMatch(entries, id).value;
    var flagged := SetFlag(entries, k);
    assert Flag(file, id).1 == Some(AsLines(flagged));
    assert file == Some(lines);
    FlaggedCountAfterFlag(entries, k);
    StatisticsOfRecords(lines);
    StatisticsOfAsLines(flagged);
  }

  /**
   * Recording an entry whose id is fresh and then flagging that id succeeds,
   * and flags the new entry: the log now holds the entries read before, then
   * the new entry with its flag set.
   */
  lemma {:induction false} FlagAfterAppend(file: Option<seq<Line>>, e: Entry)
    requires e.id != ""
    requires IdAbsent(Records(LinesOf(file)), e.id)
    ensures Flag(Appended(file, e), e.id)
         == (Flagged, Some(AsLines(Records(LinesOf(file)) + [e.(userFlaggedIncorrect := true)])))
  {
    var entries := Records(LinesOf(file));
    RecordsOfAppended(file, e);
    var entries' := entries + [e];
    assert FirstMatch(entries', e.id) == Some(|entries|) by {
      assert entries'[|entries|].id == e.id;
    }
    assert SetFlag(entries', |entries|) == entries + [e.(userFlaggedIncorrect := true)];
  }
}
