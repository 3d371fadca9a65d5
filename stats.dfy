/**
 * The counts `get_statistics` reports over the training-data log: the number of
 * lines, the entries of class 0 ("safe"), the rest ("misuse") and the entries a
 * user flagged as incorrect.
 */
module Stats {
  import opened Wrappers
  import opened Entries

  /**
   * The JSON body of the stats response. `flaggedCount` is None where the
   * response has no `flagged_count` field (the log file does not exist).
   * `Failed` is the 500 answer, raised when a line does not parse.
   */
  datatype StatsResponse =
    | Counts(totalPrompts: nat, safeCount: nat, misuseCount: nat, flaggedCount: Option<nat>)
    | Failed(status: nat)

  /** `sum(1 for ... if predicted_class == 0)` */
  function SafeCount(entries: seq<Entry>): (n: nat)
    ensures n <= |entries|
  {
    if entries == [] then 0
    else
      SafeCount(entries[..|entries| - 1])
      + (if entries[|entries| - 1].predictedClass == 0 then 1 else 0)
  }

  /** `sum(1 for ... if user_flagged_incorrect)` */
  function FlaggedCount(entries: seq<Entry>): (n: nat)
    ensures n <= |entries|
  {
    if entries == [] then 0
    else
      FlaggedCount(entries[..|entries| - 1])
      + (if entries[|entries| - 1].userFlaggedIncorrect then 1 else 0)
  }

  /** The positions of the entries of class 0: an independent reading of SafeCount. */
  function SafeIndices(entries: seq<Entry>): set<nat> {
    set i: nat | i < |entries| && entries[i].predictedClass == 0
  }

  function FlaggedIndices(entries: seq<Entry>): set<nat> {
    set i: nat | i < |entries| && entries[i].userFlaggedIncorrect
  }

  /** The safe count is the number of positions holding an entry of class 0. */
  lemma {:induction false} SafeCountIsSafeIndices(entries: seq<Entry>)
    ensures SafeCount(entries) == |SafeIndices(entries)|
  {
    if entries != [] {
      var n := |entries| - 1;
      var front := entries[..n];
      SafeCountIsSafeIndices(front);
      if entries[n].predictedClass == 0 {
        assert SafeIndices(entries) == SafeIndices(front) + {n};
      } else {
        assert SafeIndices(entries) == SafeIndices(front);
      }
    }
  }

  /** The flagged count is the number of positions holding a flagged entry. */
  lemma {:induction false} FlaggedCountIsFlaggedIndices(entries: seq<Entry>)
    ensures FlaggedCount(entries) == |FlaggedIndices(entries)|
  {
    if entries != [] {
      var n := |entries| - 1;
      var front := entries[..n];
      FlaggedCountIsFlaggedIndices(front);
      if entries[n].userFlaggedIncorrect {
        assert FlaggedIndices(entries) == FlaggedIndices(front) + {n};
      } else {
        assert FlaggedIndices(entries) == FlaggedIndices(front);
      }
    }
  }

  /** The response of `get_statistics` for the given state of the log file. */
  function GetStatistics(file: Option<seq<Line>>): (r: StatsResponse)
    ensures r.Counts? ==> r.safeCount + r.misuseCount == r.totalPrompts
    ensures file.None? ==> r == Counts(0, 0, 0, None)
    ensures file == Some([]) ==> r == Counts(0, 0, 0, Some(0))
    ensures r.Failed? <==> file.Some? && !NoBlank(file.value)
    ensures r.Failed? ==> r.status == 500
    ensures r.Counts? ==> r.totalPrompts == |LinesOf(file)|
    ensures r.Counts? ==> (r.flaggedCount.Some? <==> file.Some?)
  {
    match file
    case None => Counts(0, 0, 0, None)
    case Some(lines) =>
      var total := |lines|;
      if total > 0 then
        if !NoBlank(lines) then Failed(500)
        else
          var entries := Records(lines);
          var safe := SafeCount(entries);
          Counts(total, safe, total - safe, Some(FlaggedCount(entries)))
      else Counts(0, 0, 0, Some(0))
  }

  /** The counts of an existing log without blank lines, in terms of its entries. */
  lemma StatisticsOfRecords(lines: seq<Line>)
    requires NoBlank(lines)
    ensures GetStatistics(Some(lines)).Counts?
    ensures GetStatistics(Some(lines)).totalPrompts == |lines|
    ensures GetStatistics(Some(lines)).safeCount == SafeCount(Records(lines))
    ensures GetStatistics(Some(lines)).flaggedCount == Some(FlaggedCount(Records(lines)))
  {
    if lines == [] {
      assert Records(lines) == [];
    }
  }

  /** The counts of a log the flag handler has rewritten from the given entries. */
  lemma StatisticsOfAsLines(entries: seq<Entry>)
    ensures GetStatistics(Some(AsLines(entries))).Counts?
    ensures GetStatistics(Some(AsLines(entries))).totalPrompts == |entries|
    ensures GetStatistics(Some(AsLines(entries))).safeCount == SafeCount(entries)
    ensures GetStatistics(Some(AsLines(entries))).flaggedCount == Some(FlaggedCount(entries))
  {
    RecordsOfAsLines(entries);
    StatisticsOfRecords(AsLines(entries));
  }

  /**
   * The counts of an existing, readable log: the safe count is the number of
   * entries of class 0 and the flagged count the number of flagged entries.
   */
  lemma StatisticsCountEntries(file: Option<seq<Line>>)
    requires file.Some? && GetStatistics(file).Counts?
    ensures GetStatistics(file).safeCount == |SafeIndices(Records(file.value))|
    ensures GetStatistics(file).flaggedCount == Some(|FlaggedIndices(Records(file.value))|)
  {
    SafeCountIsSafeIndices(Records(file.value));
    FlaggedCountIsFlaggedIndices(Records(file.value));
  }

  /**
   * Appending an entry to a log whose stats could be computed adds one to the
   * total, one to the safe or the misuse count according to its class, and
   * nothing to the flagged count; `flagged_count` is present afterwards.
   */
  lemma {:induction false} StatisticsAfterAppend(file: Option<seq<Line>>, e: Entry)
    requires GetStatistics(file).Counts?
    requires !e.userFlaggedIncorrect
    ensures var before, after := GetStatistics(file), GetStatistics(Appended(file, e));
      && after.Counts?
      && after.totalPrompts == before.totalPrompts + 1
      && after.safeCount == before.safeCount + (if e.predictedClass == 0 then 1 else 0)
      && after.misuseCount == before.misuseCount + (if e.predictedClass == 0 then 0 else 1)
      && after.flaggedCount == Some(before.flaggedCount.GetOr(0))
  {
    var lines := LinesOf(file);
    var lines' := LinesOf(Appended(file, e));
    RecordsOfAppended(file, e);
    assert NoBlank(lines');
    var es := Records(lines);
    assert Records(lines') == es + [e];
    assert (es + [e])[..|es|] == es;
  }

  /** Setting the flag of entry k leaves the safe count as it was. */
  lemma {:induction false} SafeCountAfterFlag(entries: seq<Entry>, k: nat)
    requires k < |entries|
    ensures SafeCount(entries[k := entries[k].(userFlaggedIncorrect := true)]) == SafeCount(entries)
  {
    var n := |entries| - 1;
    var entries' := entries[k := entries[k].(userFlaggedIncorrect := true)];
    if k < n {
      assert entries'[..n] == entries[..n][k := entries[k].(userFlaggedIncorrect := true)];
      SafeCountAfterFlag(entries[..n], k);
    } else {
      assert entries'[..n] == entries[..n];
    }
  }

  /** Setting the flag of entry k adds one to the flagged count unless it was set already. */
  lemma {:induction false} FlaggedCountAfterFlag(entries: seq<Entry>, k: nat)
    requires k < |entries|
    ensures FlaggedCount(entries[k := entries[k].(userFlaggedIncorrect := true)])
         == FlaggedCount(entries) + (if entries[k].userFlaggedIncorrect then 0 else 1)
  {
    var n := |entries| - 1;
    var entries' := entries[k := entries[k].(userFlaggedIncorrect := true)];
    if k < n {
      assert entries'[..n] == entries[..n][k := entries[k].(userFlaggedIncorrect := true)];
      FlaggedCountAfterFlag(entries[..n], k);
    } else {
      assert entries'[..n] == entries[..n];
    }
  }
}
