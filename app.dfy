/**
 * The request handlers of app.py that act on the training-data log, as methods
 * of an object holding the state of `training_data.jsonl`. The classifier, the
 * id generator and the clock are given to the handlers as parameters.
 */
module App {
  import opened Wrappers
  import opened Entries
  import opened Stats
  import opened Flagging

  /** What the guardrail model yields for a prompt: class, confidence, time taken. */
  datatype Prediction = Prediction(predictedClass: nat, confidence: real, timeTaken: real)

  /** The JSON body of the classify response, or the status of an error response. */
  datatype ClassifyResponse =
    | Classified(id: string, predictedClass: nat, labelText: string,
                 confidence: real, processingTime: real)
    | ClassifyFailed(status: nat)

  /** The log file `TRAINING_DATA_FILE`; None while the file does not exist. */
  class TrainingLog {
    var file: Option<seq<Line>>

    /** The log as the process finds it on disk at start-up. */
    constructor (initial: Option<seq<Line>>)
      ensures file == initial
    {
      file := initial;
    }

    /**
     * `save_prompt_for_training`: builds an unflagged entry under the given
     * fresh id, appends it as one line and returns its id.
     */
    method SavePromptForTraining(prompt: string, predictedClass: nat, confidence: real,
                                 timeTaken: real, freshId: string, now: Timestamp)
      returns (entryId: string)
      modifies this
      ensures entryId == freshId
      ensures file == Appended(old(file), NewEntry(freshId, now, prompt, predictedClass,
                                                   confidence, timeTaken))
    {
      entryId := freshId;
      var entry := NewEntry(entryId, now, prompt, predictedClass, confidence, timeTaken);
      file := Some(LinesOf(file) + [Record(entry)]);
    }

    /**
     * `classify_prompt`: an empty prompt is a 400 and nothing is recorded.
     * Otherwise the prediction is recorded first; the response carries the
     * label of `label_map`, so for a class other than 0 and 1 the entry stays
     * in the log and the answer is a 500.
     */
    method ClassifyPrompt(prompt: string, classify: string -> Prediction,
                          freshId: string, now: Timestamp)
      returns (response: ClassifyResponse)
      modifies this
      ensures prompt == "" ==> response == ClassifyFailed(400) && file == old(file)
      ensures prompt != "" ==>
        var p := classify(prompt);
        file == Appended(old(file), NewEntry(freshId, now, prompt, p.predictedClass,
                                             p.confidence, p.timeTaken))
      ensures prompt != "" && classify(prompt).predictedClass > 1 ==>
        response == ClassifyFailed(500)
      ensures response.Classified? ==>
        var last := LinesOf(file)[|LinesOf(file)| - 1].entry;
        && prompt != "" && response.predictedClass <= 1
        && response.id == freshId == last.id
        && response.predictedClass == last.predictedClass == classify(prompt).predictedClass
        && response.labelText == last.labelText
        && response.confidence == classify(prompt).confidence
        && response.processingTime == classify(prompt).timeTaken
      ensures prompt != "" && classify(prompt).predictedClass <= 1 ==> response.Classified?
    {
      if prompt == "" {
        return ClassifyFailed(400);
      }
      var p := classify(prompt);
      var entryId := SavePromptForTraining(prompt, p.predictedClass, p.confidence,
                                           p.timeTaken, freshId, now);
      var mapped := ResponseLabel(p.predictedClass);
      ResponseLabelAgreesWithStoredLabel(p.predictedClass);
      if mapped.None? {
        return ClassifyFailed(500);
      }
      response := Classified(entryId, p.predictedClass, mapped.value, p.confidence, p.timeTaken);
    }

    /**
     * The reading loop of `flag_classification`: every entry of the file in
     * order, blank lines skipped; a missing file reads as no entries.
     */
    method ReadEntries() returns (entries: seq<Entry>)
      ensures entries == Records(LinesOf(file))
    {
      entries := [];
      if file.Some? {
        var lines := file.value;
        var i := 0;
        while i < |lines|
          invariant 0 <= i <= |lines|
          invariant entries == Records(lines[..i])
        {
          if lines[i].Record? {
            entries := entries + [lines[i].entry];
          }
          assert lines[..i + 1][..i] == lines[..i];
          i := i + 1;
        }
        assert lines[..|lines|] == lines;
      }
    }

    /**
     * The writing loop of `flag_classification`: mode "w" truncates the file
     * (creating it if need be), then each entry is written as one line.
     */
    method RewriteEntries(entries: seq<Entry>)
      modifies this
      ensures file == Some(AsLines(entries))
    {
      file := Some([]);
      var m := 0;
      while m < |entries|
        invariant 0 <= m <= |entries|
        invariant file == Some(AsLines(entries[..m]))
      {
        assert AsLines(entries[..m + 1]) == AsLines(entries[..m]) + [Record(entries[m])];
        file := Some(file.value + [Record(entries[m])]);
        m := m + 1;
      }
      assert entries[..|entries|] == entries;
    }

    /**
     * `flag_classification`: reads every entry, marks the first one with the
     * id as flagged incorrect and rewrites the whole file; answers 400 for an
     * empty id, and 404 without writing anything when no entry has the id.
     */
    method FlagClassification(entryId: string) returns (status: FlagStatus)
      modifies this
      ensures (status, file) == Flag(old(file), entryId)
    {
      if entryId == "" {
        return BadRequest;
      }
      var entries := ReadEntries();
      ghost var read := entries;
      // Stop at the first entry carrying the id and set its flag
      var updated := false;
      var k := 0;
      while k < |entries|
        invariant 0 <= k <= |entries|
        invariant entries == read && !updated
        invariant forall j :: 0 <= j < k ==> entries[j].id != entryId
      {
        if entries[k].id == entryId {
          entries := entries[k := entries[k].(userFlaggedIncorrect := true)];
          updated := true;
          break;
        }
        k := k + 1;
      }
      if !updated {
        return NotFound;
      }
      assert FirstMatch(read, entryId) == Some(k);
      assert entries == SetFlag(read, k);
      RewriteEntries(entries);
      status := Flagged;
    }
  }

  /**
   * Three unflagged entries of classes 0, 1 and 0 appended to a missing file:
   * three prompts, two safe, one misuse, none flagged.
   */
  lemma {:induction false} ThreeRecordsStatistics(a: Entry, b: Entry, c: Entry)
    requires a.predictedClass == 0 && b.predictedClass == 1 && c.predictedClass == 0
    requires !a.userFlaggedIncorrect && !b.userFlaggedIncorrect && !c.userFlaggedIncorrect
    ensures GetStatistics(Appended(Appended(Appended(None, a), b), c)) == Counts(3, 2, 1, Some(0))
  {
    StatisticsAfterAppend(None, a);
    StatisticsAfterAppend(Appended(None, a), b);
    StatisticsAfterAppend(Appended(Appended(None, a), b), c);
  }

  /**
   * Three prompts of classes 0, 1 and 0 recorded in a fresh deployment, then
   * the second flagged twice: the counts before and after the flag.
   */
  method ThreeRecordsThenFlag(confidence: real, timeTaken: real, now: Timestamp)
  {
    var log := new TrainingLog(None);
    assert GetStatistics(log.file) == Counts(0, 0, 0, None);
    var a := log.SavePromptForTraining("first", 0, confidence, timeTaken, "id-a", now);
    var b := log.SavePromptForTraining("second", 1, confidence, timeTaken, "id-b", now);
    var c := log.SavePromptForTraining("third", 0, confidence, timeTaken, "id-c", now);
    var recorded := log.file;
    ThreeRecordsStatistics(NewEntry(a, now, "first", 0, confidence, timeTaken),
                           NewEntry(b, now, "second", 1, confidence, timeTaken),
                           NewEntry(c, now, "third", 0, confidence, timeTaken));
    assert GetStatistics(recorded) == Counts(3, 2, 1, Some(0));

    var es := Records(LinesOf(recorded));
    assert NoBlank(LinesOf(recorded));
    RecordsOfNoBlank(LinesOf(recorded));
    assert es[1].id == b && es[0].id != b && !es[1].userFlaggedIncorrect;
    var status := log.FlagClassification(b);
    assert status == Flagged;
    StatisticsAfterFlagKeepCounts(recorded, b);
    StatisticsAfterFlagCountsFlag(recorded, b);
    assert GetStatistics(log.file) == Counts(3, 2, 1, Some(1));

    FlagIdempotent(recorded, b);
    var flaggedOnce := log.file;
    var again := log.FlagClassification(b);
    assert again == Flagged && log.file == flaggedOnce;
  }
}
