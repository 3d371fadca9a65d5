/**
 * The records of the training-data log (`training_data.jsonl` in app.py): one
 * classification entry per line, the label derived from the predicted class, and
 * the two views of the file that the handlers use — the lines as stored and the
 * entries read back from them.
 */
module Entries {
  import opened Wrappers

  /** `datetime.now().isoformat()`; only carried, never inspected. */
  type Timestamp = string

  /** One classification, as `save_prompt_for_training` writes it. */
  datatype Entry = Entry(
    id: string,
    timestamp: Timestamp,
    prompt: string,
    predictedClass: nat,
    labelText: string,
    confidence: real,
    processingTime: real,
    userFlaggedIncorrect: bool)

  /**
   * One line of the JSONL file: an encoded entry, or a line holding nothing but
   * white space (which the flag handler skips and the stats handler cannot parse).
   */
  datatype Line = Blank | Record(entry: Entry)

  /** The label stored with an entry: every non-zero class is "MISUSE". */
  function StoredLabel(predictedClass: nat): (l: string)
    ensures l == "SAFE" <==> predictedClass == 0
    ensures l == "MISUSE" <==> predictedClass != 0
  {
    if predictedClass == 0 then "SAFE" else "MISUSE"
  }

  /** `label_map` of the classify handler: it knows the classes 0 and 1 only. */
  const LabelMap: map<nat, string> := map[0 := "SAFE", 1 := "MISUSE"]

  /** The label the classify handler answers with; None where `label_map[...]` raises. */
  function ResponseLabel(predictedClass: nat): (r: Option<string>)
    ensures r.Some? <==> predictedClass <= 1
  {
    if predictedClass in LabelMap then Some(LabelMap[predictedClass]) else None
  }

  /**
   * The response label exists exactly for the classes 0 and 1, and where it
   * exists it is the label stored in the log.
   */
  lemma ResponseLabelAgreesWithStoredLabel(predictedClass: nat)
    ensures ResponseLabel(predictedClass).Some? <==> predictedClass <= 1
    ensures predictedClass <= 1 ==> ResponseLabel(predictedClass) == Some(StoredLabel(predictedClass))
  {
  }

  /** An entry whose label agrees with its predicted class. */
  predicate Labelled(e: Entry) {
    e.labelText == StoredLabel(e.predictedClass)
  }

  /** The dictionary `save_prompt_for_training` builds. */
  function NewEntry(id: string, timestamp: Timestamp, prompt: string, predictedClass: nat,
                    confidence: real, processingTime: real): (e: Entry)
    ensures e.id == id && e.prompt == prompt && e.predictedClass == predictedClass
    ensures Labelled(e) && !e.userFlaggedIncorrect
  {
    Entry(id, timestamp, prompt, predictedClass, StoredLabel(predictedClass),
          confidence, processingTime, false)
  }

  /** The lines of the file; a missing file reads as no lines. */
  function LinesOf(file: Option<seq<Line>>): seq<Line> {
    file.GetOr([])
  }

  predicate NoBlank(lines: seq<Line>) {
    forall i :: 0 <= i < |lines| ==> lines[i].Record?
  }

  /**
   * The entries read back from the lines, in file order, skipping blank lines
   * (the reading loop of `flag_classification`).
   */
  function Records(lines: seq<Line>): (entries: seq<Entry>)
    ensures |entries| <= |lines|
    ensures NoBlank(lines) ==> |entries| == |lines|
  {
    if lines == [] then []
    else
      var last := lines[|lines| - 1];
      Records(lines[..|lines| - 1]) + (if last.Record? then [last.entry] else [])
  }

  /** Without blank lines, the i-th entry read back is the one on the i-th line. */
  lemma {:induction false} RecordsOfNoBlank(lines: seq<Line>)
    requires NoBlank(lines)
    ensures |Records(lines)| == |lines|
    ensures forall i :: 0 <= i < |lines| ==> Records(lines)[i] == lines[i].entry
  {
    if lines != [] {
      var front := lines[..|lines| - 1];
      assert NoBlank(front);
      RecordsOfNoBlank(front);
    }
  }

  /** One line per entry, as the rewrite loop of `flag_classification` writes them. */
  function AsLines(entries: seq<Entry>): (lines: seq<Line>)
    ensures |lines| == |entries| && NoBlank(lines)
    ensures forall i :: 0 <= i < |entries| ==> lines[i] == Record(entries[i])
  {
    seq(|entries|, i requires 0 <= i < |entries| => Record(entries[i]))
  }

  /** Reading back what the rewrite wrote gives the same entries. */
  lemma RecordsOfAsLines(entries: seq<Entry>)
    ensures Records(AsLines(entries)) == entries
  {
    RecordsOfNoBlank(AsLines(entries));
  }

  /**
   * The file after appending one entry (mode "a" creates a missing file): it
   * exists, it has one line more, the earlier lines are untouched and the new
   * entry is last.
   */
  function Appended(file: Option<seq<Line>>, e: Entry): (after: Option<seq<Line>>)
    ensures after.Some?
    ensures |LinesOf(after)| == |LinesOf(file)| + 1
    ensures LinesOf(after)[..|LinesOf(file)|] == LinesOf(file)
    ensures LinesOf(after)[|LinesOf(file)|] == Record(e)
  {
    Some(LinesOf(file) + [Record(e)])
  }

  /** The entries read back after an append are the earlier ones followed by the new one. */
  lemma {:induction false} RecordsOfAppended(file: Option<seq<Line>>, e: Entry)
    ensures Records(LinesOf(Appended(file, e))) == Records(LinesOf(file)) + [e]
  {
    var lines := LinesOf(file) + [Record(e)];
    assert lines[..|lines| - 1] == LinesOf(file);
  }

  /** No two entries share an id (what fresh `uuid4` ids give the log). */
  predicate UniqueIds(entries: seq<Entry>) {
    forall i, j :: 0 <= i < j < |entries| ==> entries[i].id != entries[j].id
  }

  predicate IdAbsent(entries: seq<Entry>, id: string) {
    forall i :: 0 <= i < |entries| ==> entries[i].id != id
  }

  /** Appending an entry with a fresh id keeps the ids unique. */
  lemma AppendFreshKeepsUniqueIds(file: Option<seq<Line>>, e: Entry)
    requires UniqueIds(Records(LinesOf(file))) && IdAbsent(Records(LinesOf(file)), e.id)
    ensures UniqueIds(Records(LinesOf(Appended(file, e))))
  {
    RecordsOfAppended(file, e);
  }
}
