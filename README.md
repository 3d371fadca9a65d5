# Training-data log of the guardrail classifier

The Flask back end in `app.py` classifies each prompt with a guardrail model. It
keeps every classification in a JSON-lines file, `training_data.jsonl`. This
project models that log and the three handlers that act on it:

- **Record** (`save_prompt_for_training`, called by the `/api/classify` handler)
  appends one entry. The entry gets a fresh id and a label derived from the
  predicted class, and its "flagged incorrect" bit starts out false.
- **Flag** (`/api/flag`) reads every entry and sets the bit on the first entry
  with the requested id. It then rewrites the whole file.
- **Stats** (`/api/stats`) counts the prompts, the safe ones (class 0), the
  misuse ones (the rest) and the flagged ones.

The file is a value `Option<seq<Line>>`. `None` means the file does not exist.
Each `Line` is either an encoded `Entry` or a blank line. The classifier, the
uuid generator and the clock are parameters of the handlers.

Modules, one file each:

- `Wrappers` (`wrappers.dfy`): `Option`.
- `Entries` (`entries.dfy`): the entry record and the stored label. Also the
  lines as written and the entries read back from them, plus append.
- `Stats` (`stats.dfy`): the counting functions and the stats response.
- `Flagging` (`flagging.dfy`): the flag handler's effect as a function of the
  file, and its properties.
- `App` (`app.dfy`): class `TrainingLog` holds the file.
  Its methods are the record, classify and flag handlers, with the loops of the
  flag handler. A client method runs three records and then two flags.

The model follows the code as written; in particular:

- The log is one local file with no locking. The flag handler rewrites it in
  place with mode `"w"`.
- Every non-zero class is stored as `"MISUSE"`. The response label comes from a
  map that knows only the classes 0 and 1. So a class of 2 or more is recorded
  in the log and then answered with a 500.
- The stats response has no `flagged_count` field when the file is missing. It
  has `flagged_count: 0` when the file exists but is empty.
- The stats handler parses every line, so a blank line makes it answer 500. The
  flag handler skips blank lines and drops them when it rewrites the file.

## Model

| member | source | states |
|---|---|---|
| `Entries.StoredLabel` | app.py:43 | the stored label is "SAFE" exactly when the class is 0 and "MISUSE" exactly when it is not |
| `Entries.ResponseLabel` | app.py:85-93 | `label_map[predicted_class]` yields a label exactly for classes 0 and 1; any other class has none (the lookup raises) |
| `Entries.ResponseLabelAgreesWithStoredLabel` | app.py:84-93 | `label_map` has a label exactly for classes 0 and 1, and there it equals the stored label |
| `Entries.NewEntry` | app.py:37-47 | a new entry carries the given id, prompt and class, its label agrees with its class, and it is not flagged |
| `Entries.Records` | app.py:112-117 | reading skips blank lines, so it yields at most one entry per line, and exactly one per line when there are no blank lines |
| `Entries.RecordsOfNoBlank` | app.py:112-117 | without blank lines, the i-th entry read is the entry on line i |
| `Entries.AsLines` | app.py:131-133 | the rewrite writes one non-blank line per entry, in order |
| `Entries.RecordsOfAsLines` | app.py:112-133 | reading back what the rewrite wrote yields the same entries |
| `Entries.Appended` | app.py:49-51 | after an append the file exists and has one more line; earlier lines are unchanged and the new entry is last |
| `Entries.RecordsOfAppended` | app.py:49-51 | the entries read after an append are the earlier ones followed by the new one |
| `Entries.AppendFreshKeepsUniqueIds` | app.py:37-51 | appending an entry whose id is fresh keeps all ids in the log distinct |
| `Stats.SafeCount` | app.py:157 | the safe count never exceeds the number of entries |
| `Stats.FlaggedCount` | app.py:159 | the flagged count never exceeds the number of entries |
| `Stats.SafeCountIsSafeIndices` | app.py:157 | the safe count equals the number of positions holding a class-0 entry |
| `Stats.FlaggedCountIsFlaggedIndices` | app.py:159 | the flagged count equals the number of positions holding a flagged entry |
| `Stats.GetStatistics` | app.py:140-176 | safe + misuse = total; total is the number of lines; missing file gives zeros and no flagged field; empty file gives zeros with flagged 0; 500 exactly when a line is blank; the flagged field is present exactly when the file exists |
| `Stats.StatisticsOfRecords` | app.py:151-173 | for an existing log without blank lines, the empty one included: total is the line count, safe and flagged are the counts over its entries, and the flagged field is present |
| `Stats.StatisticsOfAsLines` | app.py:151-173 | the counts of a rewritten log, the empty one included, are the counts over the entries written |
| `Stats.StatisticsCountEntries` | app.py:155-166 | on an existing log, safe counts the class-0 entries and flagged counts the flagged entries |
| `Stats.StatisticsAfterAppend` | app.py:49-51 | an append adds one to the total and one to safe or misuse by its class; flagged is unchanged and present afterwards |
| `Stats.SafeCountAfterFlag` | app.py:121-125 | setting an entry's flag leaves the safe count unchanged |
| `Stats.FlaggedCountAfterFlag` | app.py:121-125 | setting an entry's flag adds one to the flagged count, unless that entry was already flagged |
| `Flagging.FirstMatch` | app.py:120-125 | returns nothing exactly when no entry has the id; otherwise the first position whose entry has the id |
| `Flagging.Flag` | app.py:104-135 | the flag handler's status and resulting file: 400 exactly for an empty id; on 400 or 404 the file is unchanged; on success the file exists, has no blank line and has one line per entry read |
| `Flagging.FlagEmptyIdIsBadRequest` | app.py:106-109 | an empty id gives 400 and leaves the file unchanged |
| `Flagging.FlagNotFoundExactly` | app.py:111-128 | 404 exactly when the id is non-empty and no entry carries it; the file is then unchanged, and a missing file stays missing |
| `Flagging.FlagUpdatesFirstMatchOnly` | app.py:119-133 | a successful flag rewrites the same number of entries in the same order, without blank lines; the first matching entry gets its flag set and keeps every other field; every other entry is unchanged |
| `Flagging.FlagNeverClears` | app.py:121-125 | an entry flagged before a flag is still flagged after it |
| `Flagging.FirstMatchSameIds` | app.py:121-122 | the lookup depends on the ids only |
| `Flagging.FlagIdempotent` | app.py:111-135 | flagging the same id again succeeds and leaves the file exactly as the first flag did |
| `Flagging.FlagKeepsUniqueIds` | app.py:130-133 | flagging keeps distinct ids distinct |
| `Flagging.FirstMatchIsOnlyMatch` | app.py:121-125 | with distinct ids, the first match is the one entry with that id |
| `Flagging.StatisticsAfterFlagKeepCounts` | app.py:153-158 | on a log without blank lines, a flag keeps total, safe and misuse |
| `Flagging.StatisticsAfterFlagCountsFlag` | app.py:159 | on a log without blank lines, a flag adds one to the flagged count, unless the entry was already flagged |
| `Flagging.FlagAfterAppend` | app.py:119-133 | recording an entry with a fresh, non-empty id and then flagging that id succeeds; the log then holds the earlier entries and the new one, flagged |
| `App.TrainingLog.constructor` | app.py:16 | the log starts as whatever file is on disk |
| `App.TrainingLog.SavePromptForTraining` | app.py:35-53 | returns the fresh id; the file becomes the old file with the new unflagged entry appended |
| `App.TrainingLog.ClassifyPrompt` | app.py:55-99 | an empty prompt gives 400 and leaves the log unchanged; otherwise the prediction is appended; class 2 or more gives 500; a success returns the stored entry's id, class and label, with the classifier's confidence and time |
| `App.TrainingLog.ReadEntries` | app.py:111-117 | returns the entries of the file in order, skipping blank lines; a missing file gives none |
| `App.TrainingLog.RewriteEntries` | app.py:130-133 | the file becomes exactly one line per given entry |
| `App.TrainingLog.FlagClassification` | app.py:101-138 | the status and the new file are those of `Flag` on the old file: 400, 404 with nothing written, or the first match flagged and the file rewritten |
| `App.ThreeRecordsStatistics` | app.py:140-166 | three unflagged entries of classes 0, 1 and 0 on a missing file give 3 prompts, 2 safe, 1 misuse, 0 flagged |

## Left out

- Model loading and inference (app.py:19-33, 66-82): tokenizer, argmax, softmax and device choice are floating-point numerics in a foreign library. The classifier is a function parameter. It returns the class, the confidence and the elapsed time, and never fails. A classifier exception, which gives a 500, is not modelled.
- Confidence and processing time are `real`s carried unchanged. `float(...)` conversion and float precision are not modelled.
- `uuid.uuid4()` and `datetime.now()` are parameters of the handlers. No method requires the id to be fresh. Lemmas that need freshness (`AppendFreshKeepsUniqueIds`, `FlagAfterAppend`, `FirstMatchIsOnlyMatch`) take it as a hypothesis.
- JSON encoding and decoding: a non-blank line is modelled as the entry it encodes. A malformed non-blank line would make `json.loads` raise, giving a 500 from both flag and stats. It is not modelled, because the writer only writes `json.dumps` output.
- File-system failures (an unreadable or unwritable file gives a 500), a crash halfway through the `"w"` rewrite, and concurrent requests are not modelled. The handlers run one after another on one value of the file.
- Request parsing: the prompt and the id are strings, and an absent key is the empty string. Non-string JSON values are not modelled. The handlers test the value with `not`, so a falsy one (`null`, `0`, `false`, `[]`) gets a 400 from either handler. A truthy non-string id such as `42` matches no entry and gets a 404. A truthy non-string prompt goes on to the tokenizer: a one-element list is classified as a batch of one, recorded and answered normally. A request whose body is not a JSON object fails in `get_json` or `data.get` and gets a 500.
- Flask routing, CORS, the health endpoint (app.py:1-11, 178-188), and the web and Streamlit front ends and AWS Amplify configuration are not part of this model.
