# Call-analytics core: dialogue gate and annotation reconciler

This project is a Dafny model of the two pieces of logic at the core of the call-analytics pipeline.

- **Dialogue gate** (`dialogue_detection.dfy`, module `DialogueDetection`, modelling
  `src/audio/error.py`). `DetectSpeechSegments` is the turn-counting pass over a speech/silence
  frame mask. It keeps three state variables: the turn count, the silence-run counter and the
  in-speech flag. It is proved equal to `Turns`, a reference count of the frames that start a
  speech run after a silence run of at least `minSilenceFrames` frames. The lemmas beside it give
  the properties of that count:
  - it never decreases;
  - what happens at the threshold edge;
  - what happens from the start state and on degenerate masks;
  - the counting bound `turns * (minSilenceFrames + 1) <= |mask|`.

  `DialogueDetecting.Process` turns the count into the dialogue decision. It removes the
  recording from an `AudioStore` (the set of existing paths) exactly when there is no dialogue
  and `deleteOriginal` is set.
- **Annotation reconciler** (`annotation_spec.dfy`, module `AnnotationSpec`, and `annotator.dfy`,
  module `TextUtils`, modelling `src/text/utils.py`). The structured sentiment model (SSM) is an
  `array<Utterance>`. The `Annotator` holds the caller's array itself, so every merge is visible
  to the caller, as with the Python list of dicts. Each method of the `Annotator` class is proved
  against a specification function on sequences: `MergeSentiment`, `MergeProfanity` and
  `Finalized`. The reconciler's promises are then proved as lemmas about those functions. The
  payloads are tagged datatypes:
  - a sentiment payload is a bare list, an object with `"sentiments"` (a list or not), or
    unusable;
  - entries are objects with optional keys, or non-objects;
  - the profanity payload is a `ProfanityResults` object. Its list is padded or truncated in
    place, as the source does to the caller's dict.

  Python's exceptions in `add_profanity` are modelled as an outcome: `KeyError` for a missing
  `index` or `profane` key, and `IndexError` for an index below `-n`. The outcome keeps the
  records written before the failing entry.

On these points the model follows what the code does:

- `min_silence_frames` is truncated (`int(...)`), not rounded. The model takes the frame count
  as an input either way.
- The profanity merge is not total. A missing `index` or `profane` key raises, and an index
  below `-n` raises. A negative index `-n <= i < 0` writes record `n + i`; only indices `>= n`
  are skipped. The value of `profane` is read before the record is indexed, so an entry with
  index below `-n` and no `profane` key raises `KeyError`. An entry whose index is `>= n` is
  skipped without reading `profane`.
- When the `"profanity"` key is missing, only absent flags are set to false (`setdefault`). When
  the key is present, the padding entries overwrite existing flags. No defaulting follows the
  merge, so a record that no entry writes can still lack its flag until `finalize`.

## Model

| member | source | states |
|---|---|---|
| `DialogueDetection.TrailingSilence` | src/audio/error.py:126-132 | the silence counter's value: the length of the maximal run of silence frames at the end of the mask (all silence inside it, speech or the start just before it) |
| `DialogueDetection.TurnAt` | src/audio/error.py:122-124 | a counted turn is a speech frame at index `i >= min_silence_frames` whose `min_silence_frames` predecessors are all silence |
| `DialogueDetection.Turns` | src/audio/error.py:117-125 | the reference count of turns, never more than the number of frames |
| `DialogueDetection.DetectSpeechSegments` | src/audio/error.py:117-134 | returns `Turns(mask, m)`; its loop invariants state that after each frame `silence_count` is the trailing silence run and `in_speech` is that frame's flag |
| `DialogueDetection.TurnStep` | src/audio/error.py:121-125 | the count grows by exactly one at a frame that starts a speech run after at least `m` silence frames, and by zero at every other frame |
| `DialogueDetection.TurnsNeverDecrease` | src/audio/error.py:117-125 | the turn count over a longer prefix of the mask is never smaller |
| `DialogueDetection.TurnBudget` | src/audio/error.py:117-134 | `turns * (m + 1)` plus the open silence run (capped at `m`) never exceeds the number of frames |
| `DialogueDetection.TurnBound` | src/audio/error.py:117-134 | counting bound: `turn_count * (min_silence_frames + 1) <= len(mask)` |
| `DialogueDetection.SilenceAddsNoTurn` | src/audio/error.py:127-132 | silence frames add no turn; after speech or at the start, `k` silence frames leave a trailing run of exactly `k` |
| `DialogueDetection.SilenceThenSpeech` | src/audio/error.py:122-125 | a whole silence run of `k` frames followed by speech adds a turn iff `k >= min_silence_frames` |
| `DialogueDetection.ThresholdEdge` | src/audio/error.py:123 | after speech, a gap of `m - 1` silence frames then speech adds no turn; a gap of exactly `m` adds one |
| `DialogueDetection.FirstSpeech` | src/audio/error.py:117-124 | from the start state, the first speech frame counts iff the leading silence (possibly empty) is at least `m` frames |
| `DialogueDetection.AllSpeech` | src/audio/error.py:117-126 | an all-speech mask gives 0 turns when `m >= 1` (1 when `m == 0` and the mask is not empty) |
| `DialogueDetection.AllSilence` | src/audio/error.py:117-132 | an all-silence mask gives 0 turns |
| `DialogueDetection.AudioStore.Remove` | src/audio/error.py:171 | removing an existing file takes exactly that path out of the store |
| `DialogueDetection.DialogueDetecting.constructor` | src/audio/error.py:43-59 | the gate keeps its policy flags and thresholds as given |
| `DialogueDetection.DialogueDetecting.Process` | src/audio/error.py:160-176 | returns exactly `turn_count >= min_turn_count`, whatever `skipIfNoDialogue` is; the file is removed iff there is no dialogue and `deleteOriginal` is set, and nothing else changes |
| `AnnotationSpec.Coerce` | src/text/utils.py:70-72 | always yields one of Positive, Negative, Neutral; keeps a value that already is one, and turns any other value into Neutral |
| `AnnotationSpec.ValidEntries` | src/text/utils.py:65-73 | the surviving entries are no more than the payload entries and all carry one of the three labels; a payload where no entry survives yields none |
| `AnnotationSpec.ValidSnoc` | src/text/utils.py:66-73 | one more payload entry adds its assignment at the end when it is an object with `sentiment`, and nothing otherwise |
| `AnnotationSpec.ValidEntriesAppend` | src/text/utils.py:65-73 | filtering keeps payload order: the survivors of `a + b` are the survivors of `a` followed by those of `b` |
| `AnnotationSpec.ValidEntriesMembers` | src/text/utils.py:66-73 | every object with a `sentiment` key yields its assignment (index, or -1 without one; coerced label), and every assignment comes from such an entry |
| `AnnotationSpec.MissingIndexCounts` | src/text/utils.py:69-77 | an entry without `index` yields `(-1, coerced label)` in its place among the survivors and adds one to the count that recovery compares with `n` |
| `AnnotationSpec.AnyInRange` | src/text/utils.py:76 | holds iff some surviving assignment names a record of the SSM |
| `AnnotationSpec.NothingInRange` | src/text/utils.py:76-83 | when no assignment names a record, writing by index leaves the SSM as it is |
| `AnnotationSpec.Reindexed` | src/text/utils.py:79 | same number of assignments, the k-th aimed at position k with its label kept |
| `AnnotationSpec.Recovers` | src/text/utils.py:77 | when recovery applies, every original index misses the SSM and every re-aimed index hits it |
| `AnnotationSpec.Targets` | src/text/utils.py:76-79 | the written assignments keep the survivors' labels in order; under recovery the k-th aims at position k, otherwise they are the survivors unchanged |
| `AnnotationSpec.Write` | src/text/utils.py:82-85 | an index in `[0, n)` replaces only that record's sentiment; every other record, and the whole SSM for an index outside, is unchanged |
| `AnnotationSpec.FillSentiment` | src/text/utils.py:87-88 | `setdefault("sentiment", "Neutral")`: every record has a sentiment, a record that had one is unchanged, one that lacked it gets Neutral and nothing else |
| `AnnotationSpec.WriteAll` | src/text/utils.py:81-85 | writing the entries keeps the SSM's length |
| `AnnotationSpec.MergeSentiment` | src/text/utils.py:48-88 | `add_sentiment` keeps the SSM's length and leaves every record with a sentiment |
| `AnnotationSpec.WriteAllAt` | src/text/utils.py:81-85 | at position `p` only the sentiment can change; it is the label of the last entry with index `p` (later duplicates overwrite earlier ones), and the record is untouched if no entry has index `p`; negative and `>= n` indices are skipped |
| `AnnotationSpec.MalformedSentiment` | src/text/utils.py:48-61 | a payload that is neither a list nor an object holding a `"sentiments"` list only defaults missing sentiments to Neutral |
| `AnnotationSpec.SentimentShape` | src/text/utils.py:63-88 | after `add_sentiment` the SSM length, speakers, texts and profane flags are unchanged, every record has a sentiment, and every sentiment is the record's old one or one of the three labels |
| `AnnotationSpec.LabelsOfTargets` | src/text/utils.py:76-79 | re-indexing keeps the coerced labels |
| `AnnotationSpec.WrittenLabels` | src/text/utils.py:81-83 | a written record differs only in its sentiment, which is its old one or a label of the entries |
| `AnnotationSpec.SentimentByIndex` | src/text/utils.py:75-88 | without positional recovery, position `p` gets the label of the last surviving entry with index `p`, or keeps its sentiment / defaults to Neutral |
| `AnnotationSpec.SentimentRecovery` | src/text/utils.py:75-79 | with no surviving index in `[0, n)` and at most `n` entries, the k-th entry's label lands at position k; later positions keep their sentiment or default to Neutral |
| `AnnotationSpec.KeyedAsBareList` | src/text/utils.py:48-51 | the `{"sentiments": [...]}` form and the bare list form merge identically |
| `AnnotationSpec.Fit` | src/text/utils.py:125-130 | the adjusted list has exactly `n` entries: the payload's first entries, then `{index: i, profane: false}` at every padded position `i` |
| `AnnotationSpec.Slot` | src/text/utils.py:135 | Python's `ssm[idx]`: an index in `[0, n)` is itself, and an index in `[-n, 0)` wraps once to `idx + n` in `[0, n)` |
| `AnnotationSpec.Accepted` | src/text/utils.py:133-135 | an entry that passes has an `index`, and if it addresses a record it has `profane` and names a real record |
| `AnnotationSpec.Raised` | src/text/utils.py:133-135 | for an entry that fails: KeyError exactly when `index` or `profane` is missing, otherwise IndexError carrying an index below `-n` |
| `AnnotationSpec.Hits` | src/text/utils.py:134-135 | an entry that passes and writes position `p` writes a real record |
| `AnnotationSpec.ProfanityStep` | src/text/utils.py:132-137 | one entry never changes the SSM's length |
| `AnnotationSpec.ApplyProfanity` | src/text/utils.py:132-137 | the merge loop never changes the SSM's length, whether it completes or raises |
| `AnnotationSpec.MergeProfanity` | src/text/utils.py:114-137 | `add_profanity` keeps the SSM's length; without the `"profanity"` key it never raises and every record ends with a flag |
| `AnnotationSpec.FillProfane` | src/text/utils.py:114-118 | `setdefault("profane", False)`: every record has a flag, existing flags are kept, missing ones become false and nothing else changes |
| `AnnotationSpec.FailureSticks` | src/text/utils.py:132-135 | once an entry raises, the entries after it change nothing |
| `AnnotationSpec.ProfanityRaisesIff` | src/text/utils.py:132-135 | the merge raises iff some entry lacks `index`, or addresses a record (`index < n`) while lacking `profane` or having `index < -n` |
| `AnnotationSpec.ProfanityRaisesAt` | src/text/utils.py:132-135 | the first such entry decides the exception (KeyError for the missing key, else IndexError), and the SSM keeps exactly the writes of the entries before it |
| `AnnotationSpec.ProfanityAt` | src/text/utils.py:132-137 | when no entry raises, only the flag of position `p` can change; it is the flag of the last entry whose index is `p`, or `p - n` for a negative index; indices `>= n` are skipped |
| `AnnotationSpec.SkippedEntries` | src/text/utils.py:132-137 | entries whose indices are all `>= n` are skipped: the loop writes nothing and raises nothing |
| `AnnotationSpec.ProfanityNoRecovery` | src/text/utils.py:120-137 | unlike sentiment, a payload of at least `n` entries whose indices are all `>= n` leaves the SSM as it is, so records lacking a flag still lack it |
| `AnnotationSpec.ProfanityKeepsOtherFields` | src/text/utils.py:132-137 | the profanity merge, completed or not, changes only profane flags |
| `AnnotationSpec.Finalized` | src/text/utils.py:217-219 | every record ends with a sentiment (default Neutral) and a flag (default false); existing values, speakers and texts are kept |
| `AnnotationSpec.FinalizedIdempotent` | src/text/utils.py:217-225 | finalising twice equals finalising once, and a complete SSM is left as it is |
| `AnnotationSpec.FinalizedLabels` | src/text/utils.py:63-88 | with records that arrive without a sentiment or with one of the three labels, every sentiment after a sentiment merge is one of the three labels, and after that merge and finalisation every record also has a profane flag |
| `AnnotationSpec.ProfanityKeepsLabels` | src/text/utils.py:114-137 | the profanity merge keeps every sentiment label valid |
| `AnnotationSpec.ByIndexSurvivors` | src/text/utils.py:66-73 | entries `{0, Positive}` and `{2, Negative}` both survive with their own indices |
| `AnnotationSpec.ByIndexRecords` | src/text/utils.py:81-88 | with those entries, records 0 and 2 of three get Positive and Negative and record 1 defaults to Neutral |
| `AnnotationSpec.SentimentByIndexExample` | src/text/utils.py:48-88 | three records without sentiments and `{"sentiments": [{0, Positive}, {2, Negative}]}` give [Positive, Neutral, Negative] |
| `AnnotationSpec.SentimentRecoveryExample` | src/text/utils.py:75-79 | two records with indices 57 and 58 give [Positive, Negative] |
| `AnnotationSpec.MissingIndexExample` | src/text/utils.py:69-79 | an entry without an index counts as -1: alone it is recovered by position; next to a second entry for one record it blocks recovery |
| `AnnotationSpec.ProfanityPaddingExample` | src/text/utils.py:125-137 | three records with `[{index: 0, profane: true}]` give [true, false, false] |
| `AnnotationSpec.NegativeIndexExample` | src/text/utils.py:125-137 | for two records, index -1 writes record 1, which the padding entry then overwrites, and record 0 stays unset; index -3 raises IndexError with nothing written |
| `TextUtils.CollectValidEntries` | src/text/utils.py:65-73 | the appending loop returns exactly `ValidEntries`: non-objects and entries without `sentiment` are dropped, the index defaults to -1, and non-labels become Neutral |
| `TextUtils.Annotator.constructor` | src/text/utils.py:25-36 | holds the caller's SSM unchanged; the summary is "" and the conflict flag is false |
| `TextUtils.Annotator.FillSentiments` | src/text/utils.py:87-88 | the array becomes `FillSentiment` of its old contents |
| `TextUtils.Annotator.FillProfanes` | src/text/utils.py:116-117 | the array becomes `FillProfane` of its old contents |
| `TextUtils.Annotator.WriteSentiments` | src/text/utils.py:81-85 | the array becomes `WriteAll` of its old contents |
| `TextUtils.Annotator.AddSentiment` | src/text/utils.py:38-88 | the array becomes `MergeSentiment` of its old contents and the payload |
| `TextUtils.Annotator.AddProfanity` | src/text/utils.py:90-139 | the caller's list is padded or truncated to `Fit(list, n)`; the array and the returned exception are exactly `MergeProfanity` of the old array and payload |
| `TextUtils.Annotator.FitToLength` | src/text/utils.py:125-130 | the payload's own list becomes `Fit(list, n)`: padded by appending `{index: i, profane: false}` or truncated |
| `TextUtils.Annotator.ApplyEntries` | src/text/utils.py:132-137 | the array and the returned exception are exactly `ApplyProfanity` of the old array and the entries |
| `TextUtils.Annotator.AddSummary` | src/text/utils.py:141-169 | the summary is overwritten only when the payload carries `summary`; the conflict flag and the SSM are unchanged |
| `TextUtils.Annotator.AddConflict` | src/text/utils.py:171-199 | the conflict flag is overwritten only when the payload carries `conflict`; the summary and the SSM are unchanged |
| `TextUtils.Annotator.Finalize` | src/text/utils.py:201-225 | the array becomes `Finalized` of its old contents, so every record is complete; the report is the SSM with the current summary and conflict flag |

## Left out

- Audio front end: `librosa.load`, the RMS energy and the `mean(rms) * 0.5` threshold
  (src/audio/error.py:106-113) are floating-point library code. The frame mask is an input of
  `DetectSpeechSegments` and `Process`.
- Frame-count arithmetic: `int(min_silence_duration / (hop_length / sr))`
  (src/audio/error.py:115) is float truncation. `minSilenceFrames` is a `nat` given to the gate.
- `get_audio_duration` (src/audio/error.py:85-90): a subprocess call to `ffprobe` with float
  parsing.
- The constructor's `os.makedirs` of the temporary directory, and the configuration values used
  only by it or by the front end: `chunk_duration`, `sample_rate`, `channels`, `temp_dir` and
  `min_silence_duration`.
- `DialogueDetection.DialogueDetecting.Process`: it requires the file to exist, since
  `librosa.load` raises for a missing or unreadable file before any counting. A failure of
  `os.remove` itself is not modelled.
- All logging and `print` diagnostics, and the `__main__` block.
- Dynamic typing of the payloads:
  - an `index` is an integer when present; a string, float or null index would raise or compare
    differently in Python;
  - a `sentiment` value is a string (a non-string compares unequal to the three labels, as an
    unknown string does);
  - `profane` is a boolean;
  - the `"profanity"` value is a list of objects. A non-object entry, or a non-list value, fails
    in ways that are not modelled.
- `AnnotationSpec.Utterance`: a key that is absent is `None`, and a present key holds a string
  (`sentiment`) or a boolean (`profane`). A record whose key is present with `null` or a value
  of another type is not modelled. Python's `setdefault` keeps such a value
  (src/text/utils.py:55, 60, 88, 117, 218-219), so `Complete` and `Finalized` mean "holds a
  value" in the model where the source only guarantees "key present".
- `TextUtils.Annotator.AddSummary`, `AddConflict`: the source stores whatever value the payload
  carries under `summary` or `conflict` (src/text/utils.py:168, 198). The model types it as a
  string and a boolean.
- `TextUtils.Annotator.FitToLength`: padding appends to the list object the payload holds
  (src/text/utils.py:127), while truncation rebinds the payload's key to a new list
  (src/text/utils.py:130). A caller holding the list object itself sees the padding but not the
  truncation. The single `ProfanityResults.profanity` field does not tell the two apart: it
  models the payload's view only.
- Utterance records carry only `speaker` and `text` besides the two annotated fields. Two
  records that are the same Python dict (aliasing inside the list) are not modelled.
- `TextUtils.Annotator.AddProfanity`, `AddSummary`, `AddConflict`: the source returns a dict (or
  the list) whose `"ssm"` entry is the annotator's own list. The model returns only the
  exception outcome or the scalar, and the SSM stays reachable through the `ssm` field.
- `TextUtils.Annotator.Finalize`: the report holds a copy of the SSM's contents, not a
  reference to the list.
- `src/db/manager.py` (a sqlite3 wrapper) and the Django layer (`api/models.py`,
  `api/serializers.py`, `api/views.py`, `api/urls.py`, `api/tasks.py`). They contain ORM
  mappings, REST wiring, a background-thread launcher and HTTP download, and no reconciliation
  or gating logic.
