# anki-sample in Dafny

`anki-sample.py` is a command-line flashcard quiz. It opens an Anki deck
package, which is a ZIP archive. It extracts the `collection.anki2` SQLite
database from the package into a temporary directory named after the MD5
digest of the deck's path. It then reads every row of the `notes` table into a
`Note` record and skips the rows that do not have eleven columns. Finally it
draws up to the requested number of notes at random and, for each one, shows
the question, waits for the user to press ENTER, and shows the answer.

This project models that core and proves what it does:

- `Text` (`text.dfy`): Python's `str.split` with a one-character separator and
  `str.strip` with Python's whitespace set. The lemmas prove that splitting
  and joining are inverses, and that `Strip` is the unique cut of its input
  with no whitespace at either end.
- `Notes` (`notes.dfy`): the `Note` record, `answer`, `question`, `from_row`,
  and `load_questions` with the warnings it logs. `Answer` fails in the same
  cases as the Python method: `flds` is not text, or `flds` does not contain
  exactly one unit separator (U+001F).
- `Sampler` (`sampler.dfy`): the sample size `min(requested, len(notes))` and
  `random.sample`. The random draw is an input permutation, and the proof
  shows the sample is a sub-multiset of the deck.
- `Presenter` (`presenter.dfy`): the question/reveal/answer loop, as a method
  with a loop that records console events. It is proved equal to a
  specification function.
- `Archive` (`archive.dfy`): the temporary-directory naming and the extraction
  of `collection.anki2`. The temporary directory is a `TempFiles` object whose
  file map the extraction updates.
- `AnkiSample` (`anki_sample.dfy`): the whole of `sample_deck_for_n_notes`,
  composed from the modules above.

Python values stored in a SQLite row are modelled by the datatype `Notes.Value`.
`from_row` does no type checking, so a `Note` holds `Value`s. As a result,
`answer` on a note whose `flds` is not a string fails at the time it is
called, and so does the run.

Behaviour of the program a reader might not expect, which the model keeps:

- `answer` returns the text after the separator only when there is exactly
  one separator. With two or more, the tuple unpacking raises, so the model
  returns `UnpackMismatch`. It does not return the text after the first
  separator.
- A failing `answer` is not handled gracefully. The exception leaves the
  sampling loop and ends the run after the events already shown. The model
  ends with `Stopped`/`AnswerFailed`.
- Field types are never checked. `from_row` returns no note only when the
  column count is wrong.
- The deck is extracted again on every run, overwriting the earlier copy.
  `Archive.ExtractIdempotent` shows that re-extracting leaves the files
  unchanged.
- A negative request raises in `random.sample`, even for an empty deck.

## Model

| member | source | states |
|---|---|---|
| Text.Split | anki-sample.py:29 | splitting on `d` gives exactly one more part than `s` has occurrences of `d` |
| Text.SplitPartsFree | anki-sample.py:29 | no part produced by the split contains the separator |
| Text.JoinSplit | anki-sample.py:29 | joining the parts of a split with the separator gives back the original text |
| Text.SplitJoin | anki-sample.py:29 | splitting the join of a non-empty list of separator-free parts gives back exactly those parts |
| Text.Strip | anki-sample.py:30 | the stripped text is no longer than its input and neither starts nor ends with whitespace |
| Text.StripSpec | anki-sample.py:30 | `strip` returns a contiguous piece of its input, with only whitespace removed before and after it, that neither starts nor ends with whitespace |
| Text.StripUnique | anki-sample.py:30 | any such whitespace-free cut of the input is the result of `strip`, so the property above defines `strip` |
| Text.StripIdempotent | anki-sample.py:30 | stripping an already stripped text changes nothing |
| Text.StripKeepsAbsent | anki-sample.py:30 | stripping never introduces a character that was not in the input |
| Notes.Answer | anki-sample.py:28-30 | `answer` succeeds iff `flds` is text containing exactly one unit separator; non-text `flds` gives `FieldsNotText`; text with any other number of separators gives `UnpackMismatch` with the number of parts the unpacking got |
| Notes.AnswerSpec | anki-sample.py:28-30 | on success the answer is the stripped text after the only separator of `flds` |
| Notes.AnswerShape | anki-sample.py:28-30 | a successful answer has no whitespace at either end and contains no unit separator |
| Notes.AnswerOfJoinedFields | anki-sample.py:29-30 | for `flds` built from a question and an answer without separators, `answer` returns the stripped answer part |
| Notes.AnswerNeedsExactlyOneSeparator | anki-sample.py:29 | for `flds` built from any number of parts other than two, `answer` fails with `UnpackMismatch` carrying that number |
| Notes.AnswerExampleTrimmed | anki-sample.py:28-30 | the concrete fields `"Q\x1f  A  "` answer `"A"` |
| Notes.AnswerExampleTwoSeparators | anki-sample.py:29 | the concrete fields `"Q\x1fA\x1fB"` fail with three parts |
| Notes.Question | anki-sample.py:32-33 | the question is the note's eighth row column (`sfld`), unconverted |
| Notes.QuestionOfRow | anki-sample.py:32-33 | the question of the note built from a row is that row's eighth column (`sfld`), unconverted |
| Notes.FromRow | anki-sample.py:35-40 | `from_row` yields a note iff the row has exactly eleven columns, and that note's fields are the row's columns in order |
| Notes.FromRowLog | anki-sample.py:35-40 | `from_row` logs one parse warning iff the row does not have eleven columns, and nothing otherwise |
| Notes.FromRowToRow | anki-sample.py:11-37 | turning a note into a row and back gives the same note |
| Notes.KeepTruthy | anki-sample.py:60 | filtering keeps at most as many notes as there were results, and each kept note was one of the parsed results |
| Notes.LoadQuestions | anki-sample.py:58-60 | `load_questions` returns no more notes than rows, and every note is built from one of the rows |
| Notes.LoadLog | anki-sample.py:39-60 | loading logs exactly one parse warning per row that is not eleven columns wide, and nothing else |
| Notes.LoadQuestionsKeepsWellFormedRows | anki-sample.py:58-60 | the loaded notes are exactly the eleven-column rows, in their original order, each turned into the note with those fields |
| Notes.LoadQuestionsAppend | anki-sample.py:58-60 | loading two batches of rows loads the concatenation of their notes |
| Notes.LoadQuestionsOfNotes | anki-sample.py:58-60 | loading the rows of a list of notes gives back that list, so no well-formed row is dropped by the truthiness filter |
| Notes.LoadPartition | anki-sample.py:35-60 | notes and warnings together number the rows; the warnings number exactly the rows that are not eleven columns wide, so no row yields both; the log holds nothing else |
| Sampler.SampleSize | anki-sample.py:83-85 | the sample size is defined iff the request is non-negative; it is then at most the request and at most the deck size, and equals one of them |
| Sampler.PermuteMultiset | anki-sample.py:85 | reordering the deck by a permutation keeps the same multiset of notes |
| Sampler.Sample | anki-sample.py:85 | the sample has the requested size, draws each deck entry at most as often as it occurs in the deck, and is the whole deck when the size equals the deck size |
| Presenter.FirstUndefined | anki-sample.py:85-86 | gives the index of the first note whose answer fails, or the sample length; every note before it has an answer |
| Presenter.Transcript | anki-sample.py:85-94 | the first `n` notes produce three console events each |
| Presenter.TranscriptAt | anki-sample.py:85-94 | note `i` produces its question, then the reveal prompt, then its answer, at positions `3i` to `3i+2` |
| Presenter.Presentation | anki-sample.py:85-94 | the run completes iff every answer is defined; otherwise it stops at a note whose answer failed, with that error, after every earlier note had an answer; it shows three events per note before the stop |
| Presenter.Present | anki-sample.py:85-94 | the loop's events and outcome are exactly the presentation of the sample: it completes after all notes, or stops at the first failing answer with its error |
| Presenter.CompletesIffAllAnswered | anki-sample.py:85-94 | the presentation completes iff every sampled note has an answer, and then shows `3 * len(sample)` events |
| Presenter.StopsBeforeQuestion | anki-sample.py:86-89 | when the note at `j` fails, nothing of it is shown (not even its question): the run stops after `3j` events with that error |
| Archive.ExtractionDirKeyedByDigest | anki-sample.py:48-50 | two deck paths share an extraction directory iff their digests are equal |
| Archive.ExtractionDir | anki-sample.py:48-50 | the extraction directory is a direct child of the temp directory named `anki-sample-` followed by the deck path's digest |
| Archive.CollectionPath | anki-sample.py:50-55 | the database path is `collection.anki2` directly inside the extraction directory |
| Archive.CollectionPathUnderTempDir | anki-sample.py:48-55 | the database path is the temp dir, then the directory named `anki-sample-` followed by the deck path's digest, then `collection.anki2` |
| Archive.AfterExtract | anki-sample.py:52-53 | a successful extraction puts the member's bytes at the database path; a failed one changes nothing; no other path is added, removed or changed |
| Archive.ExtractIdempotent | anki-sample.py:52-53 | extracting the same deck again leaves the files unchanged |
| Archive.ExtractKeepsOtherDecks | anki-sample.py:48-53 | extracting one deck leaves every file outside its extraction directory unchanged, in particular the database of any deck path with a different digest |
| Archive.TempFiles.LoadDbFromDeck | anki-sample.py:43-55 | a missing deck or a non-ZIP deck fails with nothing written; a ZIP without the member fails with `MemberNotFound`; otherwise the member's bytes are written at the collection path, the result is that path, and no other file changes |
| AnkiSample.SampleDeckForNNotes | anki-sample.py:69-94 | an archive failure ends the run with no output and reports which error it was (missing deck, not a ZIP, or missing `collection.anki2`); otherwise the log is the parse warnings followed by the loaded count; a negative request fails with no events; otherwise the events and failure are the presentation of the first `min(request, len(notes))` notes of the drawn order |
| AnkiSample.WholeDeckShownOnce | anki-sample.py:83-94 | when the request covers the deck and every answer succeeds, the sample size is the deck size, the sample holds the same multiset of notes as the deck, and the run completes after showing three events per note |
| AnkiSample.EmptyDeckShowsNothing | anki-sample.py:58-85 | a deck with no well-formed rows shows nothing and does not fail for any non-negative request |

## Left out

- Reading the ZIP archive and querying SQLite are not modelled. The archive is
  given as a value (`NoSuchFile`, `NotAZip` or a member map), and the rows of
  `select * from notes` are a separate input. The model does not connect the
  database bytes to those rows. SQLite connection and query errors are not
  modelled.
- Other operating-system errors are not modelled: opening the deck can raise
  further `OSError`s (a directory path gives `IsADirectoryError`, an
  unreadable file `PermissionError`), and writing the extracted member can
  fail (no write permission, a full disk). The model's archive is only
  missing, not a ZIP, or a ZIP, and writing always succeeds.
- MD5 is the parameter `digest`. The model does not check that it is a hex MD5,
  and it does not model how `str(Path)` normalises the deck path.
- `random.sample` is modelled by a permutation of the deck indices supplied by
  the caller. The sample is the first `k` notes in that order. The
  distribution of the draw is not modelled.
- Rendering is not modelled: `markdownify`, Rich `Markdown`, `Padding`, and the
  Rich markup in the question line. `ShowQuestion` carries the question value
  and `ShowAnswer` carries the answer text before conversion.
- Printing never fails in the model. In the program, a question whose text
  holds Rich markup that does not parse (a stray closing tag such as `[/]`)
  makes `console.print` at line 88 raise a markup error before anything is
  printed, and the run ends there. So `Presenter.CompletesIffAllAnswered`
  and `AnkiSample.WholeDeckShownOnce` hold for the model's presentation, not
  for such questions.
- The `input` prompt is an `AwaitReveal` event. End of input and keyboard
  interrupts at the prompt are not modelled.
- `main`, argument parsing and the logging handler setup are not modelled.
  Log records are constructors, not message texts. The logger's level filter
  is not modelled. The program leaves the root logger at level WARNING, so
  the "loaded N notes" info call at line 81 is dropped by the level check
  and creates no record; the model still lists `LoadedNotes` as what the
  program asks to log.
- `Notes.Value.Float` is a `real`. No arithmetic is done on stored values, so
  IEEE rounding is never observable.
- Whitespace for `strip` is the fixed list of characters that Python's
  `str.isspace` accepts, written out in `Text.IsSpace`.
