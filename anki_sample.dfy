/** `sample_deck_for_n_notes`: extract and open the deck, load its notes, log
    how many were loaded, draw `min(request_n_samples, len(notes))` of them and
    present each one. The query result of the opened database and the random
    draw are inputs. */
module AnkiSample {
  import opened Wrappers
  import opened Notes
  import opened Sampler
  import opened Presenter
  import opened Archive

  /** The exceptions that end a run early. */
  datatype RunError =
    | ArchiveFailed(archiveError: ArchiveError)
    | SampleFailed(sampleError: SampleError)
    | AnswerFailed(at: nat, answerError: AnswerError)

  /** One run. `rows` is what `select * from notes` returns for the extracted
      database, and `perm` the order in which `random.sample` would draw the
      loaded notes. */
  method SampleDeckForNNotes(temp: TempFiles, tempDir: Path, digest: string -> string,
                             deckPath: string, archive: Archive, rows: seq<Row>,
                             requested: int, perm: seq<nat>)
    returns (log: seq<LogRecord>, events: seq<Event>, failure: Option<RunError>)
    requires IsPermutation(perm, |LoadQuestions(rows)|)
    modifies temp
    ensures temp.files == AfterExtract(old(temp.files), tempDir, deckPath, digest, archive)
    ensures !(archive.Zip? && CollectionMember in archive.members) ==>
              && log == [] && events == []
              && failure == Some(ArchiveFailed(
                   if archive.NoSuchFile? then ArchiveNotFound
                   else if archive.NotAZip? then BadArchive
                   else MemberNotFound(CollectionMember)))
    ensures archive.Zip? && CollectionMember in archive.members ==>
              var notes := LoadQuestions(rows);
              && log == LoadLog(rows) + [LoadedNotes(|notes|)]
              && (requested < 0 ==> events == [] && failure == Some(SampleFailed(NegativeSampleSize)))
              && (requested >= 0 ==>
                    var k := if requested <= |notes| then requested else |notes|;
                    var run := Presentation(ViewsOf(Sample(notes, perm, k)));
                    && events == run.events
                    && (run.outcome.Completed? ==> failure == None)
                    && (run.outcome.Stopped? ==>
                          failure == Some(AnswerFailed(run.outcome.at, run.outcome.error))))
  {
    var db := temp.LoadDbFromDeck(tempDir, deckPath, digest, archive);
    if db.Failure? {
      return [], [], Some(ArchiveFailed(db.error));
    }
    var notes := LoadQuestions(rows);
    log := LoadLog(rows) + [LoadedNotes(|notes|)];
    var size := SampleSize(requested, |notes|);
    if size.Failure? {
      return log, [], Some(SampleFailed(size.error));
    }
    var sample := Sample(notes, perm, size.value);
    var outcome;
    events, outcome := Present(sample);
    failure := if outcome.Completed? then None else Some(AnswerFailed(outcome.at, outcome.error));
  }

  /** When at least the whole deck is requested and every note has an
      answer, the sample is a reordering of the deck and every note is shown
      exactly once, question, prompt and answer. */
  lemma WholeDeckShownOnce(notes: seq<Note>, perm: seq<nat>, requested: int)
    requires IsPermutation(perm, |notes|) && requested >= |notes|
    requires forall i :: 0 <= i < |notes| ==> Answer(notes[i]).Success?
    ensures SampleSize(requested, |notes|) == Success(|notes|)
    ensures multiset(Sample(notes, perm, |notes|)) == multiset(notes)
    ensures Presentation(ViewsOf(Sample(notes, perm, |notes|))).outcome == Completed
    ensures |Presentation(ViewsOf(Sample(notes, perm, |notes|))).events| == 3 * |notes|
  {
    var sample := Sample(notes, perm, |notes|);
    forall i | 0 <= i < |sample|
      ensures Answer(sample[i]).Success?
    {
      assert sample[i] in multiset(notes);
    }
    CompletesIffAllAnswered(sample);
  }

  /** An empty table loads no note and, for any request that is not
      negative, presents nothing and ends without error. */
  lemma EmptyDeckShowsNothing(rows: seq<Row>, perm: seq<nat>, requested: int)
    requires WellFormedRows(rows) == [] && requested >= 0
    requires IsPermutation(perm, 0)
    ensures LoadQuestions(rows) == []
    ensures SampleSize(requested, 0) == Success(0)
    ensures Presentation(ViewsOf(Sample([], perm, 0))) == Run([], Completed)
  {
    LoadQuestionsKeepsWellFormedRows(rows);
  }
}
