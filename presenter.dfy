/** The presentation loop of `sample_deck_for_n_notes`: for each sampled note,
    compute its question and its answer, print the question, wait for ENTER,
    print the rendered answer. What reaches the console is modelled as a
    trace of events. */
module Presenter {
  import opened Wrappers
  import opened Notes

  /** One console interaction. */
  datatype Event =
    | ShowQuestion(question: Value)  // the bold "Question: ..." line
    | AwaitReveal                    // the blocking "reveal? [ENTER]" prompt
    | ShowAnswer(answer: string)     // the padded Markdown rendering of this answer text

  /** The two views of a note that the loop computes, question first, before
      it prints anything for that note. */
  datatype Views = Views(question: Value, answer: Result<string, AnswerError>)

  function ViewsOf(sample: seq<Note>): (views: seq<Views>)
    ensures |views| == |sample|
  {
    seq(|sample|, i requires 0 <= i < |sample| => Views(Question(sample[i]), Answer(sample[i])))
  }

  /** How the loop ends: every note shown, or the `answer()` of the note at
      position `at` raised `error` and ended the run. */
  datatype Outcome = Completed | Stopped(at: nat, error: AnswerError)

  datatype Run = Run(events: seq<Event>, outcome: Outcome)

  /** Position of the first note whose answer is undefined, or the length of
      the sample when there is none. */
  function FirstUndefined(views: seq<Views>): (j: nat)
    ensures j <= |views|
    ensures forall i :: 0 <= i < j ==> views[i].answer.Success?
    ensures j < |views| ==> views[j].answer.Failure?
  {
    if views == [] || views[0].answer.Failure? then 0
    else 1 + FirstUndefined(views[1..])
  }

  /** The three events of one fully shown note. */
  function Reveal(v: Views): seq<Event>
    requires v.answer.Success?
  {
    [ShowQuestion(v.question), AwaitReveal, ShowAnswer(v.answer.value)]
  }

  /** The console trace of showing the first `n` sampled notes in full, in
      sampling order. */
  function Transcript(views: seq<Views>, n: nat): (events: seq<Event>)
    requires n <= FirstUndefined(views)
    ensures |events| == 3 * n
  {
    if n == 0 then [] else Transcript(views, n - 1) + Reveal(views[n - 1])
  }

  /** Reference behaviour of the loop: the notes before the first undefined
      answer are shown in full, and the run ends there. It completes exactly
      when every answer is defined; otherwise it stops at a note whose answer
      failed, with that note's error, after every earlier note was shown. */
  function Presentation(views: seq<Views>): (r: Run)
    ensures r.outcome.Completed? <==> forall i :: 0 <= i < |views| ==> views[i].answer.Success?
    ensures r.outcome.Stopped? ==>
              && r.outcome.at < |views|
              && views[r.outcome.at].answer == Failure(r.outcome.error)
              && forall i :: 0 <= i < r.outcome.at ==> views[i].answer.Success?
    ensures |r.events| == 3 * (if r.outcome.Completed? then |views| else r.outcome.at)
  {
    var j := FirstUndefined(views);
    Run(Transcript(views, j),
        if j == |views| then Completed else Stopped(j, views[j].answer.error))
  }

  /** The `for note in ...` loop. Both views of the note are computed before
      anything is printed, so a note whose answer raises ends the run before
      its question appears. */
  method Present(sample: seq<Note>) returns (events: seq<Event>, outcome: Outcome)
    ensures Run(events, outcome) == Presentation(ViewsOf(sample))
  {
    ghost var views := ViewsOf(sample);
    events := [];
    for i := 0 to |sample|
      invariant i <= FirstUndefined(views)
      invariant events == Transcript(views, i)
    {
      var note := sample[i];
      var question, answer := Question(note), Answer(note);
      assert views[i] == Views(question, answer);
      if answer.Failure? {
        outcome := Stopped(i, answer.error);
        return;
      }
      events := events + Reveal(Views(question, answer));
    }
    outcome := Completed;
  }

  lemma SliceOfAppend<T>(a: seq<T>, b: seq<T>, lo: nat, hi: nat)
    requires lo <= hi <= |a| + |b|
    ensures hi <= |a| ==> (a + b)[lo..hi] == a[lo..hi]
    ensures lo == |a| && hi == |a| + |b| ==> (a + b)[lo..hi] == b
  {
  }

  /** Note `i` of a transcript occupies events `3i .. 3i+2`: its question, the
      prompt, its answer. */
  lemma {:induction false} TranscriptAt(views: seq<Views>, n: nat, i: nat)
    requires n <= FirstUndefined(views) && i < n
    ensures Transcript(views, n)[3 * i .. 3 * i + 3] == Reveal(views[i])
  {
    var front, last := Transcript(views, n - 1), Reveal(views[n - 1]);
    assert Transcript(views, n) == front + last;
    if i < n - 1 {
      TranscriptAt(views, n - 1, i);
    }
    SliceOfAppend(front, last, 3 * i, 3 * i + 3);
  }

  /** The run completes exactly when every sampled note has an answer, and
      then all of them are shown. */
  lemma CompletesIffAllAnswered(sample: seq<Note>)
    ensures Presentation(ViewsOf(sample)).outcome == Completed <==>
              forall i :: 0 <= i < |sample| ==> Answer(sample[i]).Success?
    ensures Presentation(ViewsOf(sample)).outcome == Completed ==>
              |Presentation(ViewsOf(sample)).events| == 3 * |sample|
  {
    var views := ViewsOf(sample);
    assert forall i :: 0 <= i < |sample| ==> views[i].answer == Answer(sample[i]);
  }

  /** A run that stops at note `j` has shown exactly the notes before `j`,
      each with its question, then the prompt, then its answer, and nothing
      of note `j`: its answer is undefined, and not even its question was
      printed. */
  lemma StopsBeforeQuestion(sample: seq<Note>, j: nat, e: AnswerError)
    requires Presentation(ViewsOf(sample)).outcome == Stopped(j, e)
    ensures j < |sample| && Answer(sample[j]) == Failure(e)
    ensures forall i :: 0 <= i < j ==> Answer(sample[i]).Success?
    ensures |Presentation(ViewsOf(sample)).events| == 3 * j
    ensures forall i :: 0 <= i < j ==>
              Presentation(ViewsOf(sample)).events[3 * i .. 3 * i + 3]
                == [ShowQuestion(Question(sample[i])), AwaitReveal, ShowAnswer(Answer(sample[i]).value)]
  {
    var views := ViewsOf(sample);
    assert views[j].answer == Answer(sample[j]);
    forall i | 0 <= i < j
      ensures Answer(sample[i]).Success?
      ensures Presentation(views).events[3 * i .. 3 * i + 3]
                == [ShowQuestion(Question(sample[i])), AwaitReveal, ShowAnswer(Answer(sample[i]).value)]
    {
      assert views[i] == Views(Question(sample[i]), Answer(sample[i]));
      TranscriptAt(views, j, i);
    }
  }
}
