/** The `Note` record of anki-sample.py: one row of the deck's `notes` table,
    its two derived views (`question`, `answer`), its construction from a raw
    row (`from_row`) and the loading of a whole table (`load_questions`). */
module Notes {
  import opened Wrappers
  import opened Text

  /** A column value as Python's sqlite3 module hands it out. */
  datatype Value = Null | Int(i: int) | Float(f: real) | Str(s: string) | Bytes(b: seq<bv8>)

  /** One raw result row of `select * from notes`. */
  type Row = seq<Value>

  /** The dataclass declares eleven fields and no defaults. Their annotations
      are not checked, so each field holds whatever column value it was given. */
  datatype Note = Note(
    id: Value, guid: Value, mid: Value, mod: Value, usn: Value,
    tags: Value, flds: Value,
    sfld: Value, csum: Value, flags: Value,
    data: Value)

  const Arity: nat := 11

  /** The ASCII unit separator that divides the sub-fields of `flds`. */
  const UnitSeparator: char := '\U{1F}'

  /** What `answer()` raises: `flds` is not a `str` (no `split` taking a
      `str` argument), or the split does not give the two values the
      tuple unpacking expects. */
  datatype AnswerError = FieldsNotText | UnpackMismatch(got: nat)

  /** A log record written by the loading code. */
  datatype LogRecord =
    | ParseWarning         // "couldn't parse sql row."
    | LoadedNotes(n: nat)  // "loaded {n} notes."

  /** The row `Note(*row)` is built from: the fields in declaration order. */
  function ToRow(note: Note): (row: Row)
    ensures |row| == Arity
  {
    [note.id, note.guid, note.mid, note.mod, note.usn,
     note.tags, note.flds,
     note.sfld, note.csum, note.flags,
     note.data]
  }

  /** `Note.question()`: the sort field, as stored, which is the eighth column
      of the note's row. */
  function Question(note: Note): (q: Value)
    ensures q == ToRow(note)[7]
  {
    note.sfld
  }

  /** `k` is the position of the one and only separator in `s`. */
  ghost predicate OnlySeparatorAt(s: string, k: int)
  {
    0 <= k < |s| && s[k] == UnitSeparator && UnitSeparator !in s[..k] && UnitSeparator !in s[k + 1..]
  }

  /** `Note.answer()`: split `flds` on the unit separator, unpack the parts
      into two names, and return the second one stripped. It is defined
      exactly when `flds` is text with one separator; otherwise the error
      says whether `flds` was not text or how many parts the unpacking got. */
  function Answer(note: Note): (r: Result<string, AnswerError>)
    ensures r.Success? <==> note.flds.Str? && Count(note.flds.s, UnitSeparator) == 1
    ensures !note.flds.Str? ==> r == Failure(FieldsNotText)
    ensures note.flds.Str? && Count(note.flds.s, UnitSeparator) != 1 ==>
              r == Failure(UnpackMismatch(Count(note.flds.s, UnitSeparator) + 1))
  {
    match note.flds
    case Str(s) =>
      var parts := Split(s, UnitSeparator);
      if |parts| == 2 then Success(Strip(parts[1])) else Failure(UnpackMismatch(|parts|))
    case _ => Failure(FieldsNotText)
  }

  /** A defined `answer()` is the text after the one separator of `flds`,
      stripped. */
  lemma AnswerSpec(note: Note)
    ensures Answer(note).Success? ==>
              exists k :: OnlySeparatorAt(note.flds.s, k) && Answer(note).value == Strip(note.flds.s[k + 1..])
  {
    if note.flds.Str? {
      var s := note.flds.s;
      var parts := Split(s, UnitSeparator);
      if |parts| == 2 {
        JoinSplit(s, UnitSeparator);
        SplitPartsFree(s, UnitSeparator);
        var k := |parts[0]|;
        assert s == parts[0] + [UnitSeparator] + parts[1];
        assert s[..k] == parts[0] && s[k + 1..] == parts[1];
        assert OnlySeparatorAt(s, k);
      }
    }
  }

  /** `Note.from_row(row)`: `Note(*row)` succeeds exactly when the row has
      eleven columns, whatever their types; otherwise the `TypeError` is
      caught and the result is `None`. */
  function FromRow(row: Row): (r: Option<Note>)
    ensures r.Some? <==> |row| == Arity
    ensures r.Some? ==> ToRow(r.value) == row
  {
    if |row| == Arity then
      Some(Note(row[0], row[1], row[2], row[3], row[4], row[5], row[6], row[7], row[8], row[9], row[10]))
    else
      None
  }

  /** What `from_row` logs for one row: one warning exactly when the row
      does not have eleven columns, and nothing otherwise. */
  function FromRowLog(row: Row): (log: seq<LogRecord>)
    ensures log == [] <==> |row| == Arity
    ensures log == [] || log == [ParseWarning]
  {
    if FromRow(row).None? then [ParseWarning] else []
  }

  /** `filter(bool, ...)`: a `Note` is always truthy (the dataclass defines
      neither `__bool__` nor `__len__`) and `None` never is. */
  function KeepTruthy(parsed: seq<Option<Note>>): (notes: seq<Note>)
    ensures |notes| <= |parsed|
    ensures forall n :: n in notes ==> Some(n) in parsed
  {
    if parsed == [] then []
    else (if parsed[0].Some? then [parsed[0].value] else []) + KeepTruthy(parsed[1..])
  }

  /** `load_questions`: `from_row` mapped over the rows, the `None`s dropped.
      There are never more notes than rows, and each note is built from one
      of the rows. */
  function LoadQuestions(rows: seq<Row>): (notes: seq<Note>)
    ensures |notes| <= |rows|
    ensures forall n :: n in notes ==> ToRow(n) in rows
  {
    var parsed := seq(|rows|, i requires 0 <= i < |rows| => FromRow(rows[i]));
    assert forall n :: Some(n) in parsed ==> ToRow(n) in rows by {
      forall n | Some(n) in parsed
        ensures ToRow(n) in rows
      {
        var i :| 0 <= i < |parsed| && parsed[i] == Some(n);
        assert ToRow(n) == rows[i];
      }
    }
    KeepTruthy(parsed)
  }

  /** The warnings `load_questions` logs, in row order: one parse warning per
      row that is not eleven columns wide, and nothing else. */
  function LoadLog(rows: seq<Row>): (log: seq<LogRecord>)
    ensures |log| == |rows| - |WellFormedRows(rows)|
    ensures forall i :: 0 <= i < |log| ==> log[i] == ParseWarning
  {
    if rows == [] then [] else FromRowLog(rows[0]) + LoadLog(rows[1..])
  }

  /** Reference definition: the rows of the right arity, in their order. */
  function WellFormedRows(rows: seq<Row>): (r: seq<Row>)
    ensures |r| <= |rows|
  {
    if rows == [] then []
    else (if |rows[0]| == Arity then [rows[0]] else []) + WellFormedRows(rows[1..])
  }

  function ToRows(notes: seq<Note>): (rows: seq<Row>)
    ensures |rows| == |notes|
  {
    if notes == [] then [] else [ToRow(notes[0])] + ToRows(notes[1..])
  }

  // Properties of the record and its views

  /** Building a note from the row of a note gives that note back. */
  lemma FromRowToRow(note: Note)
    ensures FromRow(ToRow(note)) == Some(note)
  {
  }

  /** The question of a parsed row is its eighth column (`sfld`), unchanged. */
  lemma QuestionOfRow(row: Row)
    requires |row| == Arity
    ensures FromRow(row).Some? && Question(FromRow(row).value) == row[7]
  {
  }

  /** A defined answer has no whitespace at either end and contains no
      separator. */
  lemma AnswerShape(note: Note)
    requires Answer(note).Success?
    ensures NoOuterSpace(Answer(note).value)
    ensures UnitSeparator !in Answer(note).value
  {
    AnswerSpec(note);
    var s, a := note.flds.s, Answer(note).value;
    var k :| OnlySeparatorAt(s, k) && a == Strip(s[k + 1..]);
    StripKeepsAbsent(s[k + 1..], UnitSeparator);
    StripSpec(s[k + 1..]);
  }

  /** Round trip with the way Anki stores two sub-fields: for a question
      part and an answer part without separators, `answer()` of the joined
      blob is the answer part stripped. */
  lemma AnswerOfJoinedFields(note: Note, q: string, a: string)
    requires UnitSeparator !in q && UnitSeparator !in a
    requires note.flds == Str(Join([q, a], UnitSeparator))
    ensures Answer(note) == Success(Strip(a))
  {
    SplitJoin([q, a], UnitSeparator);
  }

  /** A blob without a separator, or with more than one, has no answer: the
      unpacking sees one part, or three and more. */
  lemma AnswerNeedsExactlyOneSeparator(note: Note, parts: seq<string>)
    requires |parts| != 2 && |parts| >= 1
    requires forall i :: 0 <= i < |parts| ==> UnitSeparator !in parts[i]
    requires note.flds == Str(Join(parts, UnitSeparator))
    ensures Answer(note) == Failure(UnpackMismatch(|parts|))
  {
    SplitJoin(parts, UnitSeparator);
  }

  // Properties of loading a table

  /** One step of `load_questions`: the first row's note, if it parses,
      followed by the notes of the remaining rows. */
  lemma {:induction false} LoadQuestionsCons(rows: seq<Row>)
    requires rows != []
    ensures LoadQuestions(rows) ==
              (if |rows[0]| == Arity then [FromRow(rows[0]).value] else []) + LoadQuestions(rows[1..])
  {
    var parsed := seq(|rows|, i requires 0 <= i < |rows| => FromRow(rows[i]));
    var rest := rows[1..];
    assert parsed[1..] == seq(|rest|, i requires 0 <= i < |rest| => FromRow(rest[i]));
  }

  /** `load_questions` keeps exactly the eleven-column rows, in their order,
      each turned into the note with those fields. */
  lemma {:induction false} LoadQuestionsKeepsWellFormedRows(rows: seq<Row>)
    ensures ToRows(LoadQuestions(rows)) == WellFormedRows(rows)
    ensures |LoadQuestions(rows)| == |WellFormedRows(rows)|
  {
    if rows != [] {
      LoadQuestionsCons(rows);
      LoadQuestionsKeepsWellFormedRows(rows[1..]);
      var rest := LoadQuestions(rows[1..]);
      if |rows[0]| == Arity {
        var n := FromRow(rows[0]).value;
        assert ([n] + rest)[1..] == rest;
      } else {
        assert [] + rest == rest;
      }
    }
  }

  /** Loading is compositional: the notes of two row batches are the notes
      of the first followed by those of the second, so the order of the rows
      is kept. */
  lemma {:induction false} LoadQuestionsAppend(a: seq<Row>, b: seq<Row>)
    ensures LoadQuestions(a + b) == LoadQuestions(a) + LoadQuestions(b)
  {
    if a == [] {
      assert a + b == b;
    } else {
      LoadQuestionsCons(a);
      LoadQuestionsCons(a + b);
      assert (a + b)[0] == a[0] && (a + b)[1..] == a[1..] + b;
      LoadQuestionsAppend(a[1..], b);
    }
  }

  /** Loading the rows of a list of notes gives that list back. */
  lemma {:induction false} LoadQuestionsOfNotes(notes: seq<Note>)
    ensures LoadQuestions(ToRows(notes)) == notes
  {
    if notes != [] {
      var rows := ToRows(notes);
      LoadQuestionsCons(rows);
      assert rows[1..] == ToRows(notes[1..]);
      LoadQuestionsOfNotes(notes[1..]);
      FromRowToRow(notes[0]);
      assert [notes[0]] + notes[1..] == notes;
    }
  }

  /** Every row either yields a note or a warning, never both, never
      neither; the log holds nothing else. */
  lemma {:induction false} LoadPartition(rows: seq<Row>)
    ensures |LoadQuestions(rows)| + |LoadLog(rows)| == |rows|
    ensures |LoadLog(rows)| == |rows| - |WellFormedRows(rows)|
    ensures forall i :: 0 <= i < |LoadLog(rows)| ==> LoadLog(rows)[i] == ParseWarning
  {
    if rows != [] {
      LoadQuestionsCons(rows);
      LoadPartition(rows[1..]);
    }
  }

  lemma StripPaddedA()
    ensures Strip("  A  ") == "A"
  {
    var a := "  A  ";
    assert IsSpace(' ') && !IsSpace('A');
    forall k | 0 <= k < 2 || 3 <= k < 5
      ensures IsSpace(a[k])
    {
      assert a[k] == ' ';
    }
    assert a[2..3] == "A";
    assert CutAt(a, "A", 2);
    StripUnique(a, "A", 2);
  }

  /** Worked example: `"Q\x1f  A  "` answers `"A"`, trimmed. */
  lemma AnswerExampleTrimmed(note: Note)
    requires note.flds == Str("Q\U{1F}  A  ")
    ensures Answer(note) == Success("A")
  {
    assert "Q\U{1F}  A  " == Join(["Q", "  A  "], UnitSeparator);
    AnswerOfJoinedFields(note, "Q", "  A  ");
    StripPaddedA();
  }

  /** Worked example: a blob with two separators has no answer. */
  lemma AnswerExampleTwoSeparators(note: Note)
    requires note.flds == Str("Q\U{1F}A\U{1F}B")
    ensures Answer(note) == Failure(UnpackMismatch(3))
  {
    assert "Q\U{1F}A\U{1F}B" == Join(["Q", "A", "B"], UnitSeparator);
    AnswerNeedsExactlyOneSeparator(note, ["Q", "A", "B"]);
  }
}
