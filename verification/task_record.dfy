/** The task record of the current generation (src/task.rs): its line form
    `id|escaped name|epoch seconds|done` and the parser that reads it back. */
module TaskRecord {
  import opened Outcomes
  import opened StdText
  import opened LineCodec

  /** A task; `date` is the due time as whole seconds since the Unix epoch,
      which is all of it that the line form keeps (`NaiveDateTime::timestamp`). */
  datatype Task = Task(id: string, done: bool, name: string, date: I64)

  /** Why `parse` gives up (the source panics through `unwrap`). */
  datatype ParseError = BadTimestamp(text: string) | BadDone(text: string)

  /** `Task::new`: a task starts unfinished. */
  function NewTask(id: string, name: string, date: I64): (t: Task)
    ensures t.id == id && t.name == name && t.date == date && !t.done
  {
    Task(id, false, name, date)
  }

  /** `PartialEq for Task`: two tasks are the same task when their ids match. */
  predicate SameTask(a: Task, b: Task): (r: bool)
    ensures r <==> b.id == a.id
    ensures r ==> a.(name := b.name, date := b.date, done := b.done) == b
  {
    a.id == b.id
  }

  /** Task equality is an equivalence that looks at the id alone: name, date
      and done flag never make two tasks differ. */
  lemma SameTaskIsIdEquivalence(a: Task, b: Task, c: Task, name: string, date: I64, done: bool)
    ensures SameTask(a, a)
    ensures SameTask(a, b) ==> SameTask(b, a)
    ensures SameTask(a, b) && SameTask(b, c) ==> SameTask(a, c)
    ensures SameTask(a, a.(name := name, date := date, done := done))
    ensures SameTask(a, b) <==> a.id == b.id
  {
  }

  /** `Task::to_string`. */
  function EncodeTask(t: Task): string
  {
    Record(t.id, Escape(t.name), I64Text(t.date), BoolText(t.done))
  }

  /** The line of a task starts with its id and a delimiter and ends with a
      delimiter and its done flag; it holds a line break exactly when the id
      or the name does. */
  lemma EncodeTaskShape(t: Task)
    ensures var r, done := EncodeTask(t), BoolText(t.done);
      |r| == |t.id| + |Escape(t.name)| + |I64Text(t.date)| + |done| + 3 &&
      r[..|t.id|] == t.id && r[|t.id|] == DELIMITER &&
      r[|r| - |done|..] == done && r[|r| - |done| - 1] == DELIMITER
    ensures LINE_BREAK in EncodeTask(t) <==> LINE_BREAK in t.id || LINE_BREAK in t.name
  {
    var stamp := I64Text(t.date);
    RecordEnds(t.id, Escape(t.name), stamp, BoolText(t.done));
    I64TextShape(t.date);
    EscapeKeepsOtherCharacters(LINE_BREAK, t.name);
    RecordHolds(LINE_BREAK, t.id, Escape(t.name), stamp, BoolText(t.done));
    assert forall k :: 0 <= k < |stamp| ==> stamp[k] != LINE_BREAK;
  }

  /** What `parse` makes of the four fields it reads: the third must be an
      `i64`, the fourth `true` or `false`. */
  function DecodeFields(id: string, name: string, stamp: string, done: string): Result<Task, ParseError>
  {
    match ParseI64(stamp)
    case None => Err(BadTimestamp(stamp))
    case Some(seconds) =>
      match ParseBool(done)
      case None => Err(BadDone(done))
      case Some(flag) => Ok(Task(id, flag, name, seconds))
  }

  /** The date field is checked before the done field; the task keeps the
      id and name as read, and the date and flag the two fields denote. */
  lemma DecodeFieldsMeaning(id: string, name: string, stamp: string, done: string)
    ensures ParseI64(stamp).None? ==> DecodeFields(id, name, stamp, done) == Err(BadTimestamp(stamp))
    ensures ParseI64(stamp).Some? && ParseBool(done).None? ==> DecodeFields(id, name, stamp, done) == Err(BadDone(done))
    ensures DecodeFields(id, name, stamp, done).Ok? <==> ParseI64(stamp).Some? && ParseBool(done).Some?
    ensures var r := DecodeFields(id, name, stamp, done);
      r.Ok? ==> r.value.id == id && r.value.name == name &&
                Some(r.value.date) == ParseI64(stamp) && BoolText(r.value.done) == done
  {
  }

  /** `Task::parse` as a function of the line. */
  function DecodeTask(line: string): Result<Task, ParseError>
  {
    var fields := ScanFields(line, 4).0;
    DecodeFields(fields[0], fields[1], fields[2], fields[3])
  }

  /** `Task::parse`: four `parse_delimited` calls on one stream, then the date
      and done fields are converted. */
  method ParseTask(line: string) returns (r: Result<Task, ParseError>)
    ensures r == DecodeTask(line)
  {
    var chars := new CharStream(line);
    var id := ParseDelimited(chars);
    ghost var r1 := chars.Rest();
    var name := ParseDelimited(chars);
    ghost var r2 := chars.Rest();
    var stamp := ParseDelimited(chars);
    ghost var r3 := chars.Rest();
    var done := ParseDelimited(chars);
    FourFields(line, id, r1, name, r2, stamp, r3, done, chars.Rest());
    var seconds := ParseI64(stamp);
    if seconds.None? {
      return Err(BadTimestamp(stamp));
    }
    var flag := ParseBool(done);
    if flag.None? {
      return Err(BadDone(done));
    }
    r := Ok(Task(id, flag.value, name, seconds.value));
  }

  /** The precondition of the round trip: the id is plain (it is not escaped)
      and the name does not end with an escape character. */
  predicate Encodable(t: Task)
  {
    Plain(t.id) && !EndsWithEscape(t.name)
  }

  /** A task that `writeln!` puts on exactly one line of the file: neither the
      id nor the name holds a line break (the only other fields are digits
      and `true`/`false`). */
  predicate LineSafe(t: Task)
  {
    LINE_BREAK !in t.id && LINE_BREAK !in t.name
  }

  /** A task is line-safe exactly when its line holds no line break. */
  lemma LineSafeIffOneLine(t: Task)
    ensures LineSafe(t) <==> LINE_BREAK !in EncodeTask(t)
  {
    EncodeTaskShape(t);
  }

  /** The record of a task whose name holds a line break is read back as two
      lines, the first ending inside the name. */
  lemma LineBreakInNameCutsRecord(t: Task, a: string, b: string)
    requires LINE_BREAK !in t.id
    requires t.name == a + [LINE_BREAK] + b && DELIMITER !in a && LINE_BREAK !in a && LINE_BREAK !in b
    ensures WrittenLines([EncodeTask(t)]) ==
            [t.id + [DELIMITER] + a, Escape(b) + [DELIMITER] + I64Text(t.date) + [DELIMITER] + BoolText(t.done)]
  {
    var stamp, done := I64Text(t.date), BoolText(t.done);
    I64TextShape(t.date);
    assert forall k :: 0 <= k < |stamp| ==> stamp[k] != LINE_BREAK;
    assert LINE_BREAK !in stamp;
    assert LINE_BREAK !in done;
    EscapeAroundLineBreak(a, b);
    EscapeKeepsOtherCharacters(LINE_BREAK, b);
    assert LINE_BREAK !in Escape(b);
    assert EncodeTask(t) == Record(t.id, a + [LINE_BREAK] + Escape(b), stamp, done);
    RecordWithLineBreak(t.id, a, Escape(b), stamp, done);
  }

  /** A line that ends inside the name has an empty date field: parsing fails. */
  lemma CutLineFails(id: string, a: string)
    requires Plain(id) && DELIMITER !in a
    ensures DecodeTask(id + [DELIMITER] + a) == Err(BadTimestamp([]))
  {
    ScanCutRecord(id, a);
  }

  lemma I64TextIsPlain(n: I64)
    ensures Plain(I64Text(n))
  {
    I64TextShape(n);
  }

  lemma BoolTextIsPlain(b: bool)
    ensures Plain(BoolText(b))
  {
  }

  /** Round trip: a task with a plain id and a name that does not end with an
      escape character is read back exactly from its line. */
  lemma TaskRoundTrip(t: Task)
    requires Encodable(t)
    ensures DecodeTask(EncodeTask(t)) == Ok(t)
  {
    I64TextIsPlain(t.date);
    BoolTextIsPlain(t.done);
    ScanRecord(t.id, t.name, I64Text(t.date), BoolText(t.done));
    I64RoundTrip(t.date);
    BoolRoundTrip(t.done, BoolText(t.done));
  }

  /** The round trip fails for every name ending with an escape character:
      the escape pairs with the delimiter after the name, the done text lands
      in the date field, and parsing stops there. */
  lemma TrailingEscapeBreaksRoundTrip(t: Task)
    requires Plain(t.id) && EndsWithEscape(t.name)
    ensures DecodeTask(EncodeTask(t)) == Err(BadTimestamp(BoolText(t.done)))
  {
    I64TextIsPlain(t.date);
    BoolTextIsPlain(t.done);
    ScanRecordTrailingEscape(t.id, t.name, I64Text(t.date), BoolText(t.done));
  }

  /** The name `a\` is a counterexample to the unrestricted round trip. */
  lemma NameEndingInEscapeIsLost()
    ensures DecodeTask(EncodeTask(NewTask("ab12", "a\\", 0))).Err?
  {
    TrailingEscapeBreaksRoundTrip(NewTask("ab12", "a\\", 0));
  }

  /** Text after the fourth delimiter is ignored. */
  lemma TextAfterDoneIgnored(t: Task, extra: string)
    requires Encodable(t)
    ensures DecodeTask(EncodeTask(t) + [DELIMITER] + extra) == Ok(t)
  {
    I64TextIsPlain(t.date);
    BoolTextIsPlain(t.done);
    ScanRecordThenText(t.id, t.name, I64Text(t.date), BoolText(t.done), extra);
    I64RoundTrip(t.date);
    BoolRoundTrip(t.done, BoolText(t.done));
  }

  /** A line with fewer than four fields fails: the missing fields read as
      empty text, which is neither an `i64` nor a `bool`. */
  lemma ShortLineFails(line: string)
    requires ScanFields(line, 3).1 == []
    ensures DecodeTask(line).Err?
  {
    ScanFieldsLast(line, 3);
    assert ScanFields(line, 4).0[3] == [];
  }

  /** `parse` succeeds exactly when the third field is an `i64` and the fourth
      is `true` or `false`; the id and name are then the first two fields. */
  lemma DecodeTaskSucceedsIff(line: string)
    ensures var f := ScanFields(line, 4).0;
      DecodeTask(line).Ok? <==> ParseI64(f[2]).Some? && (f[3] == "true" || f[3] == "false")
    ensures var f := ScanFields(line, 4).0;
      DecodeTask(line).Ok? ==> DecodeTask(line).value.id == f[0] && DecodeTask(line).value.name == f[1] &&
                               BoolText(DecodeTask(line).value.done) == f[3]
  {
    BoolRoundTrip(true, ScanFields(line, 4).0[3]);
  }
}
