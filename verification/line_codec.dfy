/** The record line format shared by both generations of the store
    (src/task.rs and src/lib.rs hold identical copies): fields joined by `|`,
    a `|` inside the name written as `\|`, and the escape-aware scanner
    `parse_delimited` that reads one field at a time from a shared stream. */
module LineCodec {
  import opened Outcomes
  import opened StdText

  const DELIMITER: char := '|'
  const ESCAPE: char := '\\'

  predicate EndsWithEscape(s: string) { s != [] && s[|s| - 1] == ESCAPE }

  /** A field that the scanner reads back verbatim when a delimiter follows it:
      no delimiter inside and no escape character at the end. */
  predicate Plain(s: string) { DELIMITER !in s && !EndsWithEscape(s) }

  function EscapeChar(c: char): string
  {
    if c == DELIMITER then [ESCAPE, DELIMITER] else [c]
  }

  /** `escape`: every `|` becomes `\|`; no other character changes. The
      result never starts with a delimiter and ends with the same character as
      the input. */
  function Escape(s: string): (r: string)
    ensures |r| >= |s|
    ensures s != [] ==> r != [] && r[0] != DELIMITER && r[|r| - 1] == s[|s| - 1]
  {
    if s == [] then []
    else
      EscapeChar(s[0]) + Escape(s[1..])
  }

  /** Escaping works character by character. */
  lemma {:induction false} EscapeAppend(a: string, b: string)
    ensures Escape(a + b) == Escape(a) + Escape(b)
  {
    if a == [] {
      assert a + b == b;
    } else {
      assert a + b == [a[0]] + (a[1..] + b);
      assert a == [a[0]] + a[1..];
      EscapeCons(a[0], a[1..] + b);
      EscapeCons(a[0], a[1..]);
      EscapeAppend(a[1..], b);
      Associative(EscapeChar(a[0]), Escape(a[1..]), Escape(b));
    }
  }

  /** Text without a delimiter is left as it is. */
  lemma {:induction false} EscapeWithoutDelimiter(s: string)
    requires DELIMITER !in s
    ensures Escape(s) == s
  {
    if s != [] {
      EscapeWithoutDelimiter(s[1..]);
      assert [s[0]] + s[1..] == s;
    }
  }

  /** Escaping adds and removes no character other than the escape
      character and the delimiter. */
  lemma {:induction false} EscapeKeepsOtherCharacters(c: char, s: string)
    requires c != DELIMITER && c != ESCAPE
    ensures c in Escape(s) <==> c in s
  {
    if s != [] {
      EscapeKeepsOtherCharacters(c, s[1..]);
      assert s == [s[0]] + s[1..];
      assert Escape(s) == EscapeChar(s[0]) + Escape(s[1..]);
    }
  }

  /** Every delimiter in escaped text has an escape character right before
      it, so it never ends a field. */
  lemma {:induction false} EscapedDelimitersArePreceded(s: string)
    ensures forall k :: 0 <= k < |Escape(s)| && Escape(s)[k] == DELIMITER ==> 0 < k && Escape(s)[k - 1] == ESCAPE
  {
    if s != [] {
      EscapedDelimitersArePreceded(s[1..]);
      var head, tail := EscapeChar(s[0]), Escape(s[1..]);
      assert Escape(s) == head + tail;
      forall k | 0 <= k < |head + tail| && (head + tail)[k] == DELIMITER
        ensures 0 < k && (head + tail)[k - 1] == ESCAPE
      {
        if k >= |head| {
          assert (head + tail)[k] == tail[k - |head|];
        }
      }
    }
  }

  /** One field as `parse_delimited` reads it from the rest `s` of the stream,
      and the input it leaves: `\|` gives `|`, an unescaped `|` ends the field
      and is consumed, every other character (a lone `\` too) is kept, and the
      end of input ends the field. The input left is a proper suffix of `s`. */
  function ScanField(s: string): (r: (string, string))
    ensures |r.1| <= |s|
    ensures s != [] ==> |r.1| < |s|
  {
    if s == [] then ([], [])
    else if s[0] == ESCAPE && |s| > 1 && s[1] == DELIMITER then
      var tail := ScanField(s[2..]);
      ([DELIMITER] + tail.0, tail.1)
    else if s[0] == DELIMITER then ([], s[1..])
    else
      var tail := ScanField(s[1..]);
      ([s[0]] + tail.0, tail.1)
  }

  /** `n` successive `parse_delimited` calls on one stream: the fields read
      and the input left after them. A missing field reads as empty. */
  function ScanFields(s: string, n: nat): (r: (seq<string>, string))
    ensures |r.0| == n && |r.1| <= |s|
    decreases n
  {
    if n == 0 then ([], s)
    else
      var first := ScanField(s);
      var others := ScanFields(first.1, n - 1);
      ([first.0] + others.0, others.1)
  }

  /** An unescaped delimiter ends the field and is consumed. */
  lemma ScanDelimiter(rest: string)
    ensures ScanField([DELIMITER] + rest) == ([], rest)
  {
    assert ([DELIMITER] + rest)[1..] == rest;
  }

  /** An escaped delimiter yields one delimiter and does not end the field. */
  lemma ScanEscapedDelimiter(rest: string)
    ensures ScanField([ESCAPE, DELIMITER] + rest) == ([DELIMITER] + ScanField(rest).0, ScanField(rest).1)
  {
    assert ([ESCAPE, DELIMITER] + rest)[2..] == rest;
  }

  /** An escape character not followed by a delimiter is kept as it is. */
  lemma ScanLoneEscape(rest: string)
    requires rest == [] || rest[0] != DELIMITER
    ensures ScanField([ESCAPE] + rest) == ([ESCAPE] + ScanField(rest).0, ScanField(rest).1)
  {
    assert ([ESCAPE] + rest)[1..] == rest;
  }

  /** Without an unescaped delimiter the whole input is one field: at end of
      input the scanner returns what it has collected. */
  lemma {:induction false} ScanToEnd(a: string)
    requires DELIMITER !in a
    ensures ScanField(a) == (a, [])
  {
    if a != [] {
      ScanToEnd(a[1..]);
      assert [a[0]] + a[1..] == a;
    }
  }

  /** A plain field followed by a delimiter is read back verbatim, and the
      delimiter is consumed. */
  lemma {:induction false} ScanPlainField(a: string, rest: string)
    requires Plain(a)
    ensures ScanField(a + [DELIMITER] + rest) == (a, rest)
  {
    var s := a + [DELIMITER] + rest;
    if a == [] {
      assert s[1..] == rest;
    } else {
      assert s[1..] == a[1..] + [DELIMITER] + rest;
      assert a[0] == ESCAPE ==> |a| > 1 && s[1] == a[1];
      ScanPlainField(a[1..], rest);
      assert [a[0]] + a[1..] == a;
    }
  }

  /** A character other than the delimiter is kept, an escape character too
      when no delimiter follows it. */
  lemma ScanLiteral(c: char, t: string)
    requires c != DELIMITER
    requires c == ESCAPE ==> t == [] || t[0] != DELIMITER
    ensures ScanField([c] + t) == ([c] + ScanField(t).0, ScanField(t).1)
  {
    assert ([c] + t)[1..] == t;
  }

  /** Proof helper: concatenation regroups (the solver does not always
      regroup long concatenations on its own). */
  lemma Associative<T>(a: seq<T>, b: seq<T>, c: seq<T>)
    ensures a + b + c == a + (b + c)
  {
  }

  lemma EscapeCons(head: char, rest: string)
    ensures Escape([head] + rest) == EscapeChar(head) + Escape(rest)
  {
    assert ([head] + rest)[1..] == rest;
  }

  /** One step of `ScanEscaped`: the escaped form of one more character in
      front of text that already scans back correctly. */
  lemma ScanEscapedCons(head: char, rest: string, x: string, y: string, left: string)
    requires ScanField(x) == (y, left)
    requires ScanField(Escape(rest) + x) == (rest + y, left)
    requires head == ESCAPE && rest == [] ==> x == [] || x[0] != DELIMITER
    ensures ScanField(Escape([head] + rest) + x) == ([head] + rest + y, left)
  {
    var t := Escape(rest) + x;
    Associative([head], rest, y);
    EscapeCons(head, rest);
    Associative(EscapeChar(head), Escape(rest), x);
    if head == DELIMITER {
      ScanEscapedDelimiter(t);
    } else {
      assert head == ESCAPE ==> t == [] || t[0] != DELIMITER by {
        if rest != [] {
          assert t[0] == Escape(rest)[0];
        } else {
          assert t == x;
        }
      }
      ScanLiteral(head, t);
    }
  }

  /** Scanning escaped text, followed by `x`, reads back the original text and
      goes on into `x` (where the scanner would read `y` and leave `left`),
      unless an escape character at the end of the text meets a delimiter. */
  lemma {:induction false} ScanEscaped(n: string, x: string, y: string, left: string)
    requires ScanField(x) == (y, left)
    requires !EndsWithEscape(n) || x == [] || x[0] != DELIMITER
    ensures ScanField(Escape(n) + x) == (n + y, left)
  {
    if n == [] {
      assert Escape(n) + x == x;
      assert n + y == y;
    } else {
      var head, rest := n[0], n[1..];
      assert n == [head] + rest;
      assert rest != [] ==> EndsWithEscape(rest) == EndsWithEscape(n);
      ScanEscaped(rest, x, y, left);
      ScanEscapedCons(head, rest, x, y, left);
    }
  }

  /** The escaped name, then a delimiter, is read back as the name, provided
      the name does not end with an escape character. */
  lemma ScanEscapedField(n: string, rest: string)
    requires !EndsWithEscape(n)
    ensures ScanField(Escape(n) + [DELIMITER] + rest) == (n, rest)
  {
    var x := [DELIMITER] + rest;
    assert x[1..] == rest;
    ScanEscaped(n, x, [], rest);
    assert Escape(n) + [DELIMITER] + rest == Escape(n) + x;
    assert n + [] == n;
  }

  /** A name ending with the escape character swallows the delimiter after
      it: the field runs on into the next one. */
  lemma ScanTrailingEscape(n: string, rest: string)
    requires EndsWithEscape(n)
    ensures ScanField(Escape(n) + [DELIMITER] + rest)
         == (n[..|n| - 1] + [DELIMITER] + ScanField(rest).0, ScanField(rest).1)
  {
    var m := n[..|n| - 1];
    var x := [ESCAPE, DELIMITER] + rest;
    assert n == m + [ESCAPE];
    assert Escape([ESCAPE]) == [ESCAPE] by {
      assert [ESCAPE][1..] == [];
    }
    EscapeAppend(m, [ESCAPE]);
    assert Escape(n) + [DELIMITER] + rest == Escape(m) + x;
    var (y, left) := ScanField(rest);
    Associative(m, [DELIMITER], y);
    ScanEscapedDelimiter(rest);
    ScanEscaped(m, x, [DELIMITER] + y, left);
  }

  /** `format!("{}|{}|{}|{}", ..)`: four fields joined by the delimiter. */
  function Record(a: string, b: string, c: string, d: string): string
  {
    a + [DELIMITER] + b + [DELIMITER] + c + [DELIMITER] + d
  }

  lemma RecordShape(a: string, b: string, c: string, d: string)
    ensures Record(a, b, c, d) == a + [DELIMITER] + (b + [DELIMITER] + (c + [DELIMITER] + d))
  {
  }

  /** A record is as long as its fields and three delimiters, starts with its
      first field and a delimiter, and ends with a delimiter and its last
      field. */
  lemma RecordEnds(a: string, b: string, c: string, d: string)
    ensures var r := Record(a, b, c, d);
      |r| == |a| + |b| + |c| + |d| + 3 &&
      r[..|a|] == a && r[|a|] == DELIMITER &&
      r[|r| - |d|..] == d && r[|r| - |d| - 1] == DELIMITER
  {
  }

  /** A character other than the delimiter occurs in a record exactly when
      it occurs in one of its fields. */
  lemma RecordHolds(x: char, a: string, b: string, c: string, d: string)
    requires x != DELIMITER
    ensures x in Record(a, b, c, d) <==> x in a || x in b || x in c || x in d
  {
    assert Record(a, b, c, d) == a + [DELIMITER] + b + [DELIMITER] + c + [DELIMITER] + d;
  }

  /** Reading one more field after `n` fields continues from where the first
      `n` left off. */
  lemma {:induction false} ScanFieldsLast(s: string, n: nat)
    ensures ScanFields(s, n + 1).0 == ScanFields(s, n).0 + [ScanField(ScanFields(s, n).1).0]
    ensures ScanFields(s, n + 1).1 == ScanField(ScanFields(s, n).1).1
    decreases n
  {
    if n > 0 {
      var first := ScanField(s);
      ScanFieldsLast(first.1, n - 1);
      Associative([first.0], ScanFields(first.1, n - 1).0, [ScanField(ScanFields(first.1, n - 1).1).0]);
    }
  }

  /** Four scans in a row, one field each. */
  lemma FourFields(s: string, f1: string, r1: string, f2: string, r2: string,
                   f3: string, r3: string, f4: string, r4: string)
    requires ScanField(s) == (f1, r1) && ScanField(r1) == (f2, r2)
    requires ScanField(r2) == (f3, r3) && ScanField(r3) == (f4, r4)
    ensures ScanFields(s, 4) == ([f1, f2, f3, f4], r4)
  {
    assert [f4] + [] == [f4];
    assert [f3] + [f4] == [f3, f4];
    assert [f2] + [f3, f4] == [f2, f3, f4];
    assert [f1] + [f2, f3, f4] == [f1, f2, f3, f4];
    assert ScanFields(r4, 0) == ([], r4);
    assert ScanFields(r3, 1) == ([f4], r4);
    assert ScanFields(r2, 2) == ([f3, f4], r4);
    assert ScanFields(r1, 3) == ([f2, f3, f4], r4);
  }

  /** A record whose first and third fields are plain, whose second field is
      an escaped name not ending with an escape, and whose last field has no
      delimiter, scans back into its four fields with nothing left. */
  lemma ScanRecord(a: string, n: string, c: string, d: string)
    requires Plain(a) && !EndsWithEscape(n) && Plain(c) && DELIMITER !in d
    ensures ScanFields(Record(a, Escape(n), c, d), 4) == ([a, n, c, d], [])
  {
    var r2 := c + [DELIMITER] + d;
    var r1 := Escape(n) + [DELIMITER] + r2;
    RecordShape(a, Escape(n), c, d);
    ScanPlainField(a, r1);
    ScanEscapedField(n, r2);
    ScanPlainField(c, d);
    ScanToEnd(d);
    FourFields(Record(a, Escape(n), c, d), a, r1, n, r2, c, d, d, []);
  }

  /** The same record followed by a delimiter and any text: the text after the
      fourth delimiter is left unread. */
  lemma ScanRecordThenText(a: string, n: string, c: string, d: string, extra: string)
    requires Plain(a) && !EndsWithEscape(n) && Plain(c) && Plain(d)
    ensures ScanFields(Record(a, Escape(n), c, d) + [DELIMITER] + extra, 4) == ([a, n, c, d], extra)
  {
    var r3 := d + [DELIMITER] + extra;
    var r2 := c + [DELIMITER] + r3;
    var r1 := Escape(n) + [DELIMITER] + r2;
    RecordShape(a, Escape(n), c, r3);
    assert Record(a, Escape(n), c, d) + [DELIMITER] + extra == Record(a, Escape(n), c, r3);
    ScanPlainField(a, r1);
    ScanEscapedField(n, r2);
    ScanPlainField(c, r3);
    ScanPlainField(d, extra);
    FourFields(Record(a, Escape(n), c, d) + [DELIMITER] + extra, a, r1, n, r2, c, r3, d, extra);
  }

  /** A record whose name ends with an escape character: the name field swallows
      the third field, the fourth field is read in third place, and the fourth
      field read is empty. */
  lemma ScanRecordTrailingEscape(a: string, n: string, c: string, d: string)
    requires Plain(a) && EndsWithEscape(n) && Plain(c) && DELIMITER !in d
    ensures ScanFields(Record(a, Escape(n), c, d), 4) == ([a, n[..|n| - 1] + [DELIMITER] + c, d, []], [])
  {
    var r2 := c + [DELIMITER] + d;
    var r1 := Escape(n) + [DELIMITER] + r2;
    RecordShape(a, Escape(n), c, d);
    ScanPlainField(a, r1);
    ScanPlainField(c, d);
    ScanTrailingEscape(n, r2);
    ScanToEnd(d);
    FourFields(Record(a, Escape(n), c, d), a, r1, n[..|n| - 1] + [DELIMITER] + c, d, d, [], [], []);
  }

  /** The line break `writeln!` puts after every record and at which
      `BufRead::lines` cuts the file. */
  const LINE_BREAK: char := '\n'

  /** What `BufRead::lines` reads back from a file that one `writeln!` per
      record wrote: each record cut at its own line breaks, records in order. */
  function WrittenLines(records: seq<string>): (r: seq<string>)
    ensures |r| >= |records|
    ensures forall k :: 0 <= k < |r| ==> LINE_BREAK !in r[k]
  {
    if records == [] then [] else Split(records[0], LINE_BREAK) + WrittenLines(records[1..])
  }

  /** Writing records one after the other: the file's lines are those of the
      first records followed by those of the rest. */
  lemma {:induction false} WrittenLinesAppend(a: seq<string>, b: seq<string>)
    ensures WrittenLines(a + b) == WrittenLines(a) + WrittenLines(b)
  {
    if a == [] {
      assert a + b == b;
    } else {
      assert (a + b)[0] == a[0] && (a + b)[1..] == a[1..] + b;
      WrittenLinesAppend(a[1..], b);
      Associative(Split(a[0], LINE_BREAK), WrittenLines(a[1..]), WrittenLines(b));
    }
  }

  /** Records without a line break come back one line each, unchanged. */
  lemma {:induction false} WrittenLinesOfSingleLines(records: seq<string>)
    requires forall k :: 0 <= k < |records| ==> LINE_BREAK !in records[k]
    ensures WrittenLines(records) == records
  {
    if records != [] {
      SplitWhole(records[0], LINE_BREAK);
      WrittenLinesOfSingleLines(records[1..]);
      assert [records[0]] + records[1..] == records;
    }
  }

  /** A record holding a line break is read back as two lines. */
  lemma LineBreakSplitsRecord(a: string, b: string)
    requires LINE_BREAK !in a && LINE_BREAK !in b
    ensures WrittenLines([a + [LINE_BREAK] + b]) == [a, b]
  {
    SplitFirst(a, LINE_BREAK, b);
    SplitWhole(b, LINE_BREAK);
    assert [a + [LINE_BREAK] + b][1..] == [];
  }

  /** A record whose second field holds a line break (`b` and `b2` on
      either side of it) is read back as two lines: the first ends inside the
      field, the second holds the rest of the record. */
  lemma RecordWithLineBreak(a: string, b: string, b2: string, c: string, d: string)
    requires LINE_BREAK !in a && LINE_BREAK !in b && LINE_BREAK !in b2
    requires LINE_BREAK !in c && LINE_BREAK !in d
    ensures WrittenLines([Record(a, b + [LINE_BREAK] + b2, c, d)]) ==
            [a + [DELIMITER] + b, b2 + [DELIMITER] + c + [DELIMITER] + d]
  {
    var first, second := a + [DELIMITER] + b, b2 + [DELIMITER] + c + [DELIMITER] + d;
    assert Record(a, b + [LINE_BREAK] + b2, c, d) == first + [LINE_BREAK] + second;
    LineBreakSplitsRecord(first, second);
  }

  /** A line that ends inside the second field: a plain first field, the
      second field up to the end, and two empty fields. */
  lemma ScanCutRecord(a: string, b: string)
    requires Plain(a) && DELIMITER !in b
    ensures ScanFields(a + [DELIMITER] + b, 4) == ([a, b, [], []], [])
  {
    ScanPlainField(a, b);
    ScanToEnd(b);
    FourFields(a + [DELIMITER] + b, a, b, b, [], [], [], [], []);
  }

  /** Escaping text with a line break: the part before it, if it has no
      delimiter, is kept as it is. */
  lemma {:induction false} EscapeAroundLineBreak(a: string, b: string)
    requires DELIMITER !in a
    ensures Escape(a + [LINE_BREAK] + b) == a + [LINE_BREAK] + Escape(b)
  {
    if a == [] {
      assert a + [LINE_BREAK] + b == [LINE_BREAK] + b;
      EscapeCons(LINE_BREAK, b);
    } else {
      var t := a[1..];
      assert a[0] != DELIMITER;
      calc {
        Escape(a + [LINE_BREAK] + b);
        { assert a + [LINE_BREAK] + b == [a[0]] + (t + [LINE_BREAK] + b); }
        Escape([a[0]] + (t + [LINE_BREAK] + b));
        { EscapeCons(a[0], t + [LINE_BREAK] + b); }
        EscapeChar(a[0]) + Escape(t + [LINE_BREAK] + b);
        { EscapeAroundLineBreak(t, b); }
        [a[0]] + (t + [LINE_BREAK] + Escape(b));
        { assert a == [a[0]] + t; }
        a + [LINE_BREAK] + Escape(b);
      }
    }
  }

  /** The loop of `read` over a file's lines: every line parsed in order;
      the first line that does not parse fails the whole read. */
  function ReadLines<T, E>(lines: seq<string>, parse: string -> Result<T, E>): Result<seq<T>, E>
  {
    if lines == [] then Ok([])
    else
      match ReadLines(lines[..|lines| - 1], parse)
      case Err(e) => Err(e)
      case Ok(xs) =>
        match parse(lines[|lines| - 1])
        case Err(e) => Err(e)
        case Ok(x) => Ok(xs + [x])
  }

  /** A failed prefix fails the whole read with the same error. */
  lemma {:induction false} ReadLinesFailedPrefix<T, E>(lines: seq<string>, n: nat, parse: string -> Result<T, E>)
    requires n <= |lines| && ReadLines(lines[..n], parse).Err?
    ensures ReadLines(lines, parse) == ReadLines(lines[..n], parse)
    decreases |lines|
  {
    if n < |lines| {
      var init := lines[..|lines| - 1];
      assert init[..n] == lines[..n];
      ReadLinesFailedPrefix(init, n, parse);
    } else {
      assert lines[..n] == lines;
    }
  }

  /** Lines that each parse on their own are read together, in order. */
  lemma {:induction false} ReadEveryLine<T, E>(lines: seq<string>, xs: seq<T>, parse: string -> Result<T, E>)
    requires |lines| == |xs|
    requires forall k :: 0 <= k < |lines| ==> parse(lines[k]) == Ok(xs[k])
    ensures ReadLines(lines, parse) == Ok(xs)
    decreases |lines|
  {
    if lines != [] {
      var init, last := xs[..|xs| - 1], xs[|xs| - 1];
      ReadEveryLine(lines[..|lines| - 1], init, parse);
      assert init + [last] == xs;
    }
  }

  /** A successful read yields one value per line, each what its line
      parses to, in file order. */
  lemma {:induction false} ReadLinesOk<T, E>(lines: seq<string>, parse: string -> Result<T, E>)
    requires ReadLines(lines, parse).Ok?
    ensures var xs := ReadLines(lines, parse).value;
      |xs| == |lines| && forall k :: 0 <= k < |lines| ==> parse(lines[k]) == Ok(xs[k])
  {
    if lines != [] {
      var init := lines[..|lines| - 1];
      ReadLinesOk(init, parse);
      var xs := ReadLines(init, parse).value;
      var x := parse(lines[|lines| - 1]).value;
      assert forall k :: 0 <= k < |init| ==> init[k] == lines[k] && (xs + [x])[k] == xs[k];
    }
  }

  /** A failed read reports the error of the first line that does not parse;
      every line before it parses. */
  lemma {:induction false} ReadLinesFirstError<T, E>(lines: seq<string>, parse: string -> Result<T, E>)
    requires ReadLines(lines, parse).Err?
    ensures exists k :: 0 <= k < |lines| && parse(lines[k]) == Err(ReadLines(lines, parse).error) &&
                        forall j :: 0 <= j < k ==> parse(lines[j]).Ok?
  {
    var init := lines[..|lines| - 1];
    var e := ReadLines(lines, parse).error;
    if ReadLines(init, parse).Err? {
      ReadLinesFirstError(init, parse);
      var k :| 0 <= k < |init| && parse(init[k]) == Err(e) &&
               forall j :: 0 <= j < k ==> parse(init[j]).Ok?;
      assert forall j :: 0 <= j <= k ==> init[j] == lines[j];
    } else {
      ReadLinesOk(init, parse);
      assert forall j :: 0 <= j < |init| ==> init[j] == lines[j];
      assert parse(lines[|lines| - 1]) == Err(e);
    }
  }

  /** The peekable character iterator that the four `parse_delimited` calls of
      `parse` share: the line and how far it has been consumed. */
  class CharStream {
    const text: string
    var pos: nat

    ghost predicate Valid()
      reads this
    {
      pos <= |text|
    }

    /** What the iterator has not yet yielded. */
    ghost function Rest(): string
      reads this
      requires Valid()
    {
      text[pos..]
    }

    constructor (s: string)
      ensures Valid() && text == s && pos == 0
    {
      text := s;
      pos := 0;
    }

    /** `Iterator::next`. */
    method Next() returns (c: Option<char>)
      requires Valid()
      modifies this
      ensures Valid()
      ensures old(pos) < |text| ==> c == Some(text[old(pos)]) && pos == old(pos) + 1
      ensures old(pos) == |text| ==> c == None && pos == old(pos)
    {
      if pos < |text| {
        c := Some(text[pos]);
        pos := pos + 1;
      } else {
        c := None;
      }
    }

    /** `Peekable::peek`: the next character without consuming it. */
    function Peek(): (r: Option<char>)
      reads this
      requires Valid()
      ensures r.Some? <==> Rest() != []
      ensures r.Some? ==> r.value == Rest()[0]
    {
      if pos < |text| then Some(text[pos]) else None
    }
  }

  /** `parse_delimited`: reads one field from the stream, pushing characters
      into a buffer, and leaves the stream just after the field's delimiter
      (or at its end). */
  method ParseDelimited(chars: CharStream) returns (field: string)
    requires chars.Valid()
    modifies chars
    ensures chars.Valid()
    ensures (field, chars.Rest()) == ScanField(old(chars.Rest()))
  {
    ghost var start := chars.Rest();
    field := [];
    assert field + ScanField(start).0 == ScanField(start).0;
    while true
      invariant chars.Valid()
      invariant ScanField(start) == (field + ScanField(chars.Rest()).0, ScanField(chars.Rest()).1)
      decreases |chars.text| - chars.pos
    {
      ghost var before := chars.Rest();
      var c := chars.Next();
      if c.None? {
        assert field + [] == field;
        return;
      }
      ghost var after := chars.Rest();
      assert before == [c.value] + after;
      var next := chars.Peek();
      if c.value == ESCAPE && next == Some(DELIMITER) {
        assert before == [ESCAPE, DELIMITER] + after[1..];
        ScanEscapedDelimiter(after[1..]);
        Associative(field, [DELIMITER], ScanField(after[1..]).0);
        field := field + [DELIMITER];
        var skipped := chars.Next();
        continue;
      }
      if c.value == DELIMITER {
        ScanDelimiter(after);
        assert field + [] == field;
        return;
      }
      ScanLiteral(c.value, after);
      Associative(field, [c.value], ScanField(after).0);
      field := field + [c.value];
    }
  }
}
