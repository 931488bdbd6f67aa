/** The to-do item of the older generation (src/lib.rs): the same line codec
    with the due date kept as RFC 2822 text, the date arguments of the `add`
    command, and the random ids. */
module TodoRecord {
  import opened Outcomes
  import opened StdText
  import opened LineCodec

  /** An item; `date` is the due time as the RFC 2822 text (section 3.3 of
      RFC 2822) that the line form stores. */
  datatype TodoItem = TodoItem(id: string, done: bool, name: string, date: string)

  /** Why `TodoItem::parse` gives up (the source panics through `unwrap`). */
  datatype ItemError = BadDate(text: string) | BadDone(text: string)

  /** `TodoItem::to_string`: the date text is written as it is. */
  function EncodeItem(x: TodoItem): string
  {
    Record(x.id, Escape(x.name), x.date, BoolText(x.done))
  }

  /** What `parse` makes of the four fields: the third must be RFC 2822 text,
      as `isDate` recognises it, the fourth `true` or `false`. */
  function DecodeItemFields(id: string, name: string, date: string, done: string, isDate: string -> bool): Result<TodoItem, ItemError>
  {
    if !isDate(date) then Err(BadDate(date))
    else
      match ParseBool(done)
      case None => Err(BadDone(done))
      case Some(flag) => Ok(TodoItem(id, flag, name, date))
  }

  /** The date field is checked before the done field; the item keeps the
      id, name and date text as read, and the flag the done field denotes. */
  lemma DecodeItemFieldsMeaning(id: string, name: string, date: string, done: string, isDate: string -> bool)
    ensures !isDate(date) ==> DecodeItemFields(id, name, date, done, isDate) == Err(BadDate(date))
    ensures isDate(date) && ParseBool(done).None? ==> DecodeItemFields(id, name, date, done, isDate) == Err(BadDone(done))
    ensures DecodeItemFields(id, name, date, done, isDate).Ok? <==> isDate(date) && ParseBool(done).Some?
    ensures var r := DecodeItemFields(id, name, date, done, isDate);
      r.Ok? ==> r.value.id == id && r.value.name == name && r.value.date == date && BoolText(r.value.done) == done
  {
  }

  /** `TodoItem::parse` as a function of the line. */
  function DecodeItem(line: string, isDate: string -> bool): Result<TodoItem, ItemError>
  {
    var fields := ScanFields(line, 4).0;
    DecodeItemFields(fields[0], fields[1], fields[2], fields[3], isDate)
  }

  /** `TodoItem::parse`: four `parse_delimited` calls on one stream, then the
      date and done fields are converted. */
  method ParseItem(line: string, isDate: string -> bool) returns (r: Result<TodoItem, ItemError>)
    ensures r == DecodeItem(line, isDate)
  {
    var chars := new CharStream(line);
    var id := ParseDelimited(chars);
    ghost var r1 := chars.Rest();
    var name := ParseDelimited(chars);
    ghost var r2 := chars.Rest();
    var date := ParseDelimited(chars);
    ghost var r3 := chars.Rest();
    var done := ParseDelimited(chars);
    FourFields(line, id, r1, name, r2, date, r3, done, chars.Rest());
    if !isDate(date) {
      return Err(BadDate(date));
    }
    var flag := ParseBool(done);
    if flag.None? {
      return Err(BadDone(done));
    }
    r := Ok(TodoItem(id, flag.value, name, date));
  }

  /** The precondition of the round trip: a plain id, a name that does not end
      with an escape character, and a date that is plain RFC 2822 text. */
  predicate ItemEncodable(x: TodoItem, isDate: string -> bool)
  {
    Plain(x.id) && !EndsWithEscape(x.name) && Plain(x.date) && isDate(x.date)
  }

  /** Round trip: id, name, date text and done flag are read back exactly. */
  lemma ItemRoundTrip(x: TodoItem, isDate: string -> bool)
    requires ItemEncodable(x, isDate)
    ensures DecodeItem(EncodeItem(x), isDate) == Ok(x)
  {
    ScanRecord(x.id, x.name, x.date, BoolText(x.done));
    BoolRoundTrip(x.done, BoolText(x.done));
  }

  /** Text after the fourth delimiter is ignored. */
  lemma ItemTextAfterDoneIgnored(x: TodoItem, extra: string, isDate: string -> bool)
    requires ItemEncodable(x, isDate)
    ensures DecodeItem(EncodeItem(x) + [DELIMITER] + extra, isDate) == Ok(x)
  {
    ScanRecordThenText(x.id, x.name, x.date, BoolText(x.done), extra);
    BoolRoundTrip(x.done, BoolText(x.done));
  }

  /** A name ending with an escape character breaks the round trip here too:
      the done text lands in the date field, and the done field is empty. */
  lemma ItemTrailingEscapeBreaksRoundTrip(x: TodoItem, isDate: string -> bool)
    requires Plain(x.id) && EndsWithEscape(x.name) && Plain(x.date)
    ensures DecodeItem(EncodeItem(x), isDate) ==
      if isDate(BoolText(x.done)) then Err(BadDone([])) else Err(BadDate(BoolText(x.done)))
  {
    ScanRecordTrailingEscape(x.id, x.name, x.date, BoolText(x.done));
    BoolRoundTrip(x.done, []);
  }

  /** `parse` succeeds exactly when the third field is a date and the fourth is
      `true` or `false`; the item then holds the first three fields. */
  lemma DecodeItemSucceedsIff(line: string, isDate: string -> bool)
    ensures var f := ScanFields(line, 4).0;
      DecodeItem(line, isDate).Ok? <==> isDate(f[2]) && (f[3] == "true" || f[3] == "false")
    ensures var f := ScanFields(line, 4).0;
      DecodeItem(line, isDate).Ok? ==>
        DecodeItem(line, isDate).value == TodoItem(f[0], f[3] == "true", f[1], f[2])
  {
    BoolRoundTrip(true, ScanFields(line, 4).0[3]);
  }

  /** The line of an item starts with its id and a delimiter and ends with a
      delimiter and its done flag; it holds a line break exactly when the id,
      the name or the date text does. */
  lemma EncodeItemShape(x: TodoItem)
    ensures var r, done := EncodeItem(x), BoolText(x.done);
      |r| == |x.id| + |Escape(x.name)| + |x.date| + |done| + 3 &&
      r[..|x.id|] == x.id && r[|x.id|] == DELIMITER &&
      r[|r| - |done|..] == done && r[|r| - |done| - 1] == DELIMITER
    ensures LINE_BREAK in EncodeItem(x) <==> LINE_BREAK in x.id || LINE_BREAK in x.name || LINE_BREAK in x.date
  {
    RecordEnds(x.id, Escape(x.name), x.date, BoolText(x.done));
    EscapeKeepsOtherCharacters(LINE_BREAK, x.name);
    RecordHolds(LINE_BREAK, x.id, Escape(x.name), x.date, BoolText(x.done));
    assert LINE_BREAK !in BoolText(x.done);
  }

  /** An item that `writeln!` puts on exactly one line of the file: no line
      break in the id, the name or the date text. */
  predicate ItemLineSafe(x: TodoItem)
  {
    LINE_BREAK !in x.id && LINE_BREAK !in x.name && LINE_BREAK !in x.date
  }

  /** An item is line-safe exactly when its line holds no line break. */
  lemma ItemLineSafeIffOneLine(x: TodoItem)
    ensures ItemLineSafe(x) <==> LINE_BREAK !in EncodeItem(x)
  {
    EncodeItemShape(x);
  }

  /** The record of an item whose name holds a line break is read back as
      two lines, the first ending inside the name. */
  lemma ItemLineBreakInNameCutsRecord(x: TodoItem, a: string, b: string)
    requires LINE_BREAK !in x.id && LINE_BREAK !in x.date
    requires x.name == a + [LINE_BREAK] + b && DELIMITER !in a && LINE_BREAK !in a && LINE_BREAK !in b
    ensures WrittenLines([EncodeItem(x)]) ==
            [x.id + [DELIMITER] + a, Escape(b) + [DELIMITER] + x.date + [DELIMITER] + BoolText(x.done)]
  {
    var done := BoolText(x.done);
    assert LINE_BREAK !in done;
    EscapeAroundLineBreak(a, b);
    EscapeKeepsOtherCharacters(LINE_BREAK, b);
    assert LINE_BREAK !in Escape(b);
    assert EncodeItem(x) == Record(x.id, a + [LINE_BREAK] + Escape(b), x.date, done);
    RecordWithLineBreak(x.id, a, Escape(b), x.date, done);
  }

  /** A line that ends inside the name has empty date and done fields: the
      read fails on the date, or on the done flag if the empty text counts as
      a date. */
  lemma CutItemLineFails(id: string, a: string, isDate: string -> bool)
    requires Plain(id) && DELIMITER !in a
    ensures DecodeItem(id + [DELIMITER] + a, isDate) ==
            if isDate([]) then Err(BadDone([])) else Err(BadDate([]))
  {
    ScanCutRecord(id, a);
  }

  // ----- the date and time arguments of `add` -----

  /** The calendar fields `parse_date` sets on the current local time. */
  datatype WallTime = WallTime(month: nat, day: nat, hour: nat, minute: nat)

  /** Why `parse_date` gives up (the source panics through `unwrap`, or on the
      overflowing `u32` addition in a debug build). */
  datatype DateError =
    | MissingPart
    | NotANumber(text: string)
    | HourOverflow
    | HourOutOfRange(hour: nat)
    | MinuteOutOfRange(minute: nat)

  /** `to_lowercase() == "pm"`: only the four spellings of `pm` lower-case to it. */
  predicate IsPm(s: string): (r: bool)
    ensures r <==> |s| == 2 && ToLower(s[0]) == 'p' && ToLower(s[1]) == 'm'
  {
    s == "pm" || s == "pM" || s == "Pm" || s == "PM"
  }

  /** `TodoItem::parse_date` on `M/D` and `H:MM AM|PM`, in the order of the
      source: the time is split at the space and the suffix looked up first,
      then the parts are read by `ParseDateParts`. */
  function ParseDate(date: string, time: string): (r: Result<WallTime, DateError>)
    ensures r.Ok? ==> r.value.hour <= 23 && r.value.minute <= 59
    ensures r.Ok? ==> r.value.month <= MAX_U32 && r.value.day <= MAX_U32
  {
    var timeParts := Split(time, ' ');
    if |timeParts| < 2 then Err(MissingPart)
    else ParseDateParts(Split(date, '/'), Split(timeParts[0], ':'), IsPm(timeParts[1]))
  }

  /** The rest of `parse_date` on the pieces of `M/D` and of `H:MM`: month,
      day and hour are parsed as `u32`; a `pm` suffix adds 12 to the hour (an
      overflowing `u32` sum fails); then the minute is parsed and
      `with_hour` and `with_minute` reject an hour above 23 and a minute
      above 59. */
  function ParseDateParts(dateParts: seq<string>, clock: seq<string>, pm: bool): (r: Result<WallTime, DateError>)
    requires |dateParts| >= 1 && |clock| >= 1
    ensures r.Ok? ==> r.value.hour <= 23 && r.value.minute <= 59
    ensures r.Ok? ==> r.value.month <= MAX_U32 && r.value.day <= MAX_U32
  {
    match ParseU32(dateParts[0])
    case None => Err(NotANumber(dateParts[0]))
    case Some(month) =>
      if |dateParts| < 2 then Err(MissingPart)
      else
        match ParseU32(dateParts[1])
        case None => Err(NotANumber(dateParts[1]))
        case Some(day) =>
          match ParseU32(clock[0])
          case None => Err(NotANumber(clock[0]))
          case Some(h) =>
            var hour := (if pm then 12 else 0) + h;
            if hour > MAX_U32 then Err(HourOverflow)
            else if |clock| < 2 then Err(MissingPart)
            else
              match ParseU32(clock[1])
              case None => Err(NotANumber(clock[1]))
              case Some(minute) =>
                if hour > 23 then Err(HourOutOfRange(hour))
                else if minute > 59 then Err(MinuteOutOfRange(minute))
                else Ok(WallTime(month, day, hour, minute))
  }

  lemma DigitsHaveNo(s: string, c: char)
    requires AllDigits(s) && !IsDigit(c)
    ensures c !in s
  {
  }

  /** The `M/D` argument of `add`. */
  function DateText(month: string, day: string): string
  {
    month + "/" + day
  }

  /** The `H:MM SUFFIX` argument of `add`. */
  function ClockText(hour: string, minute: string, suffix: string): string
  {
    hour + ":" + minute + " " + suffix
  }

  /** The outcome `parse_date` describes once month, day, hour and minute
      are numbers: 12 more hours for `pm`, a failure when that sum overflows
      `u32`, then a rejection of an hour above 23 and of a minute above 59, in
      that order. */
  function DateOutcome(month: nat, day: nat, hour: nat, minute: nat, pm: bool): Result<WallTime, DateError>
  {
    var h := (if pm then 12 else 0) + hour;
    if h > MAX_U32 then Err(HourOverflow)
    else if h > 23 then Err(HourOutOfRange(h))
    else if minute > 59 then Err(MinuteOutOfRange(minute))
    else Ok(WallTime(month, day, h, minute))
  }

  /** What `parse_date` makes of arguments written with numerals of values
      `m`, `d`, `h` and `mi`: the outcome for those values, with `pm` decided
      by the suffix. */
  lemma ParseDateOfNumerals(month: string, day: string, hour: string, minute: string, suffix: string,
                            m: nat, d: nat, h: nat, mi: nat)
    requires Numeral(month) && Numeral(day) && Numeral(hour) && Numeral(minute)
    requires m == DigitsValue(month) && d == DigitsValue(day) && h == DigitsValue(hour) && mi == DigitsValue(minute)
    requires ' ' !in suffix
    ensures ParseDate(DateText(month, day), ClockText(hour, minute, suffix)) == DateOutcome(m, d, h, mi, IsPm(suffix))
  {
    DateTextSplits(month, day);
    ClockTextSplits(hour, minute, suffix);
    ParseU32Digits(month);
    ParseU32Digits(day);
    ParseU32Digits(hour);
    ParseU32Digits(minute);
    ParsePartsOfValues(month, day, hour, minute, IsPm(suffix), m, d, h, mi);
  }

  /** `ParseDateParts` on two date pieces and two clock pieces that parse as
      the numbers `m`, `d`, `h` and `mi`. */
  lemma ParsePartsOfValues(month: string, day: string, hour: string, minute: string, pm: bool,
                           m: nat, d: nat, h: nat, mi: nat)
    requires ParseU32(month) == Some(m) && ParseU32(day) == Some(d)
    requires ParseU32(hour) == Some(h) && ParseU32(minute) == Some(mi)
    ensures ParseDateParts([month, day], [hour, minute], pm) == DateOutcome(m, d, h, mi, pm)
  {
  }

  lemma DateTextSplits(month: string, day: string)
    requires Numeral(month) && Numeral(day)
    ensures Split(DateText(month, day), '/') == [month, day]
  {
    DigitsHaveNo(month, '/');
    DigitsHaveNo(day, '/');
    assert DateText(month, day) == month + ['/'] + day;
    SplitFirst(month, '/', day);
    SplitWhole(day, '/');
  }

  lemma ClockTextSplits(hour: string, minute: string, suffix: string)
    requires Numeral(hour) && Numeral(minute) && ' ' !in suffix
    ensures Split(ClockText(hour, minute, suffix), ' ') == [hour + ":" + minute, suffix]
    ensures Split(hour + ":" + minute, ':') == [hour, minute]
  {
    DigitsHaveNo(hour, ':');
    DigitsHaveNo(minute, ':');
    DigitsHaveNo(hour, ' ');
    DigitsHaveNo(minute, ' ');
    var clockText := hour + ":" + minute;
    assert clockText == hour + [':'] + minute;
    assert ClockText(hour, minute, suffix) == clockText + [' '] + suffix;
    assert ' ' !in clockText by {
      assert forall k :: 0 <= k < |clockText| ==> clockText[k] == (hour + [':'] + minute)[k];
    }
    SplitFirst(clockText, ' ', suffix);
    SplitWhole(suffix, ' ');
    SplitFirst(hour, ':', minute);
    SplitWhole(minute, ':');
  }

  /** The default time of `add`, `11:59 PM`, is 23:59. */
  lemma DefaultTimeIsEndOfDay(month: string, day: string)
    requires Numeral(month) && Numeral(day)
    ensures ParseDate(DateText(month, day), "11:59 PM") ==
            Ok(WallTime(DigitsValue(month), DigitsValue(day), 23, 59))
  {
    NumeralValues();
    assert ClockText("11", "59", "PM") == "11:59 PM";
    ParseDateOfNumerals(month, day, "11", "59", "PM", DigitsValue(month), DigitsValue(day), 11, 59);
  }

  /** The numerals the lemmas below write out. */
  lemma NumeralValues()
    ensures Numeral("11") && DigitsValue("11") == 11
    ensures Numeral("12") && DigitsValue("12") == 12
    ensures Numeral("59") && DigitsValue("59") == 59
    ensures Numeral("00") && DigitsValue("00") == 0
  {
    assert "11"[..1] == "1" && "12"[..1] == "1" && "59"[..1] == "5" && "00"[..1] == "0";
  }

  /** An hour written as twelve (`12`, `012`, ...) with a `pm` suffix becomes
      hour 24, which is rejected, whatever the minute. */
  lemma NoonPmRejected(month: string, day: string, hour: string, minute: string, suffix: string)
    requires Numeral(month) && Numeral(day) && Numeral(hour) && Numeral(minute)
    requires DigitsValue(hour) == 12 && DigitsValue(minute) <= 59
    requires IsPm(suffix)
    ensures ParseDate(DateText(month, day), ClockText(hour, minute, suffix)) == Err(HourOutOfRange(24))
  {
    assert ' ' !in suffix;
    ParseDateOfNumerals(month, day, hour, minute, suffix, DigitsValue(month), DigitsValue(day), 12, DigitsValue(minute));
  }

  /** Midnight written as twelve with any suffix other than `pm` (`AM`
      included) becomes hour 12, that is noon. */
  lemma MidnightAmIsNoon(month: string, day: string, hour: string, minute: string, suffix: string)
    requires Numeral(month) && Numeral(day) && Numeral(hour) && Numeral(minute)
    requires DigitsValue(hour) == 12 && DigitsValue(minute) <= 59
    requires !IsPm(suffix) && ' ' !in suffix
    ensures ParseDate(DateText(month, day), ClockText(hour, minute, suffix)) ==
            Ok(WallTime(DigitsValue(month), DigitsValue(day), 12, DigitsValue(minute)))
  {
    ParseDateOfNumerals(month, day, hour, minute, suffix, DigitsValue(month), DigitsValue(day), 12, DigitsValue(minute));
  }

  /** `12:00 PM` on the first of January is rejected, and `12:00 AM` on it
      is read as noon. */
  lemma NoonOnNewYearRejected()
    ensures ParseDate("1/1", "12:00 PM") == Err(HourOutOfRange(24))
    ensures ParseDate("1/1", "12:00 AM") == Ok(WallTime(1, 1, 12, 0))
  {
    assert Numeral("1") && DigitsValue("1") == 1;
    NumeralValues();
    assert DateText("1", "1") == "1/1";
    assert ClockText("12", "00", "PM") == "12:00 PM";
    assert ClockText("12", "00", "AM") == "12:00 AM";
    NoonPmRejected("1", "1", "12", "00", "PM");
    MidnightAmIsNoon("1", "1", "12", "00", "AM");
  }

  // ----- random ids -----

  /** The characters `rand`'s `Alphanumeric` distribution draws from. */
  predicate IsAlphanumeric(c: char)
  {
    'A' <= c <= 'Z' || 'a' <= c <= 'z' || '0' <= c <= '9'
  }

  /** A draw of `get_random_id`: four alphanumeric samples. */
  predicate IsDraw(sample: seq<char>)
  {
    |sample| == 4 && forall k :: 0 <= k < 4 ==> IsAlphanumeric(sample[k])
  }

  predicate IsLowerAlphanumeric(c: char)
  {
    'a' <= c <= 'z' || '0' <= c <= '9'
  }

  /** `to_lowercase` on one ASCII character: an upper-case letter becomes
      the same letter in lower case, every other character stays. Non-ASCII
      letters are kept too, which differs from Unicode lowering; no
      non-ASCII character lowers to `p` or `m`, so `IsPm` is unaffected. */
  function ToLower(c: char): (r: char)
    ensures IsAlphanumeric(c) ==> IsLowerAlphanumeric(r)
    ensures 'A' <= c <= 'Z' ==> 'a' <= r <= 'z' && r as int - 'a' as int == c as int - 'A' as int
    ensures !('A' <= c <= 'Z') ==> r == c
  {
    if 'A' <= c <= 'Z' then (c as int + 32) as char else c
  }

  /** `get_random_id` on the samples it drew: they are collected and lower-cased. */
  function RandomId(sample: seq<char>): (r: string)
    requires IsDraw(sample)
    ensures |r| == 4 && forall k :: 0 <= k < 4 ==> IsLowerAlphanumeric(r[k])
    ensures forall k :: 0 <= k < 4 ==> r[k] == sample[k] || ('A' <= sample[k] <= 'Z' && r[k] as int == sample[k] as int + 32)
  {
    [ToLower(sample[0]), ToLower(sample[1]), ToLower(sample[2]), ToLower(sample[3])]
  }

  /** A random id is plain, so it is read back from a line unchanged, and
      lower-casing it again changes nothing. */
  lemma RandomIdIsPlain(sample: seq<char>)
    requires IsDraw(sample)
    ensures Plain(RandomId(sample))
    ensures forall k :: 0 <= k < 4 ==> ToLower(RandomId(sample)[k]) == RandomId(sample)[k]
  {
    var r := RandomId(sample);
    assert forall k :: 0 <= k < |r| ==> r[k] != DELIMITER;
  }
}
