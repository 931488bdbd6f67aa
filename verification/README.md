# A verified model of the `task` to-do store

`task` is a command-line to-do list written in Rust. It stores one task per
line of a data file, in the form `id|name|date|done`. The name is escaped so
that a `|` inside it reads back as part of the name.

The repository holds two generations of the store, and this project models
the core of both in Dafny:

- **Current generation** (`src/task.rs`):
  - `Task` holds its due date as a chrono `NaiveDateTime`; its line stores that date as whole seconds since the Unix epoch, and the model keeps the second count.
  - `TaskManager` loads the tasks once and changes them in memory. It remembers in a `dirty` flag whether anything changed. `sync` writes the tasks back only when that flag is set.
- **Older generation** (`src/lib.rs`, `src/io.rs`):
  - `TodoItem` holds its due date as a chrono `DateTime<Local>`; its line stores that date as RFC 2822 date-time text (section 3.3 of RFC 2822), and the model keeps the text.
  - The data file is read, rewritten, appended to, modified and filtered as a whole.
  - `next_id` draws random ids until one is free.
  - `parse_date` turns the `M/D` and `H:MM AM|PM` arguments of `add` into calendar fields.

Modules:

- `Outcomes` (`outcomes.dfy`): `Option`, `Result` and `Outcome`.
- `StdText` (`std_text.dfy`) holds the pieces of the Rust standard library that the code relies on:
  - the `Display` text of integers and booleans;
  - `str::parse` for `u32`, `i64` and `bool`;
  - `str::split` on one character.
- `LineCodec` (`line_codec.dfy`) is the record codec that both generations share character for character:
  - `escape`;
  - the `parse_delimited` scanner, as a method over a `CharStream` class that stands for the shared peekable iterator, proved against the function `ScanField`;
  - the lemmas about four-field records.
- `TaskRecord` (`task_record.dfy`): `Task`, `Task::new`, task equality, `to_string`, and `parse`.
- `TaskManagement` (`task_manager.dfy`):
  - the `TaskManager` class and the list functions that specify it;
  - `TaskStore`, a class that stands for the task file the manager reads and writes.
- `TodoRecord` (`todo_record.dfy`): `TodoItem`, its `to_string` and `parse`, `parse_date`, and `get_random_id`.
- `FileStore` (`file_store.dfy`): the data file of `src/io.rs` as a `DataFile` class over its lines.
- `TodoCommands` (`todo_commands.dfy`):
  - `next_id` and `TodoItem::new`;
  - the selection logic of the `list` and `done` commands.

How things outside the program are modelled:

- Rust panics (`unwrap` on a failed parse, `with_hour` on hour 24) become `Err` or `Fail` values with a reason.
- The RFC 2822 recogniser of chrono is a parameter `isDate`.
- The instant a date text denotes, used by `sort_by_key`, is a parameter `key`.
- What chrono makes of the parsed calendar fields is a parameter `stamp`.
- The random samples of `get_random_id` are a parameter `draws`.
- A failure to write the task file is a parameter `fault`.

## Model

| member | source | states |
|---|---|---|
| StdText.ParseU32 | src/lib.rs:73-80 | `parse::<u32>` accepts an optional `+` and decimal digits, and only values that fit in 32 bits |
| StdText.ParseU32Digits | src/lib.rs:73-80 | a run of digits whose value fits in 32 bits, leading zeros included, parses as that value |
| StdText.U32RoundTrip | src/lib.rs:73-80 | the decimal text of any `u32` parses back to the same value |
| StdText.I64TextShape | src/task.rs:97 | the timestamp text is non-empty, all digits except a leading minus sign, and starts with a minus sign exactly when the value is negative |
| StdText.ParseI64Shape | src/task.rs:116 | `parse::<i64>` accepts only non-empty text whose characters after the first are digits; a negative value needs a leading minus; unsigned digit text is read as its decimal value |
| StdText.I64RoundTrip | src/task.rs:97-116 | the timestamp text `to_string` writes parses back as the same `i64` |
| StdText.BoolRoundTrip | src/task.rs:98-120 | `true`/`false` parse back to the flag; `parse::<bool>` accepts exactly those two texts |
| StdText.Split | src/lib.rs:68-70 | `split` on one character yields at least one piece; no piece contains the separator; joining the pieces gives the input back |
| LineCodec.Escape | src/task.rs:102-104 | escaping never shortens the text, never starts with a bare delimiter, and keeps the last character |
| LineCodec.EscapeAppend | src/task.rs:102-104 | escaping works character by character: escaping a concatenation concatenates the escapes |
| LineCodec.EscapeWithoutDelimiter | src/task.rs:102-104 | text without a delimiter is left unchanged: no character other than the delimiter is altered |
| LineCodec.EscapeKeepsOtherCharacters | src/task.rs:102-104 | a character other than the delimiter and the escape character occurs in the escaped text iff it occurs in the text |
| LineCodec.EscapedDelimitersArePreceded | src/task.rs:102-104 | every delimiter in escaped text has a `\` right before it |
| LineCodec.EscapeAroundLineBreak | src/task.rs:102-104 | escaping leaves a line break and the delimiter-free text before it in place |
| LineCodec.ScanField | src/task.rs:125-145 | one field consumes at least one character of non-empty input, and never more than the input |
| LineCodec.ScanFields | src/task.rs:106-120 | `parse` reads exactly four fields in sequence from one stream |
| LineCodec.ScanDelimiter | src/task.rs:137-139 | an unescaped delimiter ends the field and is consumed |
| LineCodec.ScanEscapedDelimiter | src/task.rs:131-135 | `\` followed by a delimiter yields one delimiter in the field, and both characters are consumed |
| LineCodec.ScanLoneEscape | src/task.rs:131-141 | a `\` not followed by a delimiter is kept literally |
| LineCodec.ScanToEnd | src/task.rs:128-144 | at the end of input the field is what was collected, and nothing is left |
| LineCodec.ScanPlainField | src/task.rs:125-145 | a field with no delimiter that does not end in `\` is read back exactly, up to and including its delimiter |
| LineCodec.ScanEscaped | src/task.rs:125-145 | scanning escaped text gives the original text back, whatever follows, provided the text does not end in `\` or what follows does not start with a delimiter |
| LineCodec.ScanEscapedField | src/task.rs:92-113 | an escaped name followed by a delimiter reads back as the name, unless the name ends in `\` |
| LineCodec.ScanTrailingEscape | src/task.rs:92-113 | a name ending in `\` swallows the delimiter after it: the field runs on into the next one |
| LineCodec.RecordEnds | src/task.rs:92-100 | a record is as long as its fields plus three delimiters, starts with its id and a delimiter, and ends with a delimiter and the done text |
| LineCodec.RecordHolds | src/task.rs:92-100 | a character other than the delimiter occurs in a record iff it occurs in one of the four fields |
| LineCodec.ScanRecord | src/task.rs:92-123 | the four fields of a written record are read back exactly, with nothing left over |
| LineCodec.ScanRecordThenText | src/task.rs:106-123 | text after a fourth delimiter is left unread |
| LineCodec.ScanRecordTrailingEscape | src/task.rs:92-123 | a name ending in `\` merges the name and date fields and shifts the done text into the third field |
| LineCodec.ScanCutRecord | src/task.rs:106-123 | a line that stops after the second field reads two empty fields after it |
| LineCodec.WrittenLines | src/io.rs:40 | the lines read back from the written records hold no line break, and there are at least as many lines as records |
| LineCodec.WrittenLinesAppend | src/io.rs:19-27 | writing more records adds their lines after the lines already in the file |
| LineCodec.WrittenLinesOfSingleLines | src/io.rs:40 | records without a line break come back as one line each, unchanged and in order |
| LineCodec.LineBreakSplitsRecord | src/io.rs:40 | a record holding one line break comes back as the two lines on either side of it |
| LineCodec.RecordWithLineBreak | src/task.rs:92-100 | a record whose name holds a line break comes back as two lines, the first ending inside the name |
| LineCodec.ReadLinesFailedPrefix | src/io.rs:40-43 | in the line-by-line read that `DecodeTasks` and `DecodeItems` perform, a bad line fails the whole read with the error of the first failing prefix |
| LineCodec.ReadEveryLine | src/io.rs:40-43 | in the read that `DecodeTasks` and `DecodeItems` perform, when every line parses, the read yields one value per line, in file order |
| LineCodec.ReadLinesOk | src/io.rs:40-43 | a successful `DecodeTasks` or `DecodeItems` read has one value per line, each what its line parses to |
| LineCodec.ReadLinesFirstError | src/io.rs:40-43 | a failed `DecodeTasks` or `DecodeItems` read reports the error of the first line that does not parse, and every line before it parses |
| LineCodec.CharStream.constructor | src/task.rs:107 | a new stream stands at the start of the line |
| LineCodec.CharStream.Next | src/task.rs:128 | `next` yields the next character and advances by one, or yields nothing at the end |
| LineCodec.CharStream.Peek | src/task.rs:129 | `peek` yields the first character not yet consumed, and nothing iff none is left |
| LineCodec.ParseDelimited | src/task.rs:125-145 | the buffer-pushing loop over the peekable stream returns exactly the field `ScanField` describes and leaves the stream where `ScanField` stops |
| TaskRecord.NewTask | src/task.rs:83-90 | a new task keeps the id, name and date and is not done |
| TaskRecord.SameTask | src/task.rs:172-176 | two tasks are equal iff their ids are |
| TaskRecord.SameTaskIsIdEquivalence | src/task.rs:172-176 | task equality is an equivalence that holds iff the ids are equal, whatever the name, date or done flag |
| TaskRecord.EncodeTaskShape | src/task.rs:92-100 | the line `EncodeTask` builds starts with the id and a delimiter and ends with a delimiter and the done text; it holds a line break iff the id or the name does |
| TaskRecord.DecodeFieldsMeaning | src/task.rs:116-122 | in `DecodeTask`, the date field is checked before the done field; success needs an `i64` and a `bool`, and keeps id and name as read with the date and flag they denote |
| TaskRecord.ParseTask | src/task.rs:106-123 | the four `parse_delimited` calls and the two conversions compute `DecodeTask`, including its failures |
| TaskRecord.LineSafeIffOneLine | src/task.rs:92-100 | a task's line holds no line break iff neither its id nor its name does |
| TaskRecord.LineBreakInNameCutsRecord | src/task.rs:92-100 | a task whose name holds a line break is written as two lines, the first ending inside the name |
| TaskRecord.CutLineFails | src/task.rs:116 | a line that ends inside the name has an empty date field, so `parse` fails |
| TaskRecord.I64TextIsPlain | src/task.rs:97 | the timestamp text holds no delimiter and does not end in `\` |
| TaskRecord.BoolTextIsPlain | src/task.rs:98 | the done text holds no delimiter and does not end in `\` |
| TaskRecord.TaskRoundTrip | src/task.rs:92-123 | a task with a plain id and a name not ending in `\` is read back with the same id, name, date seconds and done flag |
| TaskRecord.TrailingEscapeBreaksRoundTrip | src/task.rs:92-123 | every name ending in `\` breaks the round trip: `parse` fails on the done text that lands in the date field |
| TaskRecord.NameEndingInEscapeIsLost | src/task.rs:92-123 | the name `a\` is a concrete counterexample to the unrestricted round trip |
| TaskRecord.TextAfterDoneIgnored | src/task.rs:106-123 | text after the fourth delimiter is ignored |
| TaskRecord.ShortLineFails | src/task.rs:116-120 | a line with fewer than four fields fails, since the missing fields are empty |
| TaskRecord.DecodeTaskSucceedsIff | src/task.rs:116-122 | `parse`, modelled by `DecodeTask`, succeeds iff the third field is an `i64` and the fourth is `true` or `false`; id and name are then the first two fields |
| TaskManagement.FirstIndexOf | src/task.rs:41-46 | `get_index` finds the first task with the id, and finds none iff no task has it |
| TaskManagement.Pending | src/task.rs:29-31 | a task is unfinished-listed iff it is stored and not done |
| TaskManagement.PendingAppend | src/task.rs:29-31 | the filter keeps the stored relative order |
| TaskManagement.MarkFirstDone | src/task.rs:55-60 | `done` sets the flag of the first match only; ids, names and dates are kept, no flag is cleared, and nothing changes without a match |
| TaskManagement.RemoveFirst | src/task.rs:34-39 | `remove` deletes only the first match and keeps the others in order; nothing changes without a match |
| TaskManagement.AddKeepsIdsUnique | src/task.rs:49-52 | appending a task with an unused id keeps ids unique |
| TaskManagement.MarkFirstDoneKeepsIdsUnique | src/task.rs:55-60 | marking done keeps ids unique |
| TaskManagement.RemoveFirstKeepsIdsUnique | src/task.rs:34-39 | removing keeps ids unique |
| TaskManagement.RemoveFirstIdempotent | src/task.rs:34-39 | with unique ids, a second `remove` of the same id changes nothing |
| TaskManagement.MarkedTaskNotPending | src/task.rs:29-60 | with unique ids, a task marked done is no longer listed as unfinished |
| TaskManagement.EncodeTasks | src/task.rs:92-100 | the task file `EncodeTasks` builds holds one `to_string` record per task, in order |
| TaskManagement.DecodeEncodeTasks | src/task.rs:16-71 | `DecodeTasks` inverts `EncodeTasks`: tasks whose records round-trip and hold no line break are loaded back unchanged and in order after a sync |
| TaskManagement.LineBreakInNameIsNotReloaded | src/task.rs:92-123 | a task whose name holds a line break is not loaded back: the load fails on the empty date field of the cut line |
| TaskManagement.TaskStore.Read | src/task.rs:16-21 | reading parses every line in order and stops at the first bad one |
| TaskManagement.TaskStore.Write | src/task.rs:63-66 | a write is one attempt; it succeeds iff no fault occurs, and then the file holds the lines of the encoded tasks |
| TaskManagement.TaskManager.Load | src/task.rs:16-21 | `load` passes a parse failure on, and otherwise holds the tasks read, with `dirty` clear |
| TaskManagement.TaskManager.All | src/task.rs:24-26 | every task, in stored order |
| TaskManagement.TaskManager.Unfinished | src/task.rs:29-31 | exactly the tasks that are not done |
| TaskManagement.TaskManager.GetIndex | src/task.rs:41-46 | the first index whose id matches, or none iff no task matches |
| TaskManagement.TaskManager.Add | src/task.rs:49-52 | the task is appended at the end and `dirty` is set |
| TaskManagement.TaskManager.Done | src/task.rs:55-60 | the list becomes `MarkFirstDone`; `dirty` is set iff it was set or a match was found |
| TaskManagement.TaskManager.Remove | src/task.rs:34-39 | the list becomes `RemoveFirst`; `dirty` is set iff it was set or a match was found |
| TaskManagement.TaskManager.Sync | src/task.rs:63-71 | a clean sync writes nothing; a dirty sync writes once; success clears `dirty`, and a failed write keeps it set and is passed on |
| TodoRecord.DecodeItemFieldsMeaning | src/lib.rs:115-122 | in `DecodeItem`, the date field is checked before the done field; success needs RFC 2822 text and a `bool`, and keeps id, name and date text as read |
| TodoRecord.ParseItem | src/lib.rs:105-123 | the four `parse_delimited` calls and the two conversions compute `DecodeItem`, including its failures |
| TodoRecord.ItemRoundTrip | src/lib.rs:91-123 | an item with a plain id, a name not ending in `\` and a plain date text is read back with the same id, name, date and done flag |
| TodoRecord.ItemTextAfterDoneIgnored | src/lib.rs:105-123 | text after the fourth delimiter is ignored |
| TodoRecord.ItemTrailingEscapeBreaksRoundTrip | src/lib.rs:91-123 | a name ending in `\` breaks the round trip: the done text lands in the date field and the done field is empty |
| TodoRecord.DecodeItemSucceedsIff | src/lib.rs:115-122 | `parse`, modelled by `DecodeItem`, succeeds iff the third field is RFC 2822 text and the fourth is `true` or `false`, and then yields the first three fields |
| TodoRecord.EncodeItemShape | src/lib.rs:91-99 | the line `EncodeItem` builds starts with the id and a delimiter and ends with a delimiter and the done text; it holds a line break iff the id, the name or the date text does |
| TodoRecord.ItemLineSafeIffOneLine | src/lib.rs:91-99 | an item's line holds no line break iff its id, name and date text hold none |
| TodoRecord.ItemLineBreakInNameCutsRecord | src/lib.rs:91-99 | an item whose name holds a line break is written as two lines, the first ending inside the name |
| TodoRecord.CutItemLineFails | src/lib.rs:105-123 | a line that ends inside the name has empty date and done fields, so `parse` fails |
| TodoRecord.IsPm | src/lib.rs:72 | the suffix counts as `pm` iff it is two characters that lower-case to `p` and `m` |
| TodoRecord.ParseDate | src/lib.rs:67-89 | an accepted date has hour at most 23, minute at most 59, and a month and day that fit in a `u32` |
| TodoRecord.ParseDateParts | src/lib.rs:73-86 | an accepted date from the split pieces has hour at most 23, minute at most 59, and a month and day that fit in a `u32` |
| TodoRecord.ParsePartsOfValues | src/lib.rs:73-86 | pieces that parse as numbers give the hour plus 12 for `pm`, an overflow error past `u32`, then rejection of hours above 23 and minutes above 59, in that order |
| TodoRecord.DateTextSplits | src/lib.rs:70-74 | `M/D` with numerals splits into the two numerals |
| TodoRecord.ClockTextSplits | src/lib.rs:68-80 | `H:MM SUFFIX` with numerals splits at the space into the clock and the suffix, and the clock at the colon into the two numerals |
| TodoRecord.ParseDateOfNumerals | src/lib.rs:67-89 | on `M/D` and `H:MM SUFFIX` written with any numerals (leading zeros allowed, any hour), month, day and minute are their values; the hour gains 12 exactly for a `pm` suffix; an overflowing hour, hours above 23 and minutes above 59 are rejected |
| TodoRecord.DefaultTimeIsEndOfDay | src/main.rs:36 | the default `11:59 PM` gives 23:59 |
| TodoRecord.NoonPmRejected | src/lib.rs:75-86 | twelve o'clock (`12`, `012`, ...) with a `pm` suffix computes hour 24, which is rejected |
| TodoRecord.MidnightAmIsNoon | src/lib.rs:75-86 | twelve o'clock with any other suffix, `AM` included, gives hour 12 |
| TodoRecord.NoonOnNewYearRejected | src/lib.rs:75-86 | `12:00 PM` on `1/1` is rejected, and `12:00 AM` on it is read as noon |
| TodoRecord.ToLower | src/lib.rs:33 | on an ASCII character, `to_lowercase` lowers `A`–`Z` to the same letter in lower case and keeps every other character |
| TodoRecord.RandomId | src/lib.rs:24-34 | a random id is four characters, each a lower-case letter or a digit, each the sample or its lower-case form |
| TodoRecord.RandomIdIsPlain | src/lib.rs:24-34 | a random id survives the line codec, and lower-casing it again changes nothing |
| FileStore.EncodeItems | src/io.rs:73-85 | `EncodeItems` gives one `to_string` record per item, in order |
| FileStore.EncodeItemsAppend | src/io.rs:80-82 | the records of a list are those of its parts, in order |
| FileStore.WrittenItemsSnoc | src/io.rs:80-82 | each `writeln!` of the loop adds the lines of one more record after those already written |
| FileStore.DecodeEncodeItems | src/io.rs:29-85 | `DecodeItems` inverts `EncodeItems`: items whose records round-trip and hold no line break are read back unchanged after `write` |
| FileStore.LineBreakInItemNameIsNotReloaded | src/io.rs:29-85 | an item whose name holds a line break is not read back: the read fails on the cut line |
| FileStore.Updated | src/io.rs:51-57 | an item keeps its id; a match takes the new item's name, date and flag, anything else is left as it is |
| FileStore.UpdateMatching | src/io.rs:51-57 | every item with the id (all matches) takes the new name, date and done flag; the others, the length and the order are kept |
| FileStore.UpdateMatchingIdempotent | src/io.rs:48-61 | modifying twice with the same item equals modifying once |
| FileStore.WithoutId | src/io.rs:63-66 | an item is kept iff its id differs, and the result is never longer |
| FileStore.WithoutIdAppend | src/io.rs:63-66 | the filter keeps the original order |
| FileStore.WithoutAbsentId | src/io.rs:63-66 | removing an id nobody has keeps every item |
| FileStore.WithoutIdIdempotent | src/io.rs:63-66 | removing the same id twice equals removing it once |
| FileStore.DataFile.Read | src/io.rs:29-46 | the line-by-line loop computes `DecodeItems` |
| FileStore.DataFile.Write | src/io.rs:73-85 | the file holds exactly the lines cut from the written records afterwards |
| FileStore.DataFile.Append | src/io.rs:19-27 | existing lines are unchanged and the lines of the item's record are added at the end |
| FileStore.DataFile.Modify | src/io.rs:48-61 | a line that does not parse stops `modify` with its error and changes nothing; otherwise the file is rewritten with `UpdateMatching` of what was read |
| FileStore.DataFile.Remove | src/io.rs:63-71 | a line that does not parse stops `remove` with its error and changes nothing; otherwise the file is rewritten with `WithoutId` of what was read, even when nothing matched |
| FileStore.RemoveRewritesFile | src/io.rs:63-71 | removing an absent id still rewrites the file, dropping text that `parse` ignored |
| TodoCommands.NextId | src/lib.rs:36-46 | the id returned is the first draw that no item uses; none is returned only when every draw collides |
| TodoCommands.NewItem | src/lib.rs:57-65 | a line that does not parse stops `new` with its error; when every draw collides the ids are exhausted; otherwise a bad date fails with its reason, and a good one gives an item with the first free drawn id, the given name, the parsed date, not done |
| TodoCommands.DueAt | src/lib.rs:192 | an item is due at an instant iff it is in the list and its date denotes that instant |
| TodoCommands.InsertByDate | src/lib.rs:192 | insertion adds exactly the one item |
| TodoCommands.InsertKeepsSorted | src/lib.rs:192 | inserting into a sorted list keeps it sorted |
| TodoCommands.InsertKeepsDueOrder | src/lib.rs:192 | the inserted item goes before the items due at the same instant |
| TodoCommands.SortByDate | src/lib.rs:192 | `sort_by_key` yields a permutation ordered by date |
| TodoCommands.SortByDateIsStable | src/lib.rs:192 | items due at the same instant keep their relative order |
| TodoCommands.Visible | src/lib.rs:193-197 | an item is printed iff it is not done or `all` is set |
| TodoCommands.VisibleAppend | src/lib.rs:193-197 | printing follows the sorted order |
| TodoCommands.VisibleKeepsOrder | src/lib.rs:192-197 | what is printed stays sorted by date |
| TodoCommands.VisibleAll | src/lib.rs:193-197 | with `all`, every item is printed |
| TodoCommands.List | src/lib.rs:185-200 | a line that does not parse stops `list` with its error (the source panics inside `read`); otherwise exactly the shown items are printed, in date order |
| TodoCommands.ListSelection | src/lib.rs:185-200 | what `list` prints is sorted by date, is exactly the shown items, and with `all` is every item read |
| TodoCommands.FindItem | src/lib.rs:211 | `find` yields the first item with the id, and none iff no item has it |
| TodoCommands.Done | src/lib.rs:210-214 | a line that does not parse or a missing id stops `done` (the source panics in an `unwrap`) and leaves the file unchanged; otherwise every item with the id is rewritten from the first match with `done` set |
| TodoCommands.DoneMarksEveryMatch | src/lib.rs:210-214 | after `done`, every item with the id is done and carries the first match's name and date; other items are unchanged |

## Left out

- Real file handling is left out: `user_path` and `$HOME`, the `File::options` flags, `BufWriter` flushing, and every I/O error of `src/io.rs`. The data file is a sequence of lines.
- The module that `src/task.rs` uses for reading and writing is not part of this model. `TaskStore` stands in for it with the line format of `src/io.rs`, and a write failure is the parameter `fault`.
- `TaskManagement.TaskStore.Write`: a task whose name holds a line break is written as several lines and is not loaded back (`LineBreakInNameIsNotReloaded`), so `DecodeEncodeTasks` requires `LineSafe`. `LineSafe` excludes a line break in the id as well; what the load makes of such a cut id is not stated by a lemma. The `\r` that `BufRead::lines` strips before a line break is not modelled; it can only occur inside such a cut record.
- `FileStore.DataFile.Write`: an item whose id, name or date text holds a line break is written as several lines and is not read back (`LineBreakInItemNameIsNotReloaded`), so `DecodeEncodeItems` requires `ItemLineSafe`. The `\r` stripping of `BufRead::lines` is not modelled.
- `FileStore.DataFile.Append`: the same cut happens to an appended record with a line break; the `\r` stripping is not modelled.
- Dates: chrono's RFC 2822 formatting and parsing are left out. The recogniser is the parameter `isDate`, and a `TodoItem` date is its text.
- `TodoRecord.ItemRoundTrip`: shown for the date text, not for the date-time value. Re-printing a parsed date in the local time zone is chrono's behaviour and is left out.
- `NaiveDateTime::from_timestamp` and its range panic for huge timestamps are left out. A `Task` date is the `i64` second count.
- `TaskRecord.TaskRoundTrip`: holds for the second count the line stores. A sub-second part of a `NaiveDateTime` is not modelled; the source drops it on writing, so it is lost on reload.
- `TodoRecord.ParseDate`: omits `Local::now()` and the calendar checks of `with_month` and `with_day`, which depend on the current date. It keeps the rejection of hours above 23 and minutes above 59.
- `TodoRecord.ParseDate`: assumes a debug build, so the `u32` overflow of `12 + H` is the error `HourOverflow`. Release-mode wrap-around is not modelled.
- `TodoCommands.NextId`: bounded by the finite `draws` it is given. Where the source would keep drawing, it returns `None`.
- `TodoRecord.ToLower`: `to_lowercase` of a non-ASCII character (`É` to `é`, `Σ` to `σ`, and characters that lower-case to several) is not modelled. Ids are lowered from ASCII draws only; in `IsPm` no non-ASCII character lower-cases to `p` or `m`, so its answer is unaffected.
- `TodoRecord.RandomId`: the `rand` entropy source is left out. The draws are a parameter, each required to be four `Alphanumeric` characters.
- `TodoCommands.NewItem`: what chrono makes of the calendar fields is the parameter `stamp`.
- `TodoCommands.List`: the printing is left out: the header, `pretty`, ANSI colours and column widths. The result is the items printed. `get_term_width`, an `ioctl`, is left out too.
- The `add` and `remove` commands of `src/lib.rs` are left out. They only call `TodoItem::new` with `io::append`, and `io::remove`, which are modelled.
- `src/main.rs` (argument parsing and dispatch) and `src/util.rs` are left out.
- Concurrent access to the data file by several processes is left out.
