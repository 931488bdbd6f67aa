/** The commands of the older generation (src/lib.rs): choosing a fresh id,
    building a new item, and the selection logic of `list` and `done`. */
module TodoCommands {
  import opened Outcomes
  import opened TodoRecord
  import opened FileStore
  import opened LineCodec

  /** Some item already uses the id. */
  predicate IdTaken(items: seq<TodoItem>, id: string)
  {
    exists k :: 0 <= k < |items| && items[k].id == id
  }

  /** `next_id` on the items it read and the draws `get_random_id` makes: the
      first drawn id that no item uses. The draws are finite, so where the
      source would go on drawing the model answers `None`. */
  method NextId(items: seq<TodoItem>, draws: seq<seq<char>>) returns (r: Option<string>)
    requires forall k :: 0 <= k < |draws| ==> IsDraw(draws[k])
    ensures r.Some? ==> !IdTaken(items, r.value) && |r.value| == 4
    ensures r.Some? ==> exists k :: 0 <= k < |draws| && r.value == RandomId(draws[k]) &&
                                  forall j :: 0 <= j < k ==> IdTaken(items, RandomId(draws[j]))
    ensures r.None? <==> forall k :: 0 <= k < |draws| ==> IdTaken(items, RandomId(draws[k]))
  {
    if |draws| == 0 {
      return None;
    }
    var i := 0;
    var id := RandomId(draws[0]);
    while exists k :: 0 <= k < |items| && items[k].id == id
      invariant 0 <= i < |draws| && id == RandomId(draws[i])
      invariant forall j :: 0 <= j < i ==> IdTaken(items, RandomId(draws[j]))
      decreases |draws| - i
    {
      if i + 1 == |draws| {
        return None;
      }
      i := i + 1;
      id := RandomId(draws[i]);
    }
    r := Some(id);
  }

  /** Some draw gives an id that no item uses. */
  predicate SomeDrawFree(items: seq<TodoItem>, draws: seq<seq<char>>)
    requires forall k :: 0 <= k < |draws| ==> IsDraw(draws[k])
  {
    exists k :: 0 <= k < |draws| && !IdTaken(items, RandomId(draws[k]))
  }

  /** Why a command gives up. */
  datatype CommandError =
    | ReadFailed(cause: ItemError)
    | IdsExhausted
    | DateFailed(reason: DateError)
    | NoSuchItem(id: string)

  /** `TodoItem::new`: a fresh id from `next_id` (which reads the file), the
      name, and the due date `parse_date` gives; the item starts unfinished.
      `stamp` stands for what chrono makes of the calendar fields (applied to
      the current local time, then printed as RFC 2822 text). */
  method NewItem(file: DataFile, name: string, date: string, time: string, draws: seq<seq<char>>,
                 isDate: string -> bool, stamp: WallTime -> string) returns (r: Result<TodoItem, CommandError>)
    requires forall k :: 0 <= k < |draws| ==> IsDraw(draws[k])
    ensures DecodeItems(file.lines, isDate).Err? ==> r == Err(ReadFailed(DecodeItems(file.lines, isDate).error))
    ensures r.Ok? ==> DecodeItems(file.lines, isDate).Ok? && !IdTaken(DecodeItems(file.lines, isDate).value, r.value.id)
    ensures r.Ok? ==> ParseDate(date, time).Ok? && r.value.date == stamp(ParseDate(date, time).value)
    ensures r.Ok? ==> r.value.name == name && !r.value.done
    ensures DecodeItems(file.lines, isDate).Ok? && !SomeDrawFree(DecodeItems(file.lines, isDate).value, draws) ==>
      r == Err(IdsExhausted)
    ensures DecodeItems(file.lines, isDate).Ok? && SomeDrawFree(DecodeItems(file.lines, isDate).value, draws) &&
            ParseDate(date, time).Err? ==>
      r == Err(DateFailed(ParseDate(date, time).error))
    ensures DecodeItems(file.lines, isDate).Ok? && SomeDrawFree(DecodeItems(file.lines, isDate).value, draws) &&
            ParseDate(date, time).Ok? ==>
      r.Ok?
    ensures r.Ok? ==> exists k :: 0 <= k < |draws| && r.value.id == RandomId(draws[k]) &&
                        forall j :: 0 <= j < k ==> IdTaken(DecodeItems(file.lines, isDate).value, RandomId(draws[j]))
  {
    var read := file.Read(isDate);
    if read.Err? {
      return Err(ReadFailed(read.error));
    }
    var id := NextId(read.value, draws);
    if id.None? {
      return Err(IdsExhausted);
    }
    var when := ParseDate(date, time);
    if when.Err? {
      return Err(DateFailed(when.error));
    }
    r := Ok(TodoItem(id.value, false, name, stamp(when.value)));
  }

  // ----- `list` -----

  /** `sort_by_key(|a| a.date)`: `key` gives the instant a date text denotes. */
  predicate SortedByDate(items: seq<TodoItem>, key: string -> int)
  {
    forall i, j :: 0 <= i < j < |items| ==> key(items[i].date) <= key(items[j].date)
  }

  /** The items due at one instant, in their order. */
  function DueAt(items: seq<TodoItem>, key: string -> int, t: int): (r: seq<TodoItem>)
    ensures forall x :: x in r <==> x in items && key(x.date) == t
  {
    if items == [] then []
    else if key(items[0].date) == t then [items[0]] + DueAt(items[1..], key, t)
    else DueAt(items[1..], key, t)
  }

  /** Put `x` before the first item due no earlier than it. */
  function InsertByDate(x: TodoItem, items: seq<TodoItem>, key: string -> int): (r: seq<TodoItem>)
    ensures |r| == |items| + 1
    ensures multiset(r) == multiset(items) + multiset{x}
    ensures r[0] == x || (items != [] && r[0] == items[0])
  {
    if items == [] || key(x.date) <= key(items[0].date) then
      [x] + items
    else
      assert items == [items[0]] + items[1..];
      [items[0]] + InsertByDate(x, items[1..], key)
  }

  /** Inserting into a sorted list keeps it sorted. */
  lemma {:induction false} InsertKeepsSorted(x: TodoItem, items: seq<TodoItem>, key: string -> int)
    requires SortedByDate(items, key)
    ensures SortedByDate(InsertByDate(x, items, key), key)
  {
    if items != [] && key(x.date) > key(items[0].date) {
      var rest := InsertByDate(x, items[1..], key);
      InsertKeepsSorted(x, items[1..], key);
      assert key(items[0].date) <= key(rest[0].date);
    }
  }

  /** Inserting puts `x` before every item due at the same instant. */
  lemma {:induction false} InsertKeepsDueOrder(x: TodoItem, items: seq<TodoItem>, key: string -> int, t: int)
    ensures DueAt(InsertByDate(x, items, key), key, t) == (if key(x.date) == t then [x] else []) + DueAt(items, key, t)
  {
    if items == [] || key(x.date) <= key(items[0].date) {
      assert ([x] + items)[1..] == items;
    } else {
      var rest := InsertByDate(x, items[1..], key);
      assert ([items[0]] + rest)[1..] == rest;
      InsertKeepsDueOrder(x, items[1..], key, t);
      if key(items[0].date) == t {
        Associative([items[0]], [], DueAt(items[1..], key, t));
      }
    }
  }

  /** `sort_by_key`: an ordered permutation of the input. */
  function SortByDate(items: seq<TodoItem>, key: string -> int): (r: seq<TodoItem>)
    ensures SortedByDate(r, key)
    ensures multiset(r) == multiset(items)
  {
    if items == [] then []
    else
      assert items == [items[0]] + items[1..];
      InsertKeepsSorted(items[0], SortByDate(items[1..], key), key);
      InsertByDate(items[0], SortByDate(items[1..], key), key)
  }

  /** The sort is stable: items due at the same instant keep their order. */
  lemma {:induction false} SortByDateIsStable(items: seq<TodoItem>, key: string -> int, t: int)
    ensures DueAt(SortByDate(items, key), key, t) == DueAt(items, key, t)
  {
    if items != [] {
      SortByDateIsStable(items[1..], key, t);
      InsertKeepsDueOrder(items[0], SortByDate(items[1..], key), key, t);
    }
  }

  /** An item `list` prints: unfinished ones, or every one with `all`. */
  predicate Shown(x: TodoItem, all: bool)
  {
    !x.done || all
  }

  /** The items `list` prints, in the order it meets them. */
  function Visible(items: seq<TodoItem>, all: bool): (r: seq<TodoItem>)
    ensures forall x :: x in r <==> x in items && Shown(x, all)
  {
    if items == [] then []
    else if Shown(items[0], all) then [items[0]] + Visible(items[1..], all)
    else Visible(items[1..], all)
  }

  lemma {:induction false} VisibleAppend(a: seq<TodoItem>, b: seq<TodoItem>, all: bool)
    ensures Visible(a + b, all) == Visible(a, all) + Visible(b, all)
  {
    if a == [] {
      assert a + b == b;
    } else {
      assert (a + b)[0] == a[0] && (a + b)[1..] == a[1..] + b;
      VisibleAppend(a[1..], b, all);
      if Shown(a[0], all) {
        Associative([a[0]], Visible(a[1..], all), Visible(b, all));
      }
    }
  }

  lemma VisibleSnoc(items: seq<TodoItem>, i: nat, all: bool)
    requires i < |items|
    ensures Visible(items[..i + 1], all) == Visible(items[..i], all) + if Shown(items[i], all) then [items[i]] else []
  {
    assert items[..i + 1] == items[..i] + [items[i]];
    VisibleAppend(items[..i], [items[i]], all);
  }

  /** Leaving items out keeps a sorted list sorted. */
  lemma {:induction false} VisibleKeepsOrder(items: seq<TodoItem>, all: bool, key: string -> int)
    requires SortedByDate(items, key)
    ensures SortedByDate(Visible(items, all), key)
  {
    if items != [] {
      VisibleKeepsOrder(items[1..], all, key);
      var rest := Visible(items[1..], all);
      forall y | y in rest
        ensures key(items[0].date) <= key(y.date)
      {
      }
    }
  }

  /** With `all`, every item is printed. */
  lemma {:induction false} VisibleAll(items: seq<TodoItem>)
    ensures Visible(items, true) == items
  {
    if items != [] {
      VisibleAll(items[1..]);
    }
  }

  /** `list`: read, sort by date, and print the shown items in that order.
      The printed lines are left out; the result is the items printed. */
  method List(file: DataFile, all: bool, isDate: string -> bool, key: string -> int)
    returns (r: Result<seq<TodoItem>, ItemError>)
    ensures DecodeItems(file.lines, isDate).Err? ==> r == Err(DecodeItems(file.lines, isDate).error)
    ensures DecodeItems(file.lines, isDate).Ok? ==>
      r == Ok(Visible(SortByDate(DecodeItems(file.lines, isDate).value, key), all))
  {
    var read := file.Read(isDate);
    if read.Err? {
      return Err(read.error);
    }
    var items := SortByDate(read.value, key);
    var shown: seq<TodoItem> := [];
    for i := 0 to |items|
      invariant shown == Visible(items[..i], all)
    {
      VisibleSnoc(items, i, all);
      if Shown(items[i], all) {
        shown := shown + [items[i]];
      }
    }
    assert items[..|items|] == items;
    r := Ok(shown);
  }

  /** What `list` prints is ordered by due date, is exactly the shown items,
      and with `all` is every item read. */
  lemma ListSelection(items: seq<TodoItem>, all: bool, key: string -> int)
    ensures SortedByDate(Visible(SortByDate(items, key), all), key)
    ensures forall x :: x in Visible(SortByDate(items, key), all) <==> x in items && Shown(x, all)
    ensures all ==> multiset(Visible(SortByDate(items, key), all)) == multiset(items)
  {
    var sorted := SortByDate(items, key);
    VisibleKeepsOrder(sorted, all, key);
    VisibleAll(sorted);
    forall x
      ensures x in sorted <==> x in items
    {
      assert x in sorted <==> x in multiset(sorted);
    }
  }

  // ----- `done` -----

  /** The position of the first item with the id (`find`). */
  function FindItem(items: seq<TodoItem>, id: string): (r: Option<nat>)
    ensures r.Some? ==> r.value < |items| && items[r.value].id == id
    ensures r.Some? ==> forall j :: 0 <= j < r.value ==> items[j].id != id
    ensures r.None? <==> !IdTaken(items, id)
  {
    if items == [] then None
    else if items[0].id == id then Some(0)
    else match FindItem(items[1..], id)
      case None => None
      case Some(i) => Some(i + 1)
  }

  /** `done`: read, take a copy of the first item with the id, set its flag,
      and `modify` the file with it; a failed read or a missing id gives up
      and the file is not touched. */
  method Done(file: DataFile, id: string, isDate: string -> bool) returns (r: Outcome<CommandError>)
    modifies file
    ensures DecodeItems(old(file.lines), isDate).Err? ==>
      r == Fail(ReadFailed(DecodeItems(old(file.lines), isDate).error)) && file.lines == old(file.lines)
    ensures DecodeItems(old(file.lines), isDate).Ok? && !IdTaken(DecodeItems(old(file.lines), isDate).value, id) ==>
      r == Fail(NoSuchItem(id)) && file.lines == old(file.lines)
    ensures DecodeItems(old(file.lines), isDate).Ok? && IdTaken(DecodeItems(old(file.lines), isDate).value, id) ==>
      var items := DecodeItems(old(file.lines), isDate).value;
      var first := items[FindItem(items, id).value];
      r == Pass && file.lines == WrittenLines(EncodeItems(UpdateMatching(items, first.(done := true))))
  {
    var read := file.Read(isDate);
    if read.Err? {
      return Fail(ReadFailed(read.error));
    }
    var found := FindItem(read.value, id);
    if found.None? {
      return Fail(NoSuchItem(id));
    }
    var replacement := read.value[found.value].(done := true);
    var modified := file.Modify(replacement, isDate);
    r := Pass;
  }

  /** After `done`, every item with the id is done and carries the name and
      date of the first one, because `modify` rewrites all matches. */
  lemma DoneMarksEveryMatch(items: seq<TodoItem>, id: string)
    requires IdTaken(items, id)
    ensures var first := items[FindItem(items, id).value];
      forall k :: 0 <= k < |items| && items[k].id == id ==>
        var after := UpdateMatching(items, first.(done := true))[k];
        after.done && after.name == first.name && after.date == first.date
    ensures forall k :: 0 <= k < |items| && items[k].id != id ==>
      UpdateMatching(items, items[FindItem(items, id).value].(done := true))[k] == items[k]
  {
  }
}
