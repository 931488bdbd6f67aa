/** The data file of the older generation (src/io.rs), as the sequence of its
    lines: `read` parses every line, `write` replaces the lines, `append` adds
    one, and `modify` and `remove` read, transform and write back. */
module FileStore {
  import opened Outcomes
  import opened StdText
  import opened LineCodec
  import opened TodoRecord

  /** The lines `write` produces: one `to_string` line per item, in order. */
  function EncodeItems(items: seq<TodoItem>): (lines: seq<string>)
    ensures |lines| == |items|
    ensures forall k :: 0 <= k < |items| ==> lines[k] == EncodeItem(items[k])
  {
    if items == [] then [] else [EncodeItem(items[0])] + EncodeItems(items[1..])
  }

  /** `TodoItem::parse` as the parser of one line. */
  function ItemParser(isDate: string -> bool): string -> Result<TodoItem, ItemError>
  {
    line => DecodeItem(line, isDate)
  }

  /** What `read` makes of the lines `BufRead::lines` yields: every line
      parsed in order; the first bad line fails the whole read (the source
      panics there). */
  function DecodeItems(lines: seq<string>, isDate: string -> bool): Result<seq<TodoItem>, ItemError>
  {
    ReadLines(lines, ItemParser(isDate))
  }

  /** Writing one more item adds the lines of its record after those already
      written. */
  lemma WrittenItemsSnoc(items: seq<TodoItem>, i: nat)
    requires i < |items|
    ensures WrittenLines(EncodeItems(items[..i + 1])) ==
            WrittenLines(EncodeItems(items[..i])) + WrittenLines([EncodeItem(items[i])])
  {
    assert items[..i + 1] == items[..i] + [items[i]];
    EncodeItemsAppend(items[..i], [items[i]]);
    assert EncodeItems([items[i]]) == [EncodeItem(items[i])];
    WrittenLinesAppend(EncodeItems(items[..i]), [EncodeItem(items[i])]);
  }

  /** Encoding works item by item. */
  lemma {:induction false} EncodeItemsAppend(a: seq<TodoItem>, b: seq<TodoItem>)
    ensures EncodeItems(a + b) == EncodeItems(a) + EncodeItems(b)
  {
    if a == [] {
      assert a + b == b;
    } else {
      assert (a + b)[0] == a[0] && (a + b)[1..] == a[1..] + b;
      EncodeItemsAppend(a[1..], b);
      Associative([EncodeItem(a[0])], EncodeItems(a[1..]), EncodeItems(b));
    }
  }

  /** Items whose records round-trip and stay on one line each are read back
      unchanged, and in order, after `write`. */
  lemma DecodeEncodeItems(items: seq<TodoItem>, isDate: string -> bool)
    requires forall k :: 0 <= k < |items| ==> ItemEncodable(items[k], isDate) && ItemLineSafe(items[k])
    ensures DecodeItems(WrittenLines(EncodeItems(items)), isDate) == Ok(items)
  {
    var lines := EncodeItems(items);
    forall k | 0 <= k < |items|
      ensures ItemParser(isDate)(lines[k]) == Ok(items[k]) && LINE_BREAK !in lines[k]
    {
      ItemRoundTrip(items[k], isDate);
      ItemLineSafeIffOneLine(items[k]);
    }
    WrittenLinesOfSingleLines(lines);
    ReadEveryLine(lines, items, ItemParser(isDate));
  }

  /** A name with a line break is not read back: its record is cut into two
      lines, and the first of them ends inside the name, so its date field is
      empty and the read fails. */
  lemma LineBreakInItemNameIsNotReloaded(x: TodoItem, a: string, b: string, isDate: string -> bool)
    requires Plain(x.id) && LINE_BREAK !in x.id && LINE_BREAK !in x.date
    requires x.name == a + [LINE_BREAK] + b && DELIMITER !in a && LINE_BREAK !in a && LINE_BREAK !in b
    ensures DecodeItems(WrittenLines(EncodeItems([x])), isDate) ==
            if isDate([]) then Err(BadDone([])) else Err(BadDate([]))
  {
    ItemLineBreakInNameCutsRecord(x, a, b);
    var first := x.id + [DELIMITER] + a;
    var second := Escape(b) + [DELIMITER] + x.date + [DELIMITER] + BoolText(x.done);
    assert EncodeItems([x]) == [EncodeItem(x)];
    CutItemLineFails(x.id, a, isDate);
    assert [first, second][..1] == [first];
    ReadLinesFailedPrefix([first, second], 1, ItemParser(isDate));
  }

  /** The body of `modify`'s loop for one item: a match takes the new name,
      date and done flag. */
  function Updated(x: TodoItem, replacement: TodoItem): (r: TodoItem)
    ensures r.id == x.id
    ensures x.id == replacement.id ==> r == replacement
    ensures x.id != replacement.id ==> r == x
  {
    if x.id == replacement.id then x.(name := replacement.name, date := replacement.date, done := replacement.done) else x
  }

  /** `modify`'s transformation: every item with the id of `replacement` (all of
      them, not only the first) becomes `replacement`; the others, the length and the
      order stay as they were. */
  function UpdateMatching(items: seq<TodoItem>, replacement: TodoItem): (r: seq<TodoItem>)
    ensures |r| == |items|
    ensures forall k :: 0 <= k < |items| ==> r[k].id == items[k].id
    ensures forall k :: 0 <= k < |items| && items[k].id == replacement.id ==> r[k] == replacement
    ensures forall k :: 0 <= k < |items| && items[k].id != replacement.id ==> r[k] == items[k]
  {
    if items == [] then [] else [Updated(items[0], replacement)] + UpdateMatching(items[1..], replacement)
  }

  /** Modifying twice with the same item is the same as modifying once. */
  lemma UpdateMatchingIdempotent(items: seq<TodoItem>, replacement: TodoItem)
    ensures UpdateMatching(UpdateMatching(items, replacement), replacement) == UpdateMatching(items, replacement)
  {
  }

  /** `remove`'s filter: every item with the id is dropped, the rest kept. */
  function WithoutId(items: seq<TodoItem>, id: string): (r: seq<TodoItem>)
    ensures |r| <= |items|
    ensures forall x :: x in r <==> x in items && x.id != id
  {
    if items == [] then []
    else if items[0].id == id then WithoutId(items[1..], id)
    else [items[0]] + WithoutId(items[1..], id)
  }

  /** The filter keeps the original order: it works piece by piece. */
  lemma {:induction false} WithoutIdAppend(a: seq<TodoItem>, b: seq<TodoItem>, id: string)
    ensures WithoutId(a + b, id) == WithoutId(a, id) + WithoutId(b, id)
  {
    if a == [] {
      assert a + b == b;
    } else {
      assert (a + b)[0] == a[0] && (a + b)[1..] == a[1..] + b;
      WithoutIdAppend(a[1..], b, id);
      if a[0].id != id {
        Associative([a[0]], WithoutId(a[1..], id), WithoutId(b, id));
      }
    }
  }

  /** Removing an id nobody has keeps every item. */
  lemma {:induction false} WithoutAbsentId(items: seq<TodoItem>, id: string)
    requires forall k :: 0 <= k < |items| ==> items[k].id != id
    ensures WithoutId(items, id) == items
  {
    if items != [] {
      WithoutAbsentId(items[1..], id);
    }
  }

  /** Removing the same id twice is the same as removing it once. */
  lemma WithoutIdIdempotent(items: seq<TodoItem>, id: string)
    ensures WithoutId(WithoutId(items, id), id) == WithoutId(items, id)
  {
    var r := WithoutId(items, id);
    forall k | 0 <= k < |r|
      ensures r[k].id != id
    {
      assert r[k] in r;
    }
    WithoutAbsentId(r, id);
  }

  class DataFile {
    /** The lines of the data file. */
    var lines: seq<string>

    constructor (initial: seq<string>)
      ensures lines == initial
    {
      lines := initial;
    }

    /** `read`: parse every line into an item, stopping at the first bad one. */
    method Read(isDate: string -> bool) returns (r: Result<seq<TodoItem>, ItemError>)
      ensures r == DecodeItems(lines, isDate)
    {
      var items: seq<TodoItem> := [];
      var i := 0;
      while i < |lines|
        invariant 0 <= i <= |lines|
        invariant DecodeItems(lines[..i], isDate) == Ok(items)
      {
        assert lines[..i + 1][..i] == lines[..i];
        var x := ParseItem(lines[i], isDate);
        if x.Err? {
          ReadLinesFailedPrefix(lines, i + 1, ItemParser(isDate));
          return Err(x.error);
        }
        items := items + [x.value];
        i := i + 1;
      }
      assert lines[..i] == lines;
      r := Ok(items);
    }

    /** `write`: truncate the file, then one `writeln!` per item; the file
        then holds the lines `BufRead::lines` cuts from those records. */
    method Write(items: seq<TodoItem>)
      modifies this
      ensures lines == WrittenLines(EncodeItems(items))
    {
      lines := [];
      for i := 0 to |items|
        invariant lines == WrittenLines(EncodeItems(items[..i]))
      {
        WrittenItemsSnoc(items, i);
        lines := lines + WrittenLines([EncodeItem(items[i])]);
      }
      assert items[..|items|] == items;
    }

    /** `append`: one `writeln!` of the item's record at the end of the file. */
    method Append(item: TodoItem)
      modifies this
      ensures lines == old(lines) + WrittenLines([EncodeItem(item)])
    {
      lines := lines + WrittenLines([EncodeItem(item)]);
    }

    /** `modify`: read, give every item with the id of `replacement` its name, date and
        done flag, and write everything back; a failed read changes nothing. */
    method Modify(replacement: TodoItem, isDate: string -> bool) returns (r: Outcome<ItemError>)
      modifies this
      ensures DecodeItems(old(lines), isDate).Err? ==>
        r == Fail(DecodeItems(old(lines), isDate).error) && lines == old(lines)
      ensures DecodeItems(old(lines), isDate).Ok? ==>
        r == Pass && lines == WrittenLines(EncodeItems(UpdateMatching(DecodeItems(old(lines), isDate).value, replacement)))
    {
      var read := Read(isDate);
      if read.Err? {
        return Fail(read.error);
      }
      var items := read.value;
      for i := 0 to |items|
        invariant |items| == |read.value|
        invariant forall k :: 0 <= k < i ==> items[k] == Updated(read.value[k], replacement)
        invariant forall k :: i <= k < |items| ==> items[k] == read.value[k]
      {
        if items[i].id == replacement.id {
          items := items[i := items[i].(name := replacement.name, date := replacement.date, done := replacement.done)];
        }
      }
      assert items == UpdateMatching(read.value, replacement);
      Write(items);
      r := Pass;
    }

    /** `remove`: read, drop every item with the id and write the rest back;
        the file is rewritten even when nothing matched. */
    method Remove(id: string, isDate: string -> bool) returns (r: Outcome<ItemError>)
      modifies this
      ensures DecodeItems(old(lines), isDate).Err? ==>
        r == Fail(DecodeItems(old(lines), isDate).error) && lines == old(lines)
      ensures DecodeItems(old(lines), isDate).Ok? ==>
        r == Pass && lines == WrittenLines(EncodeItems(WithoutId(DecodeItems(old(lines), isDate).value, id)))
    {
      var read := Read(isDate);
      if read.Err? {
        return Fail(read.error);
      }
      Write(WithoutId(read.value, id));
      r := Pass;
    }
  }

  /** Removing an id that no item has still rewrites the file: the result is
      the lines re-encoded from what was read, which drops whatever `parse`
      ignored (here, text after the fourth field). */
  method RemoveRewritesFile(x: TodoItem, extra: string, isDate: string -> bool)
    returns (before: seq<string>, after: seq<string>)
    requires ItemEncodable(x, isDate) && ItemLineSafe(x)
    ensures before == [EncodeItem(x) + [DELIMITER] + extra]
    ensures after == [EncodeItem(x)]
  {
    var file := new DataFile([EncodeItem(x) + [DELIMITER] + extra]);
    before := file.lines;
    ItemTextAfterDoneIgnored(x, extra, isDate);
    ReadEveryLine(file.lines, [x], ItemParser(isDate));
    var removed := file.Remove(x.id + "0", isDate);
    assert WithoutId([x], x.id + "0") == [x];
    assert EncodeItems([x]) == [EncodeItem(x)];
    ItemLineSafeIffOneLine(x);
    WrittenLinesOfSingleLines([EncodeItem(x)]);
    after := file.lines;
  }
}
