/** The history list element: the rows it shows and the operations that first
    rewrite the persisted list in the store and then bring the rows in line. */
module HistoryComponent {
  import opened HistoryList
  import opened HistoryCsv
  import opened CssSelector

  /** A rendered `<li>`: its `data-value` key and the text of its comment span. */
  datatype Row = Row(key: string, comment: string)

  function RowOf(r: Record): Row {
    Row(r.item, r.comment)
  }

  /** The rows `#renderHistoryList` produces for a list: one per record, in
      list order, keyed by the record's item. */
  function Render(h: seq<Record>): (rows: seq<Row>)
    ensures |rows| == |h|
  {
    seq(|h|, i requires 0 <= i < |h| => RowOf(h[i]))
  }

  /** Rows rendered from a list without duplicates have distinct keys, so the
      first row with a key is the only one, and it sits where its record does. */
  lemma RenderKeys(h: seq<Record>, key: string)
    ensures forall i :: 0 <= i < |h| ==> Render(h)[i].key == h[i].item
    ensures Find(h, key).None? <==> forall i :: 0 <= i < |h| ==> Render(h)[i].key != key
    ensures Distinct(h) ==>
      forall i, j :: 0 <= i < j < |h| ==> Render(h)[i].key != Render(h)[j].key
  {
  }

  /** `querySelector(...).remove()` on a lookup that compares keys exactly:
      the first row with the key is gone, every other row keeps its place. */
  function DropRow(rows: seq<Row>, key: string): (r: seq<Row>)
    ensures forall x :: x in r ==> x in rows
    ensures |r| == if exists j :: 0 <= j < |rows| && rows[j].key == key then |rows| - 1 else |rows|
  {
    if rows == [] then []
    else if rows[0].key == key then rows[1..]
    else [rows[0]] + DropRow(rows[1..], key)
  }

  lemma {:induction false} DropRowAt(rows: seq<Row>, key: string, i: nat)
    requires i < |rows| && rows[i].key == key
    requires forall j :: 0 <= j < i ==> rows[j].key != key
    ensures DropRow(rows, key) == rows[..i] + rows[i + 1..]
  {
    if i > 0 {
      DropRowAt(rows[1..], key, i - 1);
      assert rows[1..][..i - 1] == rows[1..i];
      assert rows[1..][i..] == rows[i + 1..];
      assert rows[..i] == [rows[0]] + rows[1..i];
    }
  }

  lemma {:induction false} DropRowAbsent(rows: seq<Row>, key: string)
    requires forall j :: 0 <= j < |rows| ==> rows[j].key != key
    ensures DropRow(rows, key) == rows
  {
    if rows != [] {
      DropRowAbsent(rows[1..], key);
      assert rows == [rows[0]] + rows[1..];
    }
  }

  /** Rendering commutes with cutting one record out of the list. */
  lemma RenderSplice(h: seq<Record>, i: nat)
    requires i < |h|
    ensures Render(h[..i] + h[i + 1..]) == Render(h)[..i] + Render(h)[i + 1..]
  {
    var lhs := Render(h[..i] + h[i + 1..]);
    var rhs := Render(h)[..i] + Render(h)[i + 1..];
    assert |lhs| == |rhs|;
    forall k | 0 <= k < |lhs|
      ensures lhs[k] == rhs[k]
    {
      if k < i {
        assert lhs[k] == RowOf(h[k]);
      } else {
        assert lhs[k] == RowOf(h[k + 1]);
      }
    }
  }

  /** On rows rendered from a list without duplicates, dropping the row with a
      key gives the rendering of the list with that key filtered out. */
  lemma DropRowMirrorsFilter(h: seq<Record>, key: string)
    requires Distinct(h)
    ensures DropRow(Render(h), key) == Render(Filter(h, key))
  {
    match Find(h, key)
    case None =>
      FilterAbsent(h, key);
      DropRowAbsent(Render(h), key);
    case Some(i) =>
      FilterDistinctAt(h, key, i);
      DropRowAt(Render(h), key, i);
      RenderSplice(h, i);
  }

  /** The element's state: the stored list and the rendered rows. */
  datatype View = View(stored: seq<Record>, rows: seq<Row>)

  /** `remove(key)` as written: the store takes the filtered list, and the row
      the unescaped selector selects is dropped. When the selector reads as a
      single `data-value` equality, that is the first row with the value read;
      otherwise no row is dropped. The records left are those of other keys,
      and the rows only ever lose one row they had. */
  function RemoveAsWritten(v: View, key: string, readOk: bool, writeOk: bool): (r: View)
    ensures forall x :: x in r.stored <==>
              x in v.stored && (x.item != key || key == "" || !readOk || !writeOk)
    ensures forall x :: x in r.rows ==> x in v.rows
    ensures |v.rows| - 1 <= |r.rows| <= |v.rows|
  {
    if key == "" || !readOk || !writeOk then v
    else View(Filter(v.stored, key),
              match ReadSelector(key)
              case AttributeEquals(value) => DropRow(v.rows, value)
              case OtherSelector => v.rows)
  }

  /** As written, removing the item `a"b` empties the store while its row, the
      only one shown, stays on screen: the rows no longer mirror the store. */
  lemma QuotedKeyRowSurvivesRemove()
    ensures var key := "a\"b";
      var before := View([Record(key, "")], [Row(key, "")]);
      var after := RemoveAsWritten(before, key, true, true);
      before.rows == Render(before.stored) &&
      after == View([], [Row(key, "")]) && after.rows != Render(after.stored)
  {
    QuotedKeyIsInvalid();
    assert [Record("a\"b", "")][1..] == [];
  }

  /** As written, removing the item `a\x` from the history `[{ax}, {a\x}]`
      drops the row of `ax` and keeps the row of `a\x`, while the store keeps
      `ax`: the rows show the removed item and hide the one that stays. */
  lemma EscapedKeyRemovesOtherRow()
    ensures var key := "a\\x";
      var h := [Record("ax", ""), Record(key, "")];
      var before := View(h, Render(h));
      var after := RemoveAsWritten(before, key, true, true);
      after == View([Record("ax", "")], [Row(key, "")]) &&
      after.rows != Render(after.stored)
  {
    var key := "a\\x";
    var h := [Record("ax", ""), Record(key, "")];
    EscapedKeyReadsOtherValue();
    assert Render(h) == [Row("ax", ""), Row(key, "")];
    assert Render(h)[1..] == [Row(key, "")];
    assert h[1..] == [Record(key, "")] && h[1..][1..] == [];
    assert Filter(h, key) == [Record("ax", "")];
    assert DropRow(Render(h), "ax") == [Row(key, "")];
    assert key[1] == '\\' && Render([Record("ax", "")]) == [Row("ax", "")];
  }

  /** For keys free of the breaking characters the code as written keeps the
      rows mirroring the store, just as the exact lookup does. */
  lemma RemoveAsWrittenSafeKey(v: View, key: string, readOk: bool, writeOk: bool)
    requires Distinct(v.stored) && v.rows == Render(v.stored)
    requires PlainKey(key)
    ensures RemoveAsWritten(v, key, readOk, writeOk).rows
            == Render(RemoveAsWritten(v, key, readOk, writeOk).stored)
  {
    PlainKeyReadsItself(key);
    DropRowMirrorsFilter(v.stored, key);
  }

  class BSHistory {
    /** The history list as the external store holds it. */
    var stored: seq<Record>
    /** The rows under `#historyListEl`, in document order. */
    var rows: seq<Row>

    /** The store has no duplicate or empty items, and the rows mirror it. */
    ghost predicate Valid()
      reads this
    {
      Distinct(stored) && ItemsNonEmpty(stored) && rows == Render(stored)
    }

    /** The element after `connectedCallback` has loaded and rendered `initial`. */
    constructor (initial: seq<Record>)
      requires Distinct(initial) && ItemsNonEmpty(initial)
      ensures Valid()
      ensures stored == initial && rows == Render(initial)
    {
      stored := initial;
      rows := [];
      new;
      RenderHistoryList(initial);
    }

    /** `getHistory()`: the stored list, or nothing when the store reports an error. */
    method GetHistory(ok: bool) returns (r: Option<seq<Record>>)
      ensures r == if ok then Some(stored) else None
    {
      r := if ok then Some(stored) else None;
    }

    /** `setHistory(data)`: the store takes the whole list, or keeps the old
        one when it reports an error. */
    method SetHistory(data: seq<Record>, ok: bool) returns (written: bool)
      modifies this`stored
      ensures written == ok
      ensures stored == if ok then data else old(stored)
    {
      written := ok;
      if ok {
        stored := data;
      }
    }

    /** `#renderHistoryList(data)`: clear the rows, then append one per record. */
    method RenderHistoryList(data: seq<Record>)
      modifies this`rows
      ensures rows == Render(data)
    {
      rows := [];
      for i := 0 to |data|
        invariant |rows| == i
        invariant forall k :: 0 <= k < i ==> rows[k] == RowOf(data[k])
      {
        rows := rows + [RowOf(data[i])];
      }
    }

    /** The first row whose key is `key`, matched exactly. */
    method QueryRow(key: string) returns (idx: Option<nat>)
      ensures idx.Some? ==> idx.value < |rows| && rows[idx.value].key == key
      ensures idx.Some? ==> forall j :: 0 <= j < idx.value ==> rows[j].key != key
      ensures idx.None? <==> forall j :: 0 <= j < |rows| ==> rows[j].key != key
    {
      var i := 0;
      while i < |rows|
        invariant 0 <= i <= |rows|
        invariant forall j :: 0 <= j < i ==> rows[j].key != key
      {
        if rows[i].key == key {
          return Some(i);
        }
        i := i + 1;
      }
      return None;
    }

    /** `add(historyItem)`: append a record whose item is non-empty and not yet
        in the history, if recording is on and the store accepts the write.
        `settings` is the `addToHistory` flag `getSettings()` returns at this
        call, or nothing when that read fails. */
    method Add(rec: Record, settings: Option<bool>, readOk: bool, writeOk: bool)
      requires Valid()
      modifies this`stored, this`rows
      ensures Valid()
      ensures var appends := rec.item != "" && settings == Some(true) && readOk
                             && Find(old(stored), rec.item).None? && writeOk;
              stored == (if appends then old(stored) + [rec] else old(stored)) &&
              rows == (if appends then old(rows) + [RowOf(rec)] else old(rows))
    {
      if rec.item == "" || settings != Some(true) {
        return;
      }
      var history := GetHistory(readOk);
      if history.Some? && Find(history.value, rec.item).None? {
        var data := history.value + [rec];
        AppendFresh(history.value, rec);
        var written := SetHistory(data, writeOk);
        if written {
          RenderHistoryList(data);
          assert Render(data) == Render(old(stored)) + [RowOf(rec)];
        }
      }
    }

    /** `remove(item)` with the row lookup comparing keys exactly (the selector
        corrected): write back the list without the records that have the key
        and, once the store has it, drop the row with that key. */
    method Remove(key: string, readOk: bool, writeOk: bool)
      requires Valid()
      modifies this`stored, this`rows
      ensures Valid()
      ensures stored == if key != "" && readOk && writeOk then Filter(old(stored), key) else old(stored)
      ensures key != "" && readOk && writeOk ==>
        |stored| == if Find(old(stored), key).Some? then |old(stored)| - 1 else |old(stored)|
      ensures rows == if key != "" && readOk && writeOk then DropRow(old(rows), key) else old(rows)
    {
      if key == "" {
        return;
      }
      var history := GetHistory(readOk);
      if history.Some? {
        var data := Filter(history.value, key);
        FilterPreservesInvariant(history.value, key);
        var written := SetHistory(data, writeOk);
        if written {
          var idx := QueryRow(key);
          if idx.Some? {
            var i := idx.value;
            DropRowAt(rows, key, i);
            rows := rows[..i] + rows[i + 1..];
          } else {
            DropRowAbsent(rows, key);
          }
          DropRowMirrorsFilter(old(stored), key);
          RenderKeys(old(stored), key);
        }
      }
    }

    /** `empty()`: write an empty list and, once the store has it, clear the rows. */
    method Empty(writeOk: bool)
      requires Valid()
      modifies this`stored, this`rows
      ensures Valid()
      ensures stored == if writeOk then [] else old(stored)
      ensures rows == if writeOk then [] else old(rows)
    {
      var written := SetHistory([], writeOk);
      if written {
        rows := [];
      }
    }

    /** `updateLatestComment(newComment)`: give the last record the new comment
        and, once the store has it, show it in the last row. */
    method UpdateLatestComment(c: string, readOk: bool, writeOk: bool)
      requires Valid()
      modifies this`stored, this`rows
      ensures Valid()
      ensures stored == if readOk && writeOk && old(stored) != []
                        then WithLatestComment(old(stored), c) else old(stored)
      ensures stored == old(stored) ==> rows == old(rows)
    {
      var history := GetHistory(readOk);
      if history.None? || history.value == [] {
        return;
      }
      var data := WithLatestComment(history.value, c);
      LatestCommentKeepsItems(history.value, c);
      var written := SetHistory(data, writeOk);
      if written && rows != [] {
        var n := |rows|;
        rows := rows[..n - 1] + [rows[n - 1].(comment := c)];
        assert rows == Render(data);
      }
    }

    /** The string `#handleExportCsvClick` encodes and downloads, or nothing
        when the store read fails. */
    method ExportCsv(readOk: bool) returns (csv: Option<string>)
      ensures csv == if readOk then Some(CsvContent(stored)) else None
    {
      var history := GetHistory(readOk);
      if history.None? {
        return None;
      }
      csv := Some(CsvContent(history.value));
    }
  }

  /** The values behind `ExampleRemove`. */
  lemma ExampleRemoveValues()
    ensures var h := [Record("A", "x"), Record("B", "y")];
      Distinct(h) && ItemsNonEmpty(h) &&
      Filter(h, "A") == [Record("B", "y")] && Render([Record("B", "y")]) == [Row("B", "y")]
  {
    var h := [Record("A", "x"), Record("B", "y")];
    FilterDistinctAt(h, "A", 0);
    assert h[1..] == [Record("B", "y")];
  }

  /** From the history `[{A, x}, {B, y}]`, with every store call succeeding,
      `remove("A")` leaves `[{B, y}]` and its one row. */
  method ExampleRemove() {
    ExampleRemoveValues();
    var view := new BSHistory([Record("A", "x"), Record("B", "y")]);
    view.Remove("A", true, true);
    assert view.stored == [Record("B", "y")];
    assert view.rows == [Row("B", "y")];
  }

  /** From `[{B, y}]`, with every store call succeeding,
      `updateLatestComment("z")` gives `[{B, z}]` and `empty()` then gives `[]`. */
  method ExampleUpdateThenEmpty() {
    var view := new BSHistory([Record("B", "y")]);
    view.UpdateLatestComment("z", true, true);
    assert view.stored == [Record("B", "z")];
    assert view.rows == [Row("B", "z")];
    view.Empty(true);
    assert view.stored == [] && view.rows == [];
  }
}
