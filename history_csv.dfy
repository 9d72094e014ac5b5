/** The text the export button downloads: a `data:` URI prefix followed by one
    `item,comment` line per record, in list order, joined with newlines. The
    fields are not escaped. A small reference parser shows what the text
    determines: the records come back exactly when no item holds a comma or
    newline and no comment holds a newline. */
module HistoryCsv {
  import opened HistoryList

  const DataUriPrefix: string := "data:text/csv;charset=utf-8,"

  /** One exported line: `${item.item},${item.comment}`. It is never empty,
      its item ends at a comma, and it holds no line break of its own unless a
      field does. */
  function Line(rec: Record): (r: string)
    ensures r != [] && |r| > |rec.item| && r[|rec.item|] == ','
    ensures '\n' !in rec.item && '\n' !in rec.comment ==> '\n' !in r
  {
    rec.item + "," + rec.comment
  }

  /** `lines.join('\n')`: the text starts with the first line. */
  function JoinLines(lines: seq<string>): (r: string)
    ensures lines != [] ==> lines[0] <= r
  {
    if lines == [] then ""
    else if |lines| == 1 then lines[0]
    else lines[0] + "\n" + JoinLines(lines[1..])
  }

  /** `history.map(item => ...)`: the lines, one per record, in list order. */
  function Lines(h: seq<Record>): (r: seq<string>)
    ensures |r| == |h|
  {
    seq(|h|, i requires 0 <= i < |h| => Line(h[i]))
  }

  /** The exported rows, without the URI prefix; empty only for the empty
      history. */
  function CsvRows(h: seq<Record>): (r: string)
    ensures r == [] <==> h == []
  {
    JoinLines(Lines(h))
  }

  /** `csvContent`: the string handed to `encodeURI`. */
  function CsvContent(h: seq<Record>): (r: string)
    ensures |r| >= |DataUriPrefix| && r[..|DataUriPrefix|] == DataUriPrefix
  {
    DataUriPrefix + CsvRows(h)
  }

  /** A field the unescaped format can carry back: an item may hold neither a
      comma nor a newline, a comment no newline. */
  predicate Exportable(r: Record) {
    ',' !in r.item && '\n' !in r.item && '\n' !in r.comment
  }

  /** The position of the first `c` in `s`, or `|s|` when there is none. */
  function IndexOf(s: string, c: char): (k: nat)
    ensures k <= |s|
    ensures forall j :: 0 <= j < k ==> s[j] != c
    ensures k < |s| ==> s[k] == c
  {
    if s == [] then 0
    else if s[0] == c then 0
    else 1 + IndexOf(s[1..], c)
  }

  /** The pieces of `s` between the separators `sep`; never empty. */
  function SplitOn(s: string, sep: char): (parts: seq<string>)
    ensures |parts| >= 1
  {
    if s == [] then [""]
    else
      var rest := SplitOn(s[1..], sep);
      if s[0] == sep then [""] + rest else [[s[0]] + rest[0]] + rest[1..]
  }

  /** A line read back: the item up to the first comma, the comment after it. */
  function ParseLine(line: string): Record {
    var k := IndexOf(line, ',');
    if k == |line| then Record(line, "") else Record(line[..k], line[k + 1..])
  }

  /** The rows read back, one record per line; the empty text has no rows. */
  function ParseRows(s: string): (h: seq<Record>) {
    if s == [] then []
    else
      var lines := SplitOn(s, '\n');
      seq(|lines|, i requires 0 <= i < |lines| => ParseLine(lines[i]))
  }

  /** The empty history exports the bare prefix, and `[{A, x}]` exports `A,x`. */
  lemma ExportExamples()
    ensures CsvContent([]) == DataUriPrefix
    ensures CsvContent([Record("A", "x")]) == DataUriPrefix + "A,x"
  {
    assert Line(Record("A", "x")) == "A,x";
    assert Lines([Record("A", "x")]) == ["A,x"];
  }

  /** Exported lines appear in list order: a longer history only extends the
      text of the shorter one by a newline and the new record's line. */
  lemma CsvRowsAppend(h: seq<Record>, r: Record)
    requires h != []
    ensures CsvRows(h + [r]) == CsvRows(h) + "\n" + Line(r)
  {
    JoinLinesSnoc(Lines(h), Line(r));
    assert Lines(h + [r]) == Lines(h) + [Line(r)];
  }

  lemma {:induction false} JoinLinesSnoc(lines: seq<string>, last: string)
    requires lines != []
    ensures JoinLines(lines + [last]) == JoinLines(lines) + "\n" + last
  {
    if |lines| == 1 {
      assert (lines + [last])[1..] == [last];
    } else {
      assert (lines + [last])[1..] == lines[1..] + [last];
      JoinLinesSnoc(lines[1..], last);
    }
  }

  /** Without escaping, different histories can export the same text. */
  lemma CommaInItemIsAmbiguous()
    ensures Record("a,b", "c") != Record("a", "b,c")
    ensures CsvRows([Record("a,b", "c")]) == CsvRows([Record("a", "b,c")])
  {
    assert Line(Record("a,b", "c")) == "a,b,c";
    assert Line(Record("a", "b,c")) == "a,b,c";
    assert Lines([Record("a,b", "c")]) == ["a,b,c"];
    assert Lines([Record("a", "b,c")]) == ["a,b,c"];
  }

  lemma {:induction false} SplitWithoutSep(a: string, sep: char)
    requires sep !in a
    ensures SplitOn(a, sep) == [a]
  {
    if a != [] {
      SplitWithoutSep(a[1..], sep);
      assert a == [a[0]] + a[1..];
    }
  }

  lemma {:induction false} SplitAtFirstSep(a: string, b: string, sep: char)
    requires sep !in a
    ensures SplitOn(a + [sep] + b, sep) == [a] + SplitOn(b, sep)
  {
    if a == [] {
      assert (a + [sep] + b)[1..] == b;
    } else {
      assert (a + [sep] + b)[1..] == a[1..] + [sep] + b;
      SplitAtFirstSep(a[1..], b, sep);
      assert a == [a[0]] + a[1..];
    }
  }

  lemma ParseLineOfLine(r: Record)
    requires ',' !in r.item
    ensures ParseLine(Line(r)) == r
  {
    var line := Line(r);
    var k := IndexOf(line, ',');
    assert line[|r.item|] == ',';
    assert forall j :: 0 <= j < |r.item| ==> line[j] == r.item[j];
    assert k == |r.item|;
    assert line[..k] == r.item;
    assert line[k + 1..] == r.comment;
  }

  /** Splitting the joined text at the newlines gives the lines back, when
      no line holds a newline of its own. */
  lemma {:induction false} SplitJoinLines(lines: seq<string>)
    requires lines != []
    requires forall i :: 0 <= i < |lines| ==> '\n' !in lines[i]
    ensures SplitOn(JoinLines(lines), '\n') == lines
  {
    if |lines| == 1 {
      SplitWithoutSep(lines[0], '\n');
    } else {
      var rest := lines[1..];
      SplitJoinLines(rest);
      SplitAtFirstSep(lines[0], JoinLines(rest), '\n');
      assert lines[0] + "\n" + JoinLines(rest) == lines[0] + ['\n'] + JoinLines(rest);
      assert lines == [lines[0]] + rest;
    }
  }

  /** Reading the exported rows back gives the history, record for record and
      in order, whenever every record is exportable. */
  lemma CsvRoundTrip(h: seq<Record>)
    requires forall i :: 0 <= i < |h| ==> Exportable(h[i])
    ensures ParseRows(CsvRows(h)) == h
  {
    if h != [] {
      var lines := Lines(h);
      SplitJoinLines(lines);
      forall i | 0 <= i < |h|
        ensures ParseLine(lines[i]) == h[i]
      {
        ParseLineOfLine(h[i]);
      }
    }
  }
}
