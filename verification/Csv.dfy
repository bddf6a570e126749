/** The CSV text that `CopyToClipboardAsCsv` of serverlogger.cpp puts together, and a reader for
    it after section 2 of RFC 4180, with a line feed for the line break. */
module Csv {
  import opened Options
  import opened Escaping

  function FieldText(v: string): string {
    Quoted(Escaped(v, "\"", []))
  }

  function FieldTexts(row: seq<string>): (r: seq<string>)
    ensures |r| == |row|
  {
    if row == [] then [] else [FieldText(row[0])] + FieldTexts(row[1..])
  }

  function RowText(row: seq<string>): string {
    Joined(FieldTexts(row), ",")
  }

  function RowTexts(table: seq<seq<string>>): (r: seq<string>)
    ensures |r| == |table|
  {
    if table == [] then [] else [RowText(table[0])] + RowTexts(table[1..])
  }

  function TableText(table: seq<seq<string>>): string {
    Joined(RowTexts(table), "\n")
  }

  lemma FieldTextsStep(row: seq<string>, j: nat, done: seq<string>)
    requires j < |row|
    ensures done + FieldTexts(row[j..]) == (done + [FieldText(row[j])]) + FieldTexts(row[j + 1..])
  {
    hide FieldText;
    assert row[j..][1..] == row[j + 1..];
  }

  lemma RowTextsStep(table: seq<seq<string>>, i: nat, done: seq<string>)
    requires i < |table|
    ensures done + RowTexts(table[i..]) == (done + [RowText(table[i])]) + RowTexts(table[i + 1..])
  {
    hide RowText;
    assert table[i..][1..] == table[i + 1..];
  }

  /** Transforms every cell, and joins what comes out. */
  method CopyRow(row: seq<string>) returns (text: string)
    ensures text == RowText(row)
  {
    hide FieldTexts, Joined;
    var cells: seq<string> := [];
    var j := 0;
    assert row[0..] == row;
    while j < |row|
      invariant 0 <= j <= |row|
      invariant cells + FieldTexts(row[j..]) == FieldTexts(row)
    {
      var e := Escape(row[j], "\"", []);
      FieldTextsStep(row, j, cells);
      cells := cells + [Quoted(e)];
      j := j + 1;
    }
    assert cells == FieldTexts(row);
    NoPrefix(cells);
    text := Join(cells, ",", "");
  }

  /** Transforms every row, and joins what comes out. */
  method CopyAsCsv(table: seq<seq<string>>) returns (text: string)
    ensures text == TableText(table)
  {
    hide RowTexts, RowText, Joined;
    var rows: seq<string> := [];
    var i := 0;
    assert table[0..] == table;
    while i < |table|
      invariant 0 <= i <= |table|
      invariant rows + RowTexts(table[i..]) == RowTexts(table)
    {
      var row := CopyRow(table[i]);
      RowTextsStep(table, i, rows);
      rows := rows + [row];
      i := i + 1;
    }
    assert rows == RowTexts(table);
    NoPrefix(rows);
    text := Join(rows, "\n", "");
  }

  // ---------------------------------------------------------------- reading

  /** The rest of a quoted field, behind its opening quote: two quotes are one, and one quote
      ends it. */
  function ReadQuoted(s: string): (r: Option<(string, string)>)
    ensures r.Some? ==> |r.value.1| < |s|
    decreases |s|
  {
    if s == "" then None
    else if s[0] != '"' then
      match ReadQuoted(s[1..])
      case None => None
      case Some((v, rest)) => Some(([s[0]] + v, rest))
    else if |s| > 1 && s[1] == '"' then
      match ReadQuoted(s[2..])
      case None => None
      case Some((v, rest)) => Some((['"'] + v, rest))
    else Some(("", s[1..]))
  }

  /** A field without quotes goes on to the next comma or line break. */
  function ReadPlain(s: string): (r: Option<(string, string)>)
    ensures r.Some? ==> |r.value.1| <= |s|
    decreases |s|
  {
    if s == "" || s[0] == ',' || s[0] == '\n' then Some(("", s))
    else if s[0] == '"' then None
    else
      match ReadPlain(s[1..])
      case None => None
      case Some((v, rest)) => Some(([s[0]] + v, rest))
  }

  function ReadField(s: string): (r: Option<(string, string)>)
    ensures r.Some? ==> |r.value.1| <= |s|
  {
    if s != "" && s[0] == '"' then ReadQuoted(s[1..]) else ReadPlain(s)
  }

  /** A record is one field or more, with commas between them. */
  function ReadRecord(s: string): (r: Option<(seq<string>, string)>)
    ensures r.Some? ==> |r.value.1| <= |s| && r.value.0 != []
    decreases |s|
  {
    match ReadField(s)
    case None => None
    case Some((v, rest)) =>
      if rest != "" && rest[0] == ',' then
        match ReadRecord(rest[1..])
        case None => None
        case Some((vs, last)) => Some(([v] + vs, last))
      else Some(([v], rest))
  }

  /** Records on lines of their own; the last one may or may not end in a line break. */
  function ReadTable(s: string): (r: Option<seq<seq<string>>>)
    ensures r.Some? ==> r.value != [] && forall i :: 0 <= i < |r.value| ==> r.value[i] != []
    decreases |s|
  {
    match ReadRecord(s)
    case None => None
    case Some((row, rest)) =>
      if rest == "" || rest == "\n" then Some([row])
      else if rest[0] == '\n' then
        match ReadTable(rest[1..])
        case None => None
        case Some(rows) => Some([row] + rows)
      else None
  }

  // ---------------------------------------------------------------- round trip

  lemma {:induction false} ReadQuotedBack(v: string, tail: string)
    requires tail == "" || tail[0] != '"'
    ensures ReadQuoted(Doubled(v, "\"") + ("\"" + tail)) == Some((v, tail))
    decreases |v|
  {
    var t := Doubled(v, "\"") + ("\"" + tail);
    if v == "" {
      assert t == "\"" + tail;
      assert t[1..] == tail;
    } else {
      var rest := Doubled(v[1..], "\"");
      ReadQuotedBack(v[1..], tail);
      assert [v[0]] + v[1..] == v;
      if v[0] == '"' {
        assert HasPrefix(v, "\"") && v[1..] == v[|"\""|..];
        assert t == "\"\"" + (rest + ("\"" + tail));
        assert t[2..] == rest + ("\"" + tail);
      } else {
        assert !HasPrefix(v, "\"");
        assert t == [v[0]] + (rest + ("\"" + tail));
        assert t[1..] == rest + ("\"" + tail);
      }
    }
  }

  lemma ReadFieldBack(v: string, tail: string)
    requires tail == "" || tail[0] != '"'
    ensures ReadField(FieldText(v) + tail) == Some((v, tail))
  {
    var d := Doubled(v, "\"");
    var t := FieldText(v) + tail;
    assert t[0] == '"' && t[1..] == d + ("\"" + tail);
    ReadQuotedBack(v, tail);
  }

  lemma {:induction false} ReadRecordBack(row: seq<string>, tail: string)
    requires row != [] && (tail == "" || tail[0] == '\n')
    ensures ReadRecord(RowText(row) + tail) == Some((row, tail))
    decreases |row|
  {
    hide FieldText, ReadField;
    var texts := FieldTexts(row);
    if |row| == 1 {
      ReadFieldBack(row[0], tail);
      assert [row[0]] == row;
      assert RowText(row) == FieldText(row[0]);
    } else {
      var more := RowText(row[1..]) + tail;
      assert texts[1..] == FieldTexts(row[1..]);
      assert RowText(row) + tail == FieldText(row[0]) + ("," + more) by {
        Assoc(FieldText(row[0]), ",", RowText(row[1..]));
        Assoc(FieldText(row[0]), "," + RowText(row[1..]), tail);
        Assoc(",", RowText(row[1..]), tail);
      }
      ReadFieldBack(row[0], "," + more);
      assert ("," + more)[1..] == more;
      ReadRecordBack(row[1..], tail);
      assert [row[0]] + row[1..] == row;
    }
  }

  lemma RowTextNotEmpty(row: seq<string>)
    requires row != []
    ensures RowText(row) != "" && RowText(row)[0] == '"'
  {
    var texts := FieldTexts(row);
    assert texts[0] == FieldText(row[0]) && texts[0][0] == '"';
    assert RowText(row)[0] == texts[0][0];
  }

  /** A table of non-empty rows can be read back, cell by cell, whatever is in the cells. */
  lemma {:induction false} CsvRoundTrip(table: seq<seq<string>>)
    requires table != [] && forall i :: 0 <= i < |table| ==> table[i] != []
    ensures ReadTable(TableText(table)) == Some(table)
    decreases |table|
  {
    hide RowText, ReadRecord;
    var texts := RowTexts(table);
    if |table| == 1 {
      ReadRecordBack(table[0], "");
      assert [table[0]] == table;
      assert RowText(table[0]) + "" == RowText(table[0]) == TableText(table);
    } else {
      var more := TableText(table[1..]);
      assert texts[1..] == RowTexts(table[1..]);
      assert TableText(table) == RowText(table[0]) + ("\n" + more) by {
        Assoc(RowText(table[0]), "\n", more);
      }
      ReadRecordBack(table[0], "\n" + more);
      assert ("\n" + more)[1..] == more;
      RowTextNotEmpty(table[1]);
      StartsWithRow(table[1..]);
      CsvRoundTrip(table[1..]);
      assert [table[0]] + table[1..] == table;
    }
  }

  lemma StartsWithRow(table: seq<seq<string>>)
    requires table != [] && RowText(table[0]) != ""
    ensures TableText(table) != ""
  {
    hide RowText;
    var texts := RowTexts(table);
    assert texts[0] == RowText(table[0]);
  }

  /** No other table can: the reader never finds an empty record, or none. */
  lemma CsvRoundTripExactly(table: seq<seq<string>>)
    ensures ReadTable(TableText(table)) == Some(table)
       <==> table != [] && forall i :: 0 <= i < |table| ==> table[i] != []
  {
    if table != [] && forall i :: 0 <= i < |table| ==> table[i] != [] {
      CsvRoundTrip(table);
    }
  }
}
