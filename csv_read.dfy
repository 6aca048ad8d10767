/**
 * A reader for the CSV dialect the export writes, used to state that the
 * export can be read back field for field.
 */
module CsvRead {
  import opened Common
  import opened CsvExport

  /** Reads an unquoted field: everything up to the next comma or newline. */
  function ReadBare(s: string): (res: (string, string))
    ensures |res.1| <= |s|
  {
    if s == [] || s[0] == ',' || s[0] == '\n' then ([], s)
    else
      var (f, rest) := ReadBare(s[1..]);
      ([s[0]] + f, rest)
  }

  /** Reads the body of a quoted field (after its opening quote) up to its closing quote. */
  function ReadQuoted(s: string): (res: (string, string))
    ensures |res.1| < |s| || res.1 == []
  {
    if s == [] then ([], [])
    else if s[0] == '"' then
      if |s| >= 2 && s[1] == '"' then
        var (f, rest) := ReadQuoted(s[2..]);
        (['"'] + f, rest)
      else ([], s[1..])
    else
      var (f, rest) := ReadQuoted(s[1..]);
      ([s[0]] + f, rest)
  }

  function ReadField(s: string): (res: (string, string))
    ensures |res.1| <= |s|
  {
    if s != [] && s[0] == '"' then ReadQuoted(s[1..]) else ReadBare(s)
  }

  /** Reads the fields of one record, through its terminating newline. */
  function ReadRecord(s: string): (res: (seq<string>, string))
    ensures |res.1| <= |s| && (s != [] ==> |res.1| < |s|)
    decreases |s|
  {
    var (f, rest) := ReadField(s);
    if rest == [] then ([f], [])
    else if rest[0] == '\n' then ([f], rest[1..])
    else
      var (fs, tail) := ReadRecord(rest[1..]);
      ([f] + fs, tail)
  }

  /** Reads every record of a CSV text. */
  function ReadCsv(s: string): seq<seq<string>>
    decreases |s|
  {
    if s == [] then [] else
      var (fs, rest) := ReadRecord(s);
      [fs] + ReadCsv(rest)
  }

  function Concat(lines: seq<string>): string
  {
    if lines == [] then [] else lines[0] + Concat(lines[1..])
  }

  /** The texts a line of values reads back as. */
  function Texts(values: seq<Option<string>>): (r: seq<string>)
    ensures |r| == |values|
    ensures forall i :: 0 <= i < |values| ==> r[i] == CellText(values[i])
  {
    seq(|values|, i requires 0 <= i < |values| => CellText(values[i]))
  }

  /** The texts each row's value line reads back as. */
  function RowTexts(rows: seq<Row>): (r: seq<seq<string>>)
    ensures |r| == |rows|
    ensures forall i :: 0 <= i < |rows| ==> r[i] == Texts(Values(rows[i]))
  {
    seq(|rows|, i requires 0 <= i < |rows| => Texts(Values(rows[i])))
  }

  predicate EndsField(tail: string)
  {
    tail == [] || tail[0] == ',' || tail[0] == '\n'
  }

  lemma {:induction false} ReadBarePlain(v: string, tail: string)
    requires !NeedsQuoting(v) && EndsField(tail)
    ensures ReadBare(v + tail) == (v, tail)
    decreases |v|
  {
    if v != [] {
      assert v[0] in v;
      assert !NeedsQuoting(v[1..]) by {
        assert forall c :: c in v[1..] ==> c in v;
      }
      ReadBarePlain(v[1..], tail);
      assert (v + tail)[1..] == v[1..] + tail;
      assert v == [v[0]] + v[1..];
    } else {
      assert v + tail == tail;
    }
  }

  lemma {:induction false} ReadQuotedEscaped(s: string, tail: string)
    requires tail == [] || tail[0] != '"'
    ensures ReadQuoted(Escape(s) + "\"" + tail) == (s, tail)
    decreases |s|
  {
    var input := Escape(s) + "\"" + tail;
    if s == [] {
      assert input == "\"" + tail;
      assert input[1..] == tail;
    } else if s[0] == '"' {
      ReadQuotedEscaped(s[1..], tail);
      assert input == "\"\"" + (Escape(s[1..]) + "\"" + tail);
      assert input[2..] == Escape(s[1..]) + "\"" + tail;
      assert s == "\"" + s[1..];
    } else {
      ReadQuotedEscaped(s[1..], tail);
      assert input == [s[0]] + (Escape(s[1..]) + "\"" + tail);
      assert input[1..] == Escape(s[1..]) + "\"" + tail;
      assert s == [s[0]] + s[1..];
    }
  }

  /** A quoted value followed by a separator reads back as its text. */
  lemma ReadFieldQuote(v: Option<string>, tail: string)
    requires EndsField(tail)
    ensures ReadField(Quote(v) + tail) == (CellText(v), tail)
  {
    if v.None? {
      assert Quote(v) + tail == tail;
      ReadBarePlain([], tail);
    } else if NeedsQuoting(v.value) {
      var input := Quote(v) + tail;
      assert input == "\"" + (Escape(v.value) + "\"" + tail);
      assert input[1..] == Escape(v.value) + "\"" + tail;
      ReadQuotedEscaped(v.value, tail);
    } else {
      ReadBarePlain(v.value, tail);
      if v.value != [] {
        assert v.value[0] in v.value;
      }
    }
  }

  /** A line of one value is that value's cell and the newline. */
  lemma LineSingle(values: seq<Option<string>>, tail: string)
    requires |values| == 1
    ensures Line(values) + tail == Quote(values[0]) + ("\n" + tail)
  {
    assert QuoteAll(values) == [Quote(values[0])];
  }

  /** A line of several values is the first cell, a comma, and the line of the rest. */
  lemma LineSplit(values: seq<Option<string>>, tail: string)
    requires |values| >= 2
    ensures Line(values) + tail == Quote(values[0]) + ("," + (Line(values[1..]) + tail))
  {
    var fields := QuoteAll(values);
    assert QuoteAll(values[1..]) == fields[1..];
  }

  /** A written line reads back as the texts of its values, for any line of at least one value. */
  lemma {:induction false} ReadRecordLine(values: seq<Option<string>>, tail: string)
    requires |values| >= 1
    ensures ReadRecord(Line(values) + tail) == (Texts(values), tail)
    decreases |values|
  {
    if |values| == 1 {
      LineSingle(values, tail);
      ReadFieldQuote(values[0], "\n" + tail);
      assert ("\n" + tail)[1..] == tail;
      assert Texts(values) == [CellText(values[0])];
    } else {
      var restLine := Line(values[1..]) + tail;
      LineSplit(values, tail);
      ReadFieldQuote(values[0], "," + restLine);
      assert ("," + restLine)[1..] == restLine;
      ReadRecordLine(values[1..], tail);
      assert Texts(values) == [CellText(values[0])] + Texts(values[1..]);
    }
  }

  /**
   * Reading back what the writer produced gives the first row's keys, then
   * each row's values as texts (null read as empty), for rows of at least one column.
   */
  lemma ReadBackCsv(rows: seq<Row>)
    requires forall i :: 0 <= i < |rows| ==> |rows[i]| >= 1
    ensures ReadCsv(Concat(CsvLines(rows))) ==
      if rows == [] then []
      else [Texts(KeyCells(rows[0]))] + RowTexts(rows)
  {
    if rows != [] {
      var header := Line(KeyCells(rows[0]));
      var body := ValueLines(rows);
      ConcatCons(header, body);
      ReadRecordLine(KeyCells(rows[0]), Concat(body));
      ReadValueLines(rows);
    }
  }

  lemma ConcatCons(line: string, lines: seq<string>)
    ensures Concat([line] + lines) == line + Concat(lines)
  {
    assert ([line] + lines)[1..] == lines;
  }

  /** The value lines of the rows read back as the rows' texts. */
  lemma {:induction false} ReadValueLines(rows: seq<Row>)
    requires forall i :: 0 <= i < |rows| ==> |rows[i]| >= 1
    ensures ReadCsv(Concat(ValueLines(rows))) == RowTexts(rows)
    decreases |rows|
  {
    if rows != [] {
      assert ValueLines(rows) == [Line(Values(rows[0]))] + ValueLines(rows[1..]);
      assert RowTexts(rows) == [Texts(Values(rows[0]))] + RowTexts(rows[1..]);
      ConcatCons(Line(Values(rows[0])), ValueLines(rows[1..]));
      ReadLineThen(Values(rows[0]), Concat(ValueLines(rows[1..])));
      ReadValueLines(rows[1..]);
    }
  }

  /** A written line in front of any text reads back as one record, then the text. */
  lemma ReadLineThen(values: seq<Option<string>>, tail: string)
    requires |values| >= 1
    ensures ReadCsv(Line(values) + tail) == [Texts(values)] + ReadCsv(tail)
  {
    ReadRecordLine(values, tail);
  }
}
