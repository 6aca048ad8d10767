/**
 * The CSV writer of the export: per-value quoting and the line generator
 * that writes the first row's keys as a header line.
 */
module CsvExport {
  import opened Common

  /** One row handed to the writer: ordered (column, value) pairs; None stands for a null value. */
  type Row = seq<(string, Option<string>)>

  /** A value must be quoted when it holds a comma, a newline or a double quote. */
  predicate NeedsQuoting(s: string)
  {
    ',' in s || '\n' in s || '"' in s
  }

  /** Every double quote doubled. */
  function Escape(s: string): (r: string)
    ensures |r| >= |s|
  {
    if s == [] then []
    else (if s[0] == '"' then "\"\"" else [s[0]]) + Escape(s[1..])
  }

  /** Double quotes of `t` occur only in adjacent pairs. */
  predicate QuotesPaired(t: string)
    decreases |t|
  {
    if t == [] then true
    else if t[0] != '"' then QuotesPaired(t[1..])
    else |t| >= 2 && t[1] == '"' && QuotesPaired(t[2..])
  }

  /** Inverse of Escape: each pair of double quotes becomes one. */
  function Unescape(t: string): string
    decreases |t|
  {
    if t == [] then []
    else if |t| >= 2 && t[0] == '"' && t[1] == '"' then "\"" + Unescape(t[2..])
    else [t[0]] + Unescape(t[1..])
  }

  /**
   * csv_quote: null becomes the empty text; a value that needs no quoting is
   * returned as it is; otherwise it is wrapped in double quotes with its own
   * double quotes doubled.
   */
  function Quote(v: Option<string>): (r: string)
    ensures v.None? ==> r == ""
    ensures v.Some? && !NeedsQuoting(v.value) ==> r == v.value
    ensures v.Some? && NeedsQuoting(v.value) ==>
      |r| >= 2 && r[0] == '"' && r[|r| - 1] == '"' && QuotesPaired(r[1..|r| - 1])
  {
    match v
    case None => ""
    case Some(s) =>
      if NeedsQuoting(s) then
        EscapePaired(s);
        var r := "\"" + Escape(s) + "\"";
        assert r[1..|r| - 1] == Escape(s);
        r
      else s
  }

  lemma {:induction false} EscapePaired(s: string)
    ensures QuotesPaired(Escape(s))
    decreases |s|
  {
    if s != [] {
      EscapePaired(s[1..]);
      if s[0] == '"' {
        assert Escape(s)[2..] == Escape(s[1..]);
      } else {
        assert Escape(s)[1..] == Escape(s[1..]);
      }
    }
  }

  lemma {:induction false} UnescapeEscape(s: string)
    ensures Unescape(Escape(s)) == s
    decreases |s|
  {
    if s != [] {
      var e := Escape(s[1..]);
      UnescapeEscape(s[1..]);
      if s[0] == '"' {
        assert Escape(s) == "\"\"" + e;
        assert ("\"\"" + e)[2..] == e;
      } else {
        assert Escape(s) == [s[0]] + e;
        assert ([s[0]] + e)[1..] == e;
      }
      assert s == [s[0]] + s[1..];
    }
  }

  /** Strip the outer quotes of a quoted value and halve its doubled quotes. */
  function Unquote(r: string): string
  {
    if |r| >= 2 && r[0] == '"' && r[|r| - 1] == '"' then Unescape(r[1..|r| - 1]) else r
  }

  /** The text a value stands for once written: null reads back as the empty text. */
  function CellText(v: Option<string>): string
  {
    match v
    case None => ""
    case Some(s) => s
  }

  /** Unquoting what Quote wrote gives back the original text. */
  lemma QuoteRoundTrip(v: Option<string>)
    ensures Unquote(Quote(v)) == CellText(v)
  {
    if v.Some? && NeedsQuoting(v.value) {
      var r := Quote(v);
      assert r[1..|r| - 1] == Escape(v.value);
      UnescapeEscape(v.value);
    }
  }

  /**
   * A carriage return alone does not trigger quoting, so a value holding one
   * is written bare; a reader that ends records at a carriage return splits it.
   */
  lemma CarriageReturnWrittenBare()
    ensures Quote(Some("a\rb")) == "a\rb"
  {
    assert !NeedsQuoting("a\rb");
  }

  /** Fields joined by commas. */
  function Join(fields: seq<string>): string
    decreases |fields|
  {
    if |fields| == 0 then ""
    else if |fields| == 1 then fields[0]
    else fields[0] + "," + Join(fields[1..])
  }

  function QuoteAll(values: seq<Option<string>>): (r: seq<string>)
    ensures |r| == |values|
    ensures forall i :: 0 <= i < |values| ==> r[i] == Quote(values[i])
  {
    seq(|values|, i requires 0 <= i < |values| => Quote(values[i]))
  }

  /** One output line: the quoted values joined by commas, then a newline. */
  function Line(values: seq<Option<string>>): string
  {
    Join(QuoteAll(values)) + "\n"
  }

  lemma QuoteNeverEndsInNewline(v: Option<string>)
    ensures Quote(v) == [] || Quote(v)[|Quote(v)| - 1] != '\n'
  {
    if v.Some? && !NeedsQuoting(v.value) && v.value != [] {
      assert v.value[|v.value| - 1] in v.value;
    }
  }

  lemma {:induction false} JoinNeverEndsInNewline(fields: seq<string>)
    requires forall i :: 0 <= i < |fields| ==> fields[i] == [] || fields[i][|fields[i]| - 1] != '\n'
    ensures Join(fields) == [] || Join(fields)[|Join(fields)| - 1] != '\n'
    decreases |fields|
  {
    if |fields| >= 2 {
      JoinNeverEndsInNewline(fields[1..]);
      var tail := Join(fields[1..]);
      assert Join(fields) == fields[0] + "," + tail;
    }
  }

  /** Every line ends with exactly one newline: the character before it is never a newline. */
  lemma LineEndsOnce(values: seq<Option<string>>)
    ensures var l := Line(values);
      l[|l| - 1] == '\n' && (|l| >= 2 ==> l[|l| - 2] != '\n')
  {
    var fields := QuoteAll(values);
    forall i | 0 <= i < |fields| ensures fields[i] == [] || fields[i][|fields[i]| - 1] != '\n' {
      QuoteNeverEndsInNewline(values[i]);
    }
    JoinNeverEndsInNewline(fields);
  }

  /** The column names of a row, as the values of a header line. */
  function KeyCells(row: Row): (r: seq<Option<string>>)
    ensures |r| == |row|
    ensures forall i :: 0 <= i < |row| ==> r[i] == Some(row[i].0)
  {
    seq(|row|, i requires 0 <= i < |row| => Some(row[i].0))
  }

  function Values(row: Row): (r: seq<Option<string>>)
    ensures |r| == |row|
    ensures forall i :: 0 <= i < |row| ==> r[i] == row[i].1
  {
    seq(|row|, i requires 0 <= i < |row| => row[i].1)
  }

  /** One line of values per row, in order. */
  function ValueLines(rows: seq<Row>): (r: seq<string>)
    ensures |r| == |rows|
    ensures forall i :: 0 <= i < |rows| ==> r[i] == Line(Values(rows[i]))
  {
    seq(|rows|, i requires 0 <= i < |rows| => Line(Values(rows[i])))
  }

  /**
   * What iter_csv yields: nothing for no rows; otherwise the first row's
   * keys, then one line of values per row, in order.
   */
  function CsvLines(rows: seq<Row>): (r: seq<string>)
    ensures |r| == if rows == [] then 0 else |rows| + 1
    ensures forall i :: 0 <= i < |r| ==> |r[i]| >= 1 && r[i][|r[i]| - 1] == '\n'
  {
    if rows == [] then []
    else
      var r := [Line(KeyCells(rows[0]))] + ValueLines(rows);
      assert forall i :: 0 <= i < |r| ==> |r[i]| >= 1 && r[i][|r[i]| - 1] == '\n' by {
        forall i | 0 <= i < |r| ensures |r[i]| >= 1 && r[i][|r[i]| - 1] == '\n' {
          if i == 0 { LineEndsOnce(KeyCells(rows[0])); } else { LineEndsOnce(Values(rows[i - 1])); }
        }
      }
      r
  }

  lemma ValueLinesAppend(rows: seq<Row>, i: int)
    requires 0 <= i < |rows|
    ensures ValueLines(rows[..i + 1]) == ValueLines(rows[..i]) + [Line(Values(rows[i]))]
  {
  }

  /** iter_csv: a `first` flag makes the header line come out once, before the first row's values. */
  method IterCsv(rows: seq<Row>) returns (lines: seq<string>)
    ensures lines == CsvLines(rows)
  {
    lines := [];
    var first := true;
    for i := 0 to |rows|
      invariant first <==> i == 0
      invariant first ==> lines == []
      invariant !first ==> lines == [Line(KeyCells(rows[0]))] + ValueLines(rows[..i])
    {
      if first {
        lines := lines + [Line(KeyCells(rows[i]))];
        first := false;
      }
      ValueLinesAppend(rows, i);
      lines := lines + [Line(Values(rows[i]))];
    }
    assert rows[..|rows|] == rows;
  }
}
