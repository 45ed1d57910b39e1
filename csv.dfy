/**
 * The teacher dashboard's CSV export (`downloadCSV`): every cell is wrapped in double quotes with
 * each embedded quote doubled (the escaping of section 2 of RFC 4180), cells are joined by `,` and
 * rows by `\n`. A reader for that format is given as the partner of the writer, and reading what
 * was written gives the rows back.
 */
module Csv {
  import opened Wrappers
  import Text

  /** The cell text with every `"` written twice. */
  function Doubled(cell: string): (r: string)
    ensures |r| >= |cell|
    decreases |cell|
  {
    if cell == [] then ""
    else (if cell[0] == '"' then "\"\"" else [cell[0]]) + Doubled(cell[1..])
  }

  /** One cell as written: `"` + the cell with quotes doubled + `"`. */
  function QuoteCell(cell: string): string {
    "\"" + Doubled(cell) + "\""
  }

  function QuoteAll(row: seq<string>): (r: seq<string>)
    ensures |r| == |row|
    ensures forall k :: 0 <= k < |row| ==> r[k] == QuoteCell(row[k])
    decreases |row|
  {
    if row == [] then [] else [QuoteCell(row[0])] + QuoteAll(row[1..])
  }

  /** One row: the quoted cells joined by `,`. */
  function Line(row: seq<string>): string {
    Text.Join(QuoteAll(row), ',')
  }

  function Lines(rows: seq<seq<string>>): (r: seq<string>)
    ensures |r| == |rows|
    ensures forall k :: 0 <= k < |rows| ==> r[k] == Line(rows[k])
    decreases |rows|
  {
    if rows == [] then [] else [Line(rows[0])] + Lines(rows[1..])
  }

  /** The whole file: the rows joined by `\n`. */
  function Document(rows: seq<seq<string>>): string {
    Text.Join(Lines(rows), '\n')
  }

  // ---- Reading the format back ----

  /**
   * Reads the inside of a quoted field, starting just after its opening quote: `""` stands for
   * one quote and a lone `"` closes the field. Gives the cell and the text after the closing quote.
   */
  function Unquote(s: string): (r: Option<(string, string)>)
    ensures r.Some? ==> |r.value.1| < |s|
    decreases |s|
  {
    if s == [] then None
    else if s[0] != '"' then
      match Unquote(s[1..])
      case None => None
      case Some((cell, rest)) => Some(([s[0]] + cell, rest))
    else if |s| > 1 && s[1] == '"' then
      match Unquote(s[2..])
      case None => None
      case Some((cell, rest)) => Some(("\"" + cell, rest))
    else Some(("", s[1..]))
  }

  /** Reads the quoted fields of one record, separated by `,`; gives them and the text after them. */
  function ReadCells(s: string): (r: Option<(seq<string>, string)>)
    ensures r.Some? ==> |r.value.1| < |s|
    decreases |s|
  {
    if s == [] || s[0] != '"' then None
    else
      match Unquote(s[1..])
      case None => None
      case Some((cell, rest)) =>
        if rest != [] && rest[0] == ',' then
          match ReadCells(rest[1..])
          case None => None
          case Some((cells, rest')) => Some(([cell] + cells, rest'))
        else Some(([cell], rest))
  }

  /** Reads records separated by `\n` up to the end of the text. */
  function Read(s: string): Option<seq<seq<string>>>
    decreases |s|
  {
    if s == [] then Some([])
    else
      match ReadCells(s)
      case None => None
      case Some((cells, rest)) =>
        if rest == [] then Some([cells])
        else if rest[0] != '\n' then None
        else
          match Read(rest[1..])
          case None => None
          case Some(rows) => Some([cells] + rows)
  }

  // ---- Writing then reading gives the cells back ----

  /** Un-doubling the quotes of a written cell recovers the cell, and stops at its closing quote. */
  lemma {:induction false} UnquoteDoubled(cell: string, rest: string)
    requires rest == [] || rest[0] != '"'
    ensures Unquote(Doubled(cell) + "\"" + rest) == Some((cell, rest))
    decreases |cell|
  {
    var s := Doubled(cell) + "\"" + rest;
    if cell == [] {
      assert s == "\"" + rest;
      assert s[1..] == rest;
    } else if cell[0] == '"' {
      UnquoteDoubled(cell[1..], rest);
      assert s == "\"\"" + (Doubled(cell[1..]) + "\"" + rest);
      assert s[2..] == Doubled(cell[1..]) + "\"" + rest;
      assert "\"" + cell[1..] == cell;
    } else {
      UnquoteDoubled(cell[1..], rest);
      assert s == [cell[0]] + (Doubled(cell[1..]) + "\"" + rest);
      assert s[1..] == Doubled(cell[1..]) + "\"" + rest;
      assert [cell[0]] + cell[1..] == cell;
    }
  }

  /** A written cell followed by anything but a quote reads back as that cell. */
  lemma ReadQuoted(cell: string, after: string)
    requires after == [] || after[0] != '"'
    ensures (QuoteCell(cell) + after)[0] == '"'
    ensures Unquote((QuoteCell(cell) + after)[1..]) == Some((cell, after))
  {
    var s := QuoteCell(cell) + after;
    assert s[1..] == Doubled(cell) + "\"" + after;
    UnquoteDoubled(cell, after);
  }

  /** A row of two or more cells is its first cell, a comma and the rest of the row. */
  lemma LineCons(row: seq<string>)
    requires |row| > 1
    ensures Line(row) == QuoteCell(row[0]) + [','] + Line(row[1..])
  {
    assert QuoteAll(row)[1..] == QuoteAll(row[1..]);
  }

  /** A written cell that ends the record reads back as a record of that one cell. */
  lemma ReadLastCell(cell: string, rest: string)
    requires rest == [] || rest[0] == '\n'
    ensures ReadCells(QuoteCell(cell) + rest) == Some(([cell], rest))
  {
    ReadQuoted(cell, rest);
  }

  /** A written cell followed by a comma reads as that cell in front of whatever the rest reads as. */
  lemma ReadCellThenComma(cell: string, t: string)
    ensures ReadCells(QuoteCell(cell) + ([','] + t))
         == match ReadCells(t)
            case None => None
            case Some((cells, rest)) => Some(([cell] + cells, rest))
  {
    var after := [','] + t;
    ReadQuoted(cell, after);
    assert after[1..] == t;
  }

  /** The row's text followed by `rest`, regrouped as its first cell, a comma and everything after. */
  lemma LineRest(row: seq<string>, rest: string)
    requires |row| > 1
    ensures Line(row) + rest == QuoteCell(row[0]) + ([','] + (Line(row[1..]) + rest))
  {
    var a, c := QuoteCell(row[0]), Line(row[1..]);
    LineCons(row);
    assert a + [','] + c + rest == a + ([','] + (c + rest));
  }

  /** A row of two or more cells reads back when the row without its first cell does. */
  lemma ReadLineStep(row: seq<string>, rest: string)
    requires |row| > 1
    requires ReadCells(Line(row[1..]) + rest) == Some((row[1..], rest))
    ensures ReadCells(Line(row) + rest) == Some((row, rest))
  {
    var t := Line(row[1..]) + rest;
    var y := QuoteCell(row[0]) + ([','] + t);
    assert Line(row) + rest == y by {
      LineRest(row, rest);
    }
    assert ReadCells(y) == Some((row, rest)) by {
      ReadCellThenComma(row[0], t);
      assert [row[0]] + row[1..] == row;
    }
  }

  /** A written row reads back as its cells, provided what follows it does not continue the row. */
  lemma {:induction false} ReadLine(row: seq<string>, rest: string)
    requires row != []
    requires rest == [] || rest[0] == '\n'
    ensures ReadCells(Line(row) + rest) == Some((row, rest))
    decreases |row|
  {
    if |row| == 1 {
      assert Line(row) == QuoteCell(row[0]);
      ReadLastCell(row[0], rest);
      assert [row[0]] == row;
    } else {
      ReadLine(row[1..], rest);
      ReadLineStep(row, rest);
    }
  }

  /** Reading a written document gives back exactly the rows that were written. */
  lemma {:induction false} ReadDocument(rows: seq<seq<string>>)
    requires forall k :: 0 <= k < |rows| ==> rows[k] != []
    ensures Read(Document(rows)) == Some(rows)
    decreases |rows|
  {
    var ls := Lines(rows);
    if rows == [] {
    } else if |rows| == 1 {
      assert Document(rows) == Line(rows[0]) + "";
      ReadLine(rows[0], "");
      assert Line(rows[0]) != [];
      assert [rows[0]] == rows;
    } else {
      assert ls[1..] == Lines(rows[1..]);
      var tail := Document(rows[1..]);
      assert Document(rows) == Line(rows[0]) + ("\n" + tail);
      ReadLine(rows[0], "\n" + tail);
      assert Line(rows[0]) != [];
      assert ("\n" + tail)[1..] == tail;
      ReadDocument(rows[1..]);
      assert [rows[0]] + rows[1..] == rows;
    }
  }
}
