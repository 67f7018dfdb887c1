/**
 * `generate_html`: a `<table>` with one header row taken from the first record's keys and
 * one row per record with that record's values, inserted without escaping.
 */
module Html {
  import opened Wrappers
  import opened Sequences
  import opened Records
  import opened Output

  const TableOpen := "<table border=\"1\">\n"
  const TableClose := "</table>\n"

  /** `f'<{tag}>{text}</{tag}>'`. */
  function Cell(tag: string, text: string): string
  {
    "<" + tag + ">" + text + "</" + tag + ">"
  }

  /** `''.join(Cell(tag, x) for x in items)`. */
  function Cells(tag: string, items: seq<string>): string
    decreases |items|
  {
    if items == [] then "" else Cell(tag, items[0]) + Cells(tag, items[1..])
  }

  /** One table row, as one write. */
  function Row(tag: string, items: seq<string>): string
  {
    "<tr>" + Cells(tag, items) + "</tr>\n"
  }

  function HeaderRow(r: Record): string
  {
    Row("th", Keys(r))
  }

  function DataRow(r: Record): string
  {
    Row("td", Values(r))
  }

  /**
   * The writes of `generate_html`. The open-table line is written before `elements[0]` is read,
   * so an empty list leaves that one line in the file and raises IndexError.
   */
  function HtmlDocument(elements: seq<Record>): (w: Written)
    ensures w.failure == None <==> elements != []
    ensures elements == [] ==> w == Written([TableOpen], Some(IndexError))
    ensures elements != [] ==>
      |w.writes| == |elements| + 3 && w.writes[0] == TableOpen && w.writes[|elements| + 2] == TableClose
  {
    if elements == [] then Written([TableOpen], Some(IndexError))
    else
      Written([TableOpen, HeaderRow(elements[0])]
                + seq(|elements|, i requires 0 <= i < |elements| => DataRow(elements[i]))
                + [TableClose],
              None)
  }

  /** `generate_html(elements, file_path)`, with the file replaced by the list of writes. */
  method GenerateHtml(elements: seq<Record>) returns (writes: seq<string>, failure: Option<Error>)
    ensures Written(writes, failure) == HtmlDocument(elements)
  {
    writes := [TableOpen];
    if |elements| == 0 {
      failure := Some(IndexError);
      return;
    }
    writes := writes + [HeaderRow(elements[0])];
    for i := 0 to |elements|
      invariant |writes| == i + 2
      invariant writes[0] == TableOpen && writes[1] == HeaderRow(elements[0])
      invariant forall k | 0 <= k < i :: writes[k + 2] == DataRow(elements[k])
    {
      writes := writes + [DataRow(elements[i])];
    }
    writes := writes + [TableClose];
    failure := None;
  }

  /**
   * For a non-empty list: the open-table line, exactly one header row with the first record's
   * keys, one row per record in input order with its values, the close-table line.
   */
  lemma HtmlShape(elements: seq<Record>)
    requires elements != []
    ensures var w := HtmlDocument(elements);
      && w.failure == None
      && |w.writes| == |elements| + 3
      && w.writes[0] == TableOpen
      && w.writes[1] == Row("th", Keys(elements[0]))
      && (forall i | 0 <= i < |elements| :: w.writes[i + 2] == Row("td", Values(elements[i])))
      && w.writes[|elements| + 2] == TableClose
  {
  }

  /** Reads back the items of a run of cells; the cell text ends at the next `<`. */
  function ParseCells(tag: string, s: string): (r: Option<seq<string>>)
    decreases |s|
  {
    var open := "<" + tag + ">";
    var close := "</" + tag + ">";
    if s == "" then Some([])
    else if !(open <= s) then None
    else
      var text := TakeUntil(s[|open|..], '<');
      var rest := s[|open| + |text|..];
      if !(close <= rest) then None
      else
        match ParseCells(tag, rest[|close|..])
        case None => None
        case Some(items) => Some([text] + items)
  }

  /** Reads back the items of one table row. */
  function ParseRow(tag: string, line: string): Option<seq<string>>
  {
    if |line| >= 10 && line[..4] == "<tr>" && line[|line| - 6..] == "</tr>\n" then
      ParseCells(tag, line[4..|line| - 6])
    else
      None
  }

  /** A cell whose text holds no `<` is read off the front of the string, leaving what follows. */
  lemma ParseCellsStep(tag: string, x: string, rest: string)
    requires '<' !in x
    ensures ParseCells(tag, Cell(tag, x) + rest) ==
      if ParseCells(tag, rest).Some? then Some([x] + ParseCells(tag, rest).value) else None
  {
    var open := "<" + tag + ">";
    var close := "</" + tag + ">";
    var s := Cell(tag, x) + rest;
    assert s == open + (x + (close + rest));
    DropPrefix(open, x + (close + rest));
    TakeUntilStopsAt(x, close + rest, '<');
    assert s == (open + x) + (close + rest);
    DropPrefix(open + x, close + rest);
    DropPrefix(close, rest);
  }

  /** Cells whose texts hold no `<` can be read back exactly. */
  lemma {:induction false} CellsRoundTrip(tag: string, items: seq<string>)
    requires forall i | 0 <= i < |items| :: '<' !in items[i]
    ensures ParseCells(tag, Cells(tag, items)) == Some(items)
    decreases |items|
  {
    if items != [] {
      CellsRoundTrip(tag, items[1..]);
      ParseCellsStep(tag, items[0], Cells(tag, items[1..]));
      assert [items[0]] + items[1..] == items;
    }
  }

  /** A row whose texts hold no `<` can be read back exactly. */
  lemma RowRoundTrip(tag: string, items: seq<string>)
    requires forall i | 0 <= i < |items| :: '<' !in items[i]
    ensures ParseRow(tag, Row(tag, items)) == Some(items)
  {
    var line := Row(tag, items);
    assert line[4..|line| - 6] == Cells(tag, items);
    CellsRoundTrip(tag, items);
  }

  /**
   * When no key and no value contains `<`, every record's values, and the first record's keys,
   * can be read back from the table.
   */
  lemma HtmlRoundTrip(elements: seq<Record>)
    requires elements != []
    requires forall k, j | 0 <= k < |elements| && 0 <= j < |elements[k]| :: '<' !in elements[k][j].value
    requires forall j | 0 <= j < |elements[0]| :: '<' !in elements[0][j].key
    ensures var w := HtmlDocument(elements);
      && ParseRow("th", w.writes[1]) == Some(Keys(elements[0]))
      && forall k | 0 <= k < |elements| :: ParseRow("td", w.writes[k + 2]) == Some(Values(elements[k]))
  {
    var w := HtmlDocument(elements);
    HeaderRoundTrip(elements[0]);
    forall k | 0 <= k < |elements|
      ensures ParseRow("td", w.writes[k + 2]) == Some(Values(elements[k]))
    {
      assert w.writes[k + 2] == DataRow(elements[k]);
      DataRoundTrip(elements[k]);
    }
  }

  lemma HeaderRoundTrip(r: Record)
    requires forall j | 0 <= j < |r| :: '<' !in r[j].key
    ensures ParseRow("th", HeaderRow(r)) == Some(Keys(r))
  {
    RowRoundTrip("th", Keys(r));
  }

  lemma DataRoundTrip(r: Record)
    requires forall j | 0 <= j < |r| :: '<' !in r[j].value
    ensures ParseRow("td", DataRow(r)) == Some(Values(r))
  {
    RowRoundTrip("td", Values(r));
  }

  /** Values are not escaped: a value holding markup makes one record's row equal to another's. */
  lemma UnescapedValueCollision()
    ensures DataRow([Field("Element", "x</td><td>y")]) == DataRow([Field("Element", "x"), Field("Symbol", "y")])
  {
    assert Values([Field("Element", "x</td><td>y")]) == ["x</td><td>y"];
    assert Values([Field("Element", "x"), Field("Symbol", "y")]) == ["x", "y"];
    assert ["x", "y"][1..] == ["y"] && ["y"][1..] == [];
    assert ["x</td><td>y"][1..] == [];
  }
}
