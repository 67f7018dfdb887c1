/**
 * `generate_markdown`: a heading, then one bullet per record naming its
 * `Element`, `Symbol` and `AtomicNumber`. Unlike the other exporters it reads
 * these three keys with `element[key]` and so raises KeyError on a record
 * that lacks one; the bullets written before that stay in the file.
 */
module Markdown {
  import opened Wrappers
  import opened Sequences
  import opened Records
  import opened Output

  /** The first write: the heading line and a blank line. */
  const Heading := "# Přehled chemických prvků\n\n"

  /** `f"- **{name}** ({symbol}): Atomic Number {number}\n"`. */
  function SummaryLine(name: string, symbol: string, number: string): string
  {
    "- **" + (name + ("** (" + (symbol + ("): Atomic Number " + (number + "\n")))))
  }

  /**
   * The f-string of one record. A bullet is produced iff the record has `Element`, `Symbol` and
   * `AtomicNumber`; the fields are read left to right, so otherwise the first missing one is reported.
   */
  function Bullet(el: Record): (r: Result<string, Error>)
    ensures r.Ok? <==> HasKey(el, "Element") && HasKey(el, "Symbol") && HasKey(el, "AtomicNumber")
    ensures r.Ok? ==>
      r.value == SummaryLine(Get(el, "Element", ""), Get(el, "Symbol", ""), Get(el, "AtomicNumber", ""))
    ensures r.Err? ==> r.error == KeyError(
      if !HasKey(el, "Element") then "Element" else if !HasKey(el, "Symbol") then "Symbol" else "AtomicNumber")
  {
    match Lookup(el, "Element")
    case None => Err(KeyError("Element"))
    case Some(name) =>
      match Lookup(el, "Symbol")
      case None => Err(KeyError("Symbol"))
      case Some(symbol) =>
        match Lookup(el, "AtomicNumber")
        case None => Err(KeyError("AtomicNumber"))
        case Some(number) => Ok(SummaryLine(name, symbol, number))
  }

  /** The line each record would produce, in record order. */
  function Bullets(elements: seq<Record>): (lines: seq<Result<string, Error>>)
    ensures |lines| == |elements|
  {
    seq(|elements|, k requires 0 <= k < |elements| => Bullet(elements[k]))
  }

  /** The writes of `generate_markdown`. */
  function MarkdownDocument(elements: seq<Record>): (w: Written)
    ensures |w.writes| >= 1 && w.writes[0] == Heading
    ensures |w.writes| <= |elements| + 1
    ensures w.failure.Some? ==> exists k | 0 <= k < |elements| :: Bullet(elements[k]) == Err(w.failure.value)
  {
    var bullets := WritesFrom(Bullets(elements), 0);
    Written([Heading] + bullets.writes, bullets.failure)
  }

  /** `generate_markdown(elements, file_path)`, with the file replaced by the list of writes. */
  method GenerateMarkdown(elements: seq<Record>) returns (writes: seq<string>, failure: Option<Error>)
    ensures Written(writes, failure) == MarkdownDocument(elements)
  {
    ghost var lines := Bullets(elements);
    writes := [Heading];
    var i := 0;
    while i < |elements|
      invariant 0 <= i <= |elements|
      invariant MarkdownDocument(elements) == Written(writes + WritesFrom(lines, i).writes, WritesFrom(lines, i).failure)
    {
      var bullet := Bullet(elements[i]);
      assert bullet == lines[i];
      match bullet
      case Err(e) =>
        failure := Some(e);
        assert writes + [] == writes;
        return;
      case Ok(line) =>
        assert writes + WritesFrom(lines, i).writes == (writes + [line]) + WritesFrom(lines, i + 1).writes;
        writes := writes + [line];
      i := i + 1;
    }
    assert writes + [] == writes;
    failure := None;
  }

  /**
   * When every record has `Element`, `Symbol` and `AtomicNumber`: the heading, then exactly one
   * bullet per record, in input order, `|elements| + 1` writes in all; otherwise a KeyError.
   */
  lemma MarkdownComplete(elements: seq<Record>)
    ensures var w := MarkdownDocument(elements);
      (w.failure == None <==> forall k | 0 <= k < |elements| :: Bullet(elements[k]).Ok?)
    ensures var w := MarkdownDocument(elements);
      w.failure == None ==>
        && |w.writes| == |elements| + 1
        && w.writes[0] == Heading
        && forall k | 0 <= k < |elements| :: Bullet(elements[k]) == Ok(w.writes[k + 1])
  {
    var lines := Bullets(elements);
    BulletsAt(elements);
    WritesFromComplete(lines, 0);
    var w := MarkdownDocument(elements);
    if w.failure == None {
      forall k | 0 <= k < |elements| ensures Bullet(elements[k]) == Ok(w.writes[k + 1]) {
        assert w.writes[k + 1] == WritesFrom(lines, 0).writes[k];
      }
    }
  }

  lemma BulletsAt(elements: seq<Record>)
    ensures forall k | 0 <= k < |elements| :: Bullets(elements)[k] == Bullet(elements[k])
  {
  }

  /** The bullets written before the first record that lacks a key, and that record's error. */
  lemma BulletsStop(elements: seq<Record>, j: nat)
    requires j < |elements|
    requires forall k | 0 <= k < j :: Bullet(elements[k]).Ok?
    requires Bullet(elements[j]).Err?
    ensures WritesFrom(Bullets(elements), 0) ==
      Written(seq(j, k requires 0 <= k < j => Bullet(elements[k]).value), Some(Bullet(elements[j]).error))
  {
    var lines := Bullets(elements);
    forall k | 0 <= k < j ensures lines[k].Ok? {
      assert lines[k] == Bullet(elements[k]);
    }
    assert lines[j] == Bullet(elements[j]);
    WritesFromStops(lines, 0, j);
    var before := seq(j, k requires 0 <= k < j => lines[0 + k].value);
    var expected := seq(j, k requires 0 <= k < j => Bullet(elements[k]).value);
    forall k | 0 <= k < j ensures before[k] == expected[k] {
      assert lines[k] == Bullet(elements[k]);
    }
    assert before == expected;
  }

  /** On the first record lacking a key, the file holds the heading and the bullets before it. */
  lemma MarkdownStops(elements: seq<Record>, j: nat)
    requires j < |elements|
    requires forall k | 0 <= k < j :: Bullet(elements[k]).Ok?
    requires Bullet(elements[j]).Err?
    ensures MarkdownDocument(elements) ==
      Written([Heading] + seq(j, k requires 0 <= k < j => Bullet(elements[k]).value), Some(Bullet(elements[j]).error))
  {
    BulletsStop(elements, j);
  }

  /** Reads a summary line back into its name, symbol and number. */
  function ParseSummaryLine(line: string): Option<(string, string, string)>
  {
    if !("- **" <= line) then None
    else
      var afterDash := line[4..];
      var name := TakeUntil(afterDash, '*');
      var afterName := afterDash[|name|..];
      if !("** (" <= afterName) then None
      else
        var afterParen := afterName[4..];
        var symbol := TakeUntil(afterParen, ')');
        var afterSymbol := afterParen[|symbol|..];
        if !("): Atomic Number " <= afterSymbol) then None
        else
          var tail := afterSymbol[17..];
          if tail == [] || tail[|tail| - 1] != '\n' then None
          else Some((name, symbol, tail[..|tail| - 1]))
  }

  /**
   * The bullet keeps three of a record's fields, and keeps them recoverably as long as the
   * name holds no `*` and the symbol no `)`.
   */
  lemma SummaryLineRoundTrip(name: string, symbol: string, number: string)
    requires '*' !in name && ')' !in symbol
    ensures ParseSummaryLine(SummaryLine(name, symbol, number)) == Some((name, symbol, number))
  {
    var tail := number + "\n";
    var afterSymbol := "): Atomic Number " + tail;
    var afterParen := symbol + afterSymbol;
    var afterName := "** (" + afterParen;
    var afterDash := name + afterName;
    DropPrefix("- **", afterDash);
    TakeUntilStopsAt(name, afterName, '*');
    DropPrefix(name, afterName);
    DropPrefix("** (", afterParen);
    TakeUntilStopsAt(symbol, afterSymbol, ')');
    DropPrefix(symbol, afterSymbol);
    DropPrefix("): Atomic Number ", tail);
    DropPrefix(number, "\n");
  }

  /**
   * When every record has the three keys, and no name holds `*` and no symbol `)`, each bullet
   * of the file gives back its record's name, symbol and atomic number.
   */
  lemma MarkdownRoundTrip(elements: seq<Record>)
    requires forall k | 0 <= k < |elements| ::
      HasKey(elements[k], "Element") && HasKey(elements[k], "Symbol") && HasKey(elements[k], "AtomicNumber")
    requires forall k | 0 <= k < |elements| ::
      '*' !in Get(elements[k], "Element", "") && ')' !in Get(elements[k], "Symbol", "")
    ensures var w := MarkdownDocument(elements);
      && w.failure == None
      && |w.writes| == |elements| + 1
      && forall k | 0 <= k < |elements| ::
           ParseSummaryLine(w.writes[k + 1]) ==
             Some((Get(elements[k], "Element", ""), Get(elements[k], "Symbol", ""), Get(elements[k], "AtomicNumber", "")))
  {
    MarkdownComplete(elements);
    var w := MarkdownDocument(elements);
    forall k | 0 <= k < |elements|
      ensures ParseSummaryLine(w.writes[k + 1]) ==
        Some((Get(elements[k], "Element", ""), Get(elements[k], "Symbol", ""), Get(elements[k], "AtomicNumber", "")))
    {
      assert Bullet(elements[k]).Ok?;
      SummaryLineRoundTrip(Get(elements[k], "Element", ""), Get(elements[k], "Symbol", ""), Get(elements[k], "AtomicNumber", ""));
    }
  }
}
