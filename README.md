# Periodic table lookup tool — verified model

A Dafny model of the data-processing core of `PeriodicTable/main.py`, a small
interactive tool over a CSV table of chemical elements. The table is loaded once
into a list of records; the tool searches and filters it, picks the valid atomic
masses for an average, and exports the table as HTML, Markdown and an XML tree.

Modules (one file each):

- `Wrappers` (`wrappers.dfy`): `Option` and `Result`.
- `Text` (`text.dfy`): ASCII `isdigit` and `lower`.
- `Sequences` (`sequences.dfy`): `Keep`, the list comprehension `[x for x in s if p(x)]`,
  with subsequence, membership and multiplicity facts; `TakeUntil`, a prefix scan used
  to read exported lines back.
- `Records` (`records.dfy`): a record is the ordered list of its `(key, value)` pairs,
  because a Python dict keeps insertion order and the exporters rely on it.
  `Lookup`/`Get` are `el[key]` / `el.get(key, default)`; `Error` names the two
  exceptions the core can raise (`KeyError`, `IndexError`).
- `Query` (`query.dfy`): `search_elements`, `filter_elements_by_group_or_period`, and
  the three-way lookup of menu option 1.
- `Mass` (`mass.dfy`): the test `s.replace('.', '', 1).isdigit()`, the records selected
  by `calculate_average_mass`, its KeyError and its "no valid mass gives 0" branch.
- `Output` (`output.dfy`): what an exporter leaves in its file, as the list of
  `file.write` arguments plus the exception that stopped it, and the generic
  "write each line, stop at the first exception" loop.
- `Html` (`html.dfy`), `Markdown` (`markdown.dfy`): `generate_html` and
  `generate_markdown` as methods that append to a list of writes in a loop, proved
  equal to a specification function, with lemmas about that function.
- `Xml` (`xml.dfy`): the tree `generate_xml` builds, by nested loops, as a datatype.

Behaviour worth noting:

- A missing field reads as `''` in both query functions (`el.get(key, '')`), so it is
  NOT distinguished from an empty value: a record without the field matches the empty
  query.
- `calculate_average_mass` reads `el['AtomicMass']` for every record, so one record
  without that key raises KeyError for the whole call; only wrong-looking values are
  skipped silently.
- `generate_html` writes the open-table line before it reads `elements[0]`: on an empty
  list the file keeps that one line and IndexError is raised. `generate_markdown` stops at
  the first record lacking `Element`, `Symbol` or `AtomicNumber`, leaving the heading and
  the earlier bullets in the file. Both are modelled as a partial write list plus an error.

## Model

| member | source | states |
|---|---|---|
| `Sequences.Keep` | PeriodicTable/main.py:22 | the comprehension result is no longer than its input, is a subsequence of it (order kept), and contains exactly the input elements that pass the test |
| `Sequences.KeepCount` | PeriodicTable/main.py:26 | each value occurs in the result as often as in the input when it passes the test, and not at all otherwise |
| `Sequences.KeepCongruent` | PeriodicTable/main.py:22 | the comprehension depends only on the test's answers on the input's elements |
| `Sequences.KeepAll` | PeriodicTable/main.py:26 | when every element passes, the comprehension returns its input unchanged |
| `Records.Lookup` | PeriodicTable/main.py:22 | a lookup misses iff no field has the key, and a hit returns the value of a field with that key |
| `Records.Get` | PeriodicTable/main.py:22-26 | `el.get(key, default)` gives the default when the key is absent, and otherwise the value stored under the key |
| `Records.Keys` | PeriodicTable/main.py:38 | `el.keys()`: one key per field, in insertion order |
| `Records.Values` | PeriodicTable/main.py:40 | `el.values()`: one value per field, in insertion order |
| `Records.LookupField` | PeriodicTable/main.py:26 | in a record with distinct keys, looking up a field's key yields that field's value |
| `Text.LowerChar` | PeriodicTable/main.py:22 | lowering maps `A`..`Z` to `a`..`z`, leaves every other character alone and never yields an upper-case letter |
| `Text.Lower` | PeriodicTable/main.py:22 | lowering keeps the length, lowers each character in place, and leaves no upper-case letter |
| `Text.LowerIdempotent` | PeriodicTable/main.py:22 | lowering twice is lowering once |
| `Text.LowerEmpty` | PeriodicTable/main.py:22 | only the empty string lowers to the empty string |
| `Query.Search` | PeriodicTable/main.py:21-22 | `search_elements` returns a subsequence of the records, in input order, holding exactly the records whose field (missing read as `''`) equals the query case-insensitively |
| `Query.SearchCount` | PeriodicTable/main.py:21-22 | every matching record is kept with all its duplicates; no other record appears |
| `Query.SearchCaseInsensitive` | PeriodicTable/main.py:22 | two queries with the same lower-case form give identical results |
| `Query.SearchLoweredQuery` | PeriodicTable/main.py:22 | `search(els, c, v) == search(els, c, lower(v))` |
| `Query.SearchMissingField` | PeriodicTable/main.py:22 | a record lacking the criterion field is found iff the query is empty |
| `Query.SearchEmptyIff` | PeriodicTable/main.py:21-22 | the result is empty (never an error) iff no record matches |
| `Query.SearchSymbolExample` | PeriodicTable/main.py:22 | searching Symbol for `O` and for `o` gives the same records |
| `Query.Filter` | PeriodicTable/main.py:25-26 | `filter_elements_by_group_or_period` returns a subsequence of the records, in input order, holding exactly those whose field (missing read as `''`) equals the value case-sensitively |
| `Query.FilterCount` | PeriodicTable/main.py:25-26 | every kept record keeps all its duplicates; no other record appears |
| `Query.FilterMissingKey` | PeriodicTable/main.py:26 | a record lacking the key is kept iff the value is empty |
| `Query.FilterEmptyIff` | PeriodicTable/main.py:25-26 | the result is empty (never an error) iff no record's field equals the value |
| `Query.FilterPeriodExample` | PeriodicTable/main.py:104-107 | on the Hydrogen/Helium data, filtering by Period `1` keeps both records |
| `Query.FilterGroupExample` | PeriodicTable/main.py:104-107 | on the Hydrogen/Helium data, filtering by Group `1` keeps only Hydrogen |
| `Query.Identify` | PeriodicTable/main.py:85-87 | the option-1 lookup returns a subsequence of the records, each matching the query on AtomicNumber, Element or Symbol |
| `Query.IdentifyPriority` | PeriodicTable/main.py:85-87 | if some record matches the query on AtomicNumber the lookup returns the AtomicNumber search; if none does but some record matches on Element, the Element search; if no record matches on either, the Symbol search |
| `Query.IdentifyEmptyIff` | PeriodicTable/main.py:85-92 | "not found" happens iff no record matches the query on any of the three fields |
| `Mass.FirstIndex` | PeriodicTable/main.py:31 | the position found holds the character and no earlier position does |
| `Mass.RemoveFirst` | PeriodicTable/main.py:31 | `replace('.', '', 1)` leaves a string without the character unchanged, and otherwise shortens it by exactly one |
| `Mass.RemoveFirstDeletesFirst` | PeriodicTable/main.py:31 | when the character occurs, the result is the string with exactly its first occurrence cut out: the part before it followed by the part after it |
| `Mass.RemoveFirstDotDigits` | PeriodicTable/main.py:31 | after removing the first dot only digits remain iff the string has at most one dot and otherwise only digits |
| `Mass.IsMassStringIff` | PeriodicTable/main.py:31 | a mass string is accepted iff it has at most one dot, all other characters are digits, and it is not empty or a lone dot |
| `Mass.AcceptedMassExamples` | PeriodicTable/main.py:31 | `1.008`, `4` and `4.0026` are accepted |
| `Mass.RejectedMassExamples` | PeriodicTable/main.py:31 | `""`, `.`, `1.2.3`, `-1` and `n/a` are rejected |
| `Mass.MassColumn` | PeriodicTable/main.py:31 | when every record has `AtomicMass`, one string per record, in order, each that record's `el['AtomicMass']` |
| `Mass.SelectMasses` | PeriodicTable/main.py:31 | KeyError (for `AtomicMass`) iff some record lacks `AtomicMass`; otherwise the selected strings are a subsequence of the mass column, in record order, no more than the records, and contain exactly the column's accepted values |
| `Mass.SelectMassesCount` | PeriodicTable/main.py:31 | an accepted mass string is selected as many times as it occurs in the column, a rejected one never |
| `Mass.AverageMass` | PeriodicTable/main.py:30-32 | an error exactly when the selection raises; otherwise the `else 0` branch (`Zero`) is taken iff the selection is empty, and else the mean of exactly the selected list, which is non-empty and holds only accepted strings |
| `Mass.AverageZeroIff` | PeriodicTable/main.py:32 | the `else 0` branch (`Zero`) is taken iff every record has a mass and none of them is accepted |
| `Mass.AverageOfNothing` | PeriodicTable/main.py:32 | an empty record list averages to 0 |
| `Mass.AverageExample` | PeriodicTable/main.py:30-32 | with masses `1.008`, `4.0026`, `n/a` the mean is taken of the first two |
| `Output.WritesFromComplete` | PeriodicTable/main.py:63-64 | the write loop finishes iff no line raises, and then writes every line in order |
| `Output.WritesFromStops` | PeriodicTable/main.py:63-64 | the write loop stops at the first line that raises, having written the lines before it |
| `Html.HtmlDocument` | PeriodicTable/main.py:35-41 | no error iff the list is non-empty; an empty list leaves only the open-table line and raises IndexError; otherwise `len + 3` writes from the open-table line to the close-table line |
| `Html.GenerateHtml` | PeriodicTable/main.py:35-41 | the writes of `generate_html` and its failure are those of `HtmlDocument` |
| `Html.HtmlShape` | PeriodicTable/main.py:37-41 | for a non-empty list: open line, one header row of the first record's keys, one row per record of its values in order, close line; `len + 3` writes, no error |
| `Html.CellsRoundTrip` | PeriodicTable/main.py:38-40 | a run of cells whose texts hold no `<` reads back to exactly its items |
| `Html.RowRoundTrip` | PeriodicTable/main.py:38-40 | a row whose texts hold no `<` reads back to exactly its items |
| `Html.HeaderRoundTrip` | PeriodicTable/main.py:38 | a header row reads back to the record's keys when none holds `<` |
| `Html.DataRoundTrip` | PeriodicTable/main.py:40 | a data row reads back to the record's values when none holds `<` |
| `Html.HtmlRoundTrip` | PeriodicTable/main.py:37-41 | without `<` in keys and values, the table gives back the first record's keys and every record's values |
| `Html.UnescapedValueCollision` | PeriodicTable/main.py:40 | values are not escaped: a one-field record holding `</td><td>` produces the same row as a two-field record |
| `Markdown.Bullet` | PeriodicTable/main.py:64 | a bullet is produced iff the record has Element, Symbol and AtomicNumber; it is `- **E** (S): Atomic Number N`; otherwise KeyError for the first missing key in that order |
| `Markdown.MarkdownDocument` | PeriodicTable/main.py:60-64 | the heading is always written first, at most one bullet follows per record, and an error is always a record's own KeyError |
| `Markdown.GenerateMarkdown` | PeriodicTable/main.py:60-64 | the writes of `generate_markdown` and its failure are those of `MarkdownDocument` |
| `Markdown.MarkdownComplete` | PeriodicTable/main.py:62-64 | no error iff every record has the three keys, and then the heading plus exactly one bullet per record in order, `len + 1` writes |
| `Markdown.MarkdownStops` | PeriodicTable/main.py:63-64 | at the first record lacking a key, the file holds the heading and the earlier bullets, and that record's KeyError is raised |
| `Markdown.SummaryLineRoundTrip` | PeriodicTable/main.py:64 | a bullet reads back to its name, symbol and number when the name holds no `*` and the symbol no `)` |
| `Markdown.MarkdownRoundTrip` | PeriodicTable/main.py:62-64 | on records with the three keys (and no `*` / `)` in name / symbol) every bullet gives back its record's three fields |
| `Xml.ElementsTree` | PeriodicTable/main.py:50-55 | the tree has the `Elements`/`Element`/leaf shape, with one `Element` node per record and one leaf per field of that record |
| `Xml.BuildTree` | PeriodicTable/main.py:50-55 | the nested loops build `ElementsTree`: an `Elements` root, one `Element` node per record, one leaf per field |
| `Xml.TreeRoundTrip` | PeriodicTable/main.py:50-55 | the built tree has that shape, and reading the records back from it gives the input, field for field and in order |
| `Xml.RecordsRoundTrip` | PeriodicTable/main.py:50-55 | every tree of that shape is the tree of the records read back from it |

## Left out

- `load_elements` (`csv.DictReader`): the records are taken as given input. CSV quoting, short rows (values `None`) and extra columns (stored under a `None` key) are library behaviour not modelled; every value here is a string.
- `display_element`, every `print` and `input`, and the `while True` menu loop of `main`: console I/O. Only the option-1 lookup expression is modelled; options 2 and 3 call `Search` and `Filter` directly.
- `generate_json` (`json.dump`) and `ET.ElementTree.write`: library serialisers. Only the XML tree is modelled, not its bytes, the XML declaration, or how keys that are not valid XML names are written.
- `Xml.BuildTree`: builds the tree as a value, leaves before their parent; the source appends each `Element` to the root first and then mutates it in place through `ET.SubElement`. The final tree is the same; aliasing and order of mutation are not modelled.
- Opening and truncating the output files: each exporter returns the list of strings it writes (the file text is their concatenation); file-system errors are not modelled.
- `float(...)`, the mean `sum(masses) / len(masses)` and the `:.2f` formatting: floating point. `Mass.AverageMass` returns which strings the mean is taken of, or 0.
- `Text.Lower`: ASCII only; Python's `str.lower` also maps non-ASCII letters.
- `Text.IsDigit`: `'0'..'9'` only; Python's `str.isdigit` also accepts other Unicode digits such as superscripts, for which the following `float` would raise ValueError.
- `Records.Lookup`: returns the first field with the key; a dict never repeats a key, so this matters only for lists that no dict produces.
