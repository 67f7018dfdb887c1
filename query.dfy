/**
 * The query engine: `search_elements`, `filter_elements_by_group_or_period`
 * and the three-way identity lookup of menu option 1.
 */
module Query {
  import opened Wrappers
  import opened Text
  import opened Sequences
  import opened Records

  /** The test of `search_elements`: a missing field reads as `''`, both sides are lowered. */
  predicate Matches(el: Record, criterion: string, value: string)
  {
    Lower(Get(el, criterion, "")) == Lower(value)
  }

  /** The test of `filter_elements_by_group_or_period`: exact equality, missing reads as `''`. */
  predicate Equals(el: Record, key: string, value: string)
  {
    Get(el, key, "") == value
  }

  /** `search_elements(elements, criterion, value)`. */
  function Search(elements: seq<Record>, criterion: string, value: string): (r: seq<Record>)
    ensures |r| <= |elements|
    ensures IsSubsequence(r, elements)
    ensures forall el :: el in r <==> el in elements && Matches(el, criterion, value)
  {
    Keep(elements, (el: Record) => Matches(el, criterion, value))
  }

  /** `filter_elements_by_group_or_period(elements, key, value)`. */
  function Filter(elements: seq<Record>, key: string, value: string): (r: seq<Record>)
    ensures |r| <= |elements|
    ensures IsSubsequence(r, elements)
    ensures forall el :: el in r <==> el in elements && Equals(el, key, value)
  {
    Keep(elements, (el: Record) => Equals(el, key, value))
  }

  /** Each record occurs in the result as often as in the input if it matches, and never otherwise. */
  lemma SearchCount(elements: seq<Record>, criterion: string, value: string, el: Record)
    ensures multiset(Search(elements, criterion, value))[el] ==
      if Matches(el, criterion, value) then multiset(elements)[el] else 0
  {
    KeepCount(elements, (e: Record) => Matches(e, criterion, value), el);
  }

  /** Each record occurs in the result as often as in the input if it matches, and never otherwise. */
  lemma FilterCount(elements: seq<Record>, key: string, value: string, el: Record)
    ensures multiset(Filter(elements, key, value))[el] ==
      if Equals(el, key, value) then multiset(elements)[el] else 0
  {
    KeepCount(elements, (e: Record) => Equals(e, key, value), el);
  }

  /** Two queries that lower to the same text find the same records, in the same order. */
  lemma SearchCaseInsensitive(elements: seq<Record>, criterion: string, v: string, w: string)
    requires Lower(v) == Lower(w)
    ensures Search(elements, criterion, v) == Search(elements, criterion, w)
  {
    KeepCongruent(elements, (el: Record) => Matches(el, criterion, v), (el: Record) => Matches(el, criterion, w));
  }

  /** In particular, lowering the query first changes nothing. */
  lemma SearchLoweredQuery(elements: seq<Record>, criterion: string, value: string)
    ensures Search(elements, criterion, value) == Search(elements, criterion, Lower(value))
  {
    LowerIdempotent(value);
    SearchCaseInsensitive(elements, criterion, value, Lower(value));
  }

  /** A record lacking the criterion field is found exactly by the empty query. */
  lemma SearchMissingField(el: Record, criterion: string, value: string)
    requires !HasKey(el, criterion)
    ensures Search([el], criterion, value) == (if value == "" then [el] else [])
  {
    LowerEmpty(value);
    assert Lower("") == "";
  }

  /** A record lacking the key is kept exactly by the empty value. */
  lemma FilterMissingKey(el: Record, key: string, value: string)
    requires !HasKey(el, key)
    ensures Filter([el], key, value) == (if value == "" then [el] else [])
  {
  }

  /** Filtering with no matching record gives the empty list rather than an error. */
  lemma FilterEmptyIff(elements: seq<Record>, key: string, value: string)
    ensures Filter(elements, key, value) == [] <==> forall k | 0 <= k < |elements| :: !Equals(elements[k], key, value)
  {
    var r := Filter(elements, key, value);
    if r != [] {
      assert r[0] in r;
    }
    if exists k | 0 <= k < |elements| :: Equals(elements[k], key, value) {
      var k :| 0 <= k < |elements| && Equals(elements[k], key, value);
      assert elements[k] in elements;
      assert elements[k] in r;
    }
  }

  /** Searching with no matching record gives the empty list rather than an error. */
  lemma SearchEmptyIff(elements: seq<Record>, criterion: string, value: string)
    ensures Search(elements, criterion, value) == [] <==> forall k | 0 <= k < |elements| :: !Matches(elements[k], criterion, value)
  {
    var r := Search(elements, criterion, value);
    if r != [] {
      assert r[0] in r;
    }
    if exists k | 0 <= k < |elements| :: Matches(elements[k], criterion, value) {
      var k :| 0 <= k < |elements| && Matches(elements[k], criterion, value);
      assert elements[k] in elements;
      assert elements[k] in r;
    }
  }

  /** Menu option 1: `AtomicNumber`, then `Element`, then `Symbol`; the first non-empty result wins. */
  function Identify(elements: seq<Record>, query: string): (r: seq<Record>)
    ensures IsSubsequence(r, elements)
    ensures forall el | el in r :: Matches(el, "AtomicNumber", query) || Matches(el, "Element", query) || Matches(el, "Symbol", query)
  {
    var byNumber := Search(elements, "AtomicNumber", query);
    if byNumber != [] then byNumber
    else
      var byName := Search(elements, "Element", query);
      if byName != [] then byName
      else Search(elements, "Symbol", query)
  }

  /**
   * The lookup answers with the AtomicNumber search as soon as some record matches on
   * AtomicNumber; failing that, with the Element search as soon as some record matches on
   * Element; and only otherwise with the Symbol search.
   */
  lemma IdentifyPriority(elements: seq<Record>, query: string)
    ensures (exists k | 0 <= k < |elements| :: Matches(elements[k], "AtomicNumber", query)) ==>
      Identify(elements, query) == Search(elements, "AtomicNumber", query)
    ensures (forall k | 0 <= k < |elements| :: !Matches(elements[k], "AtomicNumber", query)) &&
            (exists k | 0 <= k < |elements| :: Matches(elements[k], "Element", query)) ==>
      Identify(elements, query) == Search(elements, "Element", query)
    ensures (forall k | 0 <= k < |elements| :: !Matches(elements[k], "AtomicNumber", query)) &&
            (forall k | 0 <= k < |elements| :: !Matches(elements[k], "Element", query)) ==>
      Identify(elements, query) == Search(elements, "Symbol", query)
  {
    SearchEmptyIff(elements, "AtomicNumber", query);
    SearchEmptyIff(elements, "Element", query);
  }

  /** "Not found" is reported exactly when no record matches the query on any of the three fields. */
  lemma IdentifyEmptyIff(elements: seq<Record>, query: string)
    ensures Identify(elements, query) == [] <==>
      forall k | 0 <= k < |elements| ::
        !Matches(elements[k], "AtomicNumber", query) && !Matches(elements[k], "Element", query) && !Matches(elements[k], "Symbol", query)
  {
    SearchEmptyIff(elements, "AtomicNumber", query);
    SearchEmptyIff(elements, "Element", query);
    SearchEmptyIff(elements, "Symbol", query);
  }

  // A two-record data set: Hydrogen and Helium.

  const Hydrogen: Record := [Field("Element", "Hydrogen"), Field("Symbol", "H"), Field("AtomicNumber", "1"),
                             Field("AtomicMass", "1.008"), Field("Group", "1"), Field("Period", "1")]
  const Helium: Record := [Field("Element", "Helium"), Field("Symbol", "He"), Field("AtomicNumber", "2"),
                           Field("AtomicMass", "4.0026"), Field("Group", "18"), Field("Period", "1")]

  lemma HydrogenFields()
    ensures Get(Hydrogen, "Group", "") == "1" && Get(Hydrogen, "Period", "") == "1"
  {
    LookupField(Hydrogen, 4);
    LookupField(Hydrogen, 5);
  }

  lemma HeliumFields()
    ensures Get(Helium, "Group", "") == "18" && Get(Helium, "Period", "") == "1"
  {
    LookupField(Helium, 4);
    LookupField(Helium, 5);
  }

  /** Filtering by Period=1 keeps both records. */
  lemma FilterPeriodExample()
    ensures Filter([Hydrogen, Helium], "Period", "1") == [Hydrogen, Helium]
  {
    HydrogenFields();
    HeliumFields();
    var els := [Hydrogen, Helium];
    var byPeriod := (el: Record) => Equals(el, "Period", "1");
    assert byPeriod(els[0]) && byPeriod(els[1]);
    assert forall k | 0 <= k < |els| :: byPeriod(els[k]) by {
      forall k | 0 <= k < |els| ensures byPeriod(els[k]) {
        assert k == 0 || k == 1;
      }
    }
    KeepAll(els, byPeriod);
  }

  /** Filtering by Group=1 keeps only Hydrogen. */
  lemma FilterGroupExample()
    ensures Filter([Hydrogen, Helium], "Group", "1") == [Hydrogen]
  {
    HydrogenFields();
    HeliumFields();
    assert "18" != "1";
    var els := [Hydrogen, Helium];
    var byGroup := (el: Record) => Equals(el, "Group", "1");
    assert els[1..] == [Helium];
    assert Keep([Helium], byGroup) == [];
    assert Keep(els, byGroup) == [Hydrogen] + Keep([Helium], byGroup);
  }

  /** `O` and `o` find the same records by Symbol. */
  lemma SearchSymbolExample(elements: seq<Record>)
    ensures Search(elements, "Symbol", "O") == Search(elements, "Symbol", "o")
  {
    assert Lower("O") == "o" == Lower("o");
    SearchCaseInsensitive(elements, "Symbol", "O", "o");
  }
}
