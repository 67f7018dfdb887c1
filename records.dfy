/**
 * The record store: each element is one row of the CSV file, a Python dict from
 * column name to text. Dicts keep insertion order and the exporters rely on it,
 * so a record is the ordered list of its (key, value) pairs.
 */
module Records {
  import opened Wrappers

  datatype Field = Field(key: string, value: string)

  type Record = seq<Field>

  /** The exceptions the core can raise on well-typed data. */
  datatype Error =
    | KeyError(key: string)   // `el[key]` on a record without `key`
    | IndexError              // `elements[0]` on an empty list

  /** A dict never holds a key twice. */
  predicate DistinctKeys(r: Record)
  {
    forall i, j | 0 <= i < j < |r| :: r[i].key != r[j].key
  }

  /** Dictionary lookup: the value stored under `key`, if any. */
  function Lookup(r: Record, key: string): (v: Option<string>)
    ensures v.None? <==> forall j | 0 <= j < |r| :: r[j].key != key
    ensures v.Some? ==> exists j | 0 <= j < |r| :: r[j] == Field(key, v.value)
    decreases |r|
  {
    if r == [] then None
    else if r[0].key == key then Some(r[0].value)
    else
      var v := Lookup(r[1..], key);
      assert v.Some? ==> exists j | 0 <= j < |r[1..]| :: r[1..][j] == Field(key, v.value);
      v
  }

  /** With distinct keys, looking up a field's key yields that field's value. */
  lemma {:induction false} LookupField(r: Record, j: nat)
    requires DistinctKeys(r)
    requires j < |r|
    ensures Lookup(r, r[j].key) == Some(r[j].value)
    decreases |r|
  {
    if j > 0 {
      LookupField(r[1..], j - 1);
    }
  }

  predicate HasKey(r: Record, key: string)
  {
    Lookup(r, key).Some?
  }

  /** `el.get(key, default)`. */
  function Get(r: Record, key: string, default: string): (v: string)
    ensures !HasKey(r, key) ==> v == default
    ensures HasKey(r, key) ==> exists j | 0 <= j < |r| :: r[j] == Field(key, v)
  {
    Lookup(r, key).GetOr(default)
  }

  /** `el.keys()`, in insertion order. */
  function Keys(r: Record): (ks: seq<string>)
    ensures |ks| == |r|
    ensures forall j | 0 <= j < |r| :: ks[j] == r[j].key
  {
    seq(|r|, j requires 0 <= j < |r| => r[j].key)
  }

  /** `el.values()`, in insertion order. */
  function Values(r: Record): (vs: seq<string>)
    ensures |vs| == |r|
    ensures forall j | 0 <= j < |r| :: vs[j] == r[j].value
  {
    seq(|r|, j requires 0 <= j < |r| => r[j].value)
  }
}
