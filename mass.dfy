/**
 * The aggregator `calculate_average_mass`: which `AtomicMass` strings are accepted
 * by `s.replace('.', '', 1).isdigit()`, which records take part, and the branch
 * that answers 0 when none does. The floating-point mean itself is not modelled.
 */
module Mass {
  import opened Wrappers
  import opened Text
  import opened Sequences
  import opened Records

  const AtomicMassKey := "AtomicMass"

  /** The position of the first occurrence of `c` in `s` (what `str.find` returns). */
  function FirstIndex(s: string, c: char): (i: nat)
    requires c in s
    ensures i < |s| && s[i] == c && c !in s[..i]
    decreases |s|
  {
    if s[0] == c then 0
    else
      assert s == [s[0]] + s[1..];
      var j := FirstIndex(s[1..], c);
      assert s[..j + 1] == [s[0]] + s[1..][..j];
      j + 1
  }

  /** `s.replace(c, '', 1)`: `s` without its first occurrence of `c`. */
  function RemoveFirst(s: string, c: char): (r: string)
    ensures c !in s ==> r == s
    ensures |r| == if c in s then |s| - 1 else |s|
    decreases |s|
  {
    if s == [] then []
    else if s[0] == c then s[1..]
    else
      assert s == [s[0]] + s[1..];
      [s[0]] + RemoveFirst(s[1..], c)
  }

  /** The character deleted is the first occurrence of `c`; everything before and after it stays. */
  lemma {:induction false} RemoveFirstDeletesFirst(s: string, c: char)
    requires c in s
    ensures RemoveFirst(s, c) == s[..FirstIndex(s, c)] + s[FirstIndex(s, c) + 1..]
    decreases |s|
  {
    if s[0] != c {
      assert s == [s[0]] + s[1..];
      assert c in s[1..];
      RemoveFirstDeletesFirst(s[1..], c);
      var j := FirstIndex(s[1..], c);
      assert FirstIndex(s, c) == j + 1;
      assert s[..j + 1] == [s[0]] + s[1..][..j];
      assert s[j + 2..] == s[1..][j + 1..];
    }
  }

  /** The validity test: deleting the first `.` leaves a non-empty run of digits. */
  predicate IsMassString(s: string)
  {
    var t := RemoveFirst(s, '.');
    |t| > 0 && AllDigits(t)
  }

  /** Every character of `s` is a digit or a dot. */
  predicate DigitsAndDots(s: string)
  {
    forall i | 0 <= i < |s| :: s[i] == '.' || IsDigit(s[i])
  }

  /** `RemoveFirst(s, '.')` is all digits iff `s` has at most one dot and otherwise only digits. */
  lemma {:induction false} RemoveFirstDotDigits(s: string)
    ensures AllDigits(RemoveFirst(s, '.')) <==> multiset(s)['.'] <= 1 && DigitsAndDots(s)
    decreases |s|
  {
    if s != [] {
      var t := s[1..];
      assert s == [s[0]] + t;
      assert multiset(s)['.'] == (if s[0] == '.' then 1 else 0) + multiset(t)['.'];
      if s[0] == '.' {
        assert RemoveFirst(s, '.') == t;
        if AllDigits(t) {
          assert '.' !in t;
          assert multiset(t)['.'] == 0;
          assert DigitsAndDots(s) by {
            forall i | 0 <= i < |s| ensures s[i] == '.' || IsDigit(s[i]) {
              if i > 0 { assert s[i] == t[i - 1]; }
            }
          }
        }
        if multiset(s)['.'] <= 1 && DigitsAndDots(s) {
          assert multiset(t)['.'] == 0;
          forall i | 0 <= i < |t| ensures IsDigit(t[i]) {
            assert t[i] == s[i + 1];
            assert t[i] in multiset(t);
          }
        }
      } else {
        RemoveFirstDotDigits(t);
        var r := RemoveFirst(t, '.');
        assert RemoveFirst(s, '.') == [s[0]] + r;
        if AllDigits([s[0]] + r) {
          assert IsDigit(([s[0]] + r)[0]);
          assert AllDigits(r) by {
            forall i | 0 <= i < |r| ensures IsDigit(r[i]) {
              assert r[i] == ([s[0]] + r)[i + 1];
            }
          }
          assert DigitsAndDots(s) by {
            forall i | 0 <= i < |s| ensures s[i] == '.' || IsDigit(s[i]) {
              if i > 0 { assert s[i] == t[i - 1]; }
            }
          }
        }
        if multiset(s)['.'] <= 1 && DigitsAndDots(s) {
          assert IsDigit(s[0]);
          assert DigitsAndDots(t) by {
            forall i | 0 <= i < |t| ensures t[i] == '.' || IsDigit(t[i]) {
              assert t[i] == s[i + 1];
            }
          }
          assert AllDigits([s[0]] + r) by {
            forall i | 0 <= i < |r| + 1 ensures IsDigit(([s[0]] + r)[i]) {
              if i > 0 { assert ([s[0]] + r)[i] == r[i - 1]; }
            }
          }
        }
      }
    }
  }

  /**
   * A mass string is accepted iff it has at most one dot, every other character is a digit,
   * and it is neither empty nor a lone dot: no sign, no exponent, no spaces.
   */
  lemma IsMassStringIff(s: string)
    ensures IsMassString(s) <==> multiset(s)['.'] <= 1 && DigitsAndDots(s) && |s| > multiset(s)['.']
  {
    RemoveFirstDotDigits(s);
    assert '.' in s <==> multiset(s)['.'] > 0;
  }

  /** Accepted masses. */
  lemma AcceptedMassExamples()
    ensures IsMassString("1.008") && IsMassString("4") && IsMassString("4.0026")
  {
    AcceptsHydrogenMass();
    AcceptsHeliumMass();
    assert RemoveFirst("4", '.') == "4";
  }

  lemma AcceptsHydrogenMass()
    ensures IsMassString("1.008")
  {
    HydrogenMassWithoutDot();
    AllDigitsExamples();
  }

  lemma AcceptsHeliumMass()
    ensures IsMassString("4.0026")
  {
    HeliumMassWithoutDot();
    AllDigitsExamples();
  }

  lemma AllDigitsExamples()
    ensures AllDigits("1008") && AllDigits("40026")
  {
  }

  lemma HydrogenMassWithoutDot()
    ensures RemoveFirst("1.008", '.') == "1008"
  {
    assert ".008"[0] == '.' && ".008"[1..] == "008";
    assert RemoveFirst(".008", '.') == "008";
    assert "1.008"[0] == '1' && "1.008"[1..] == ".008";
    assert ['1'] + "008" == "1008";
  }

  lemma HeliumMassWithoutDot()
    ensures RemoveFirst("4.0026", '.') == "40026"
  {
    assert ".0026"[0] == '.' && ".0026"[1..] == "0026";
    assert RemoveFirst(".0026", '.') == "0026";
    assert "4.0026"[0] == '4' && "4.0026"[1..] == ".0026";
    assert ['4'] + "0026" == "40026";
  }

  /** Rejected masses: empty, a lone dot, two dots, a sign, text. */
  lemma RejectedMassExamples()
    ensures !IsMassString("") && !IsMassString(".") && !IsMassString("1.2.3")
    ensures !IsMassString("-1") && !IsMassString("n/a")
  {
    assert RemoveFirst(".", '.') == "";
    assert RemoveFirst("-1", '.') == "-1";
    assert RemoveFirst("n/a", '.') == "n/a";
    assert RemoveFirst("1.2.3", '.') == "12.3" by {
      assert "1.2.3"[1..] == ".2.3";
      assert ".2.3"[1..] == "2.3";
    }
    assert "12.3"[2] == '.';
  }

  /** The `AtomicMass` column, `[el['AtomicMass'] for el in elements]`, when every record has one. */
  function MassColumn(elements: seq<Record>): (ms: seq<string>)
    requires forall k | 0 <= k < |elements| :: HasKey(elements[k], AtomicMassKey)
    ensures |ms| == |elements|
    ensures forall k | 0 <= k < |elements| :: HasKey(elements[k], AtomicMassKey) && Lookup(elements[k], AtomicMassKey) == Some(ms[k])
  {
    seq(|elements|, k requires 0 <= k < |elements| => Get(elements[k], AtomicMassKey, ""))
  }

  /**
   * The list the mean is taken of (before `float`): the accepted `AtomicMass` strings, in record
   * order; `el['AtomicMass']` raises KeyError on any record without that key.
   */
  function SelectMasses(elements: seq<Record>): (r: Result<seq<string>, Error>)
    ensures r.Err? <==> exists k | 0 <= k < |elements| :: !HasKey(elements[k], AtomicMassKey)
    ensures r.Err? ==> r.error == KeyError(AtomicMassKey)
    ensures r.Ok? ==> |r.value| <= |elements|
    ensures r.Ok? ==> IsSubsequence(r.value, MassColumn(elements))
    ensures r.Ok? ==> forall m :: m in r.value <==> m in MassColumn(elements) && IsMassString(m)
  {
    if forall k | 0 <= k < |elements| :: HasKey(elements[k], AtomicMassKey) then
      Ok(Keep(MassColumn(elements), IsMassString))
    else
      Err(KeyError(AtomicMassKey))
  }

  /** The selection keeps every accepted mass as often as it occurs in the column, and no other string. */
  lemma SelectMassesCount(elements: seq<Record>, m: string)
    ensures SelectMasses(elements).Ok? ==>
      multiset(SelectMasses(elements).value)[m] == if IsMassString(m) then multiset(MassColumn(elements))[m] else 0
  {
    if SelectMasses(elements).Ok? {
      KeepCount(MassColumn(elements), IsMassString, m);
    }
  }

  /** What `calculate_average_mass` returns: 0, or the mean of a non-empty list of accepted strings. */
  datatype Average = Zero | MeanOf(masses: seq<string>)

  /** `sum(masses) / len(masses) if masses else 0`, with the mean left symbolic. */
  function AverageMass(elements: seq<Record>): (r: Result<Average, Error>)
    ensures r.Ok? && r.value.MeanOf? ==> r.value.masses != [] && forall m | m in r.value.masses :: IsMassString(m)
    ensures r.Err? <==> SelectMasses(elements).Err?
    ensures r.Ok? ==> (r.value.Zero? <==> SelectMasses(elements).value == [])
    ensures r.Ok? && r.value.MeanOf? ==> r.value.masses == SelectMasses(elements).value
  {
    match SelectMasses(elements)
    case Err(e) => Err(e)
    case Ok(masses) => if masses == [] then Ok(Zero) else Ok(MeanOf(masses))
  }

  /** The `else 0` branch is taken exactly when every record has a mass and none of them is accepted. */
  lemma AverageZeroIff(elements: seq<Record>)
    ensures AverageMass(elements) == Ok(Zero) <==>
      (forall k | 0 <= k < |elements| :: HasKey(elements[k], AtomicMassKey)) &&
      (forall k | 0 <= k < |elements| :: !IsMassString(Get(elements[k], AtomicMassKey, "")))
  {
    if forall k | 0 <= k < |elements| :: HasKey(elements[k], AtomicMassKey) {
      var col := MassColumn(elements);
      var sel := SelectMasses(elements).value;
      if sel != [] {
        assert sel[0] in sel;
        var k :| 0 <= k < |col| && col[k] == sel[0];
        assert Get(elements[k], AtomicMassKey, "") == col[k];
      }
      forall k | 0 <= k < |elements| && IsMassString(Get(elements[k], AtomicMassKey, ""))
        ensures sel != []
      {
        assert col[k] in col;
        assert col[k] in sel;
      }
    }
  }

  /** An empty record store averages to 0. */
  lemma AverageOfNothing()
    ensures AverageMass([]) == Ok(Zero)
  {
    AverageZeroIff([]);
  }

  /** Masses 1.008, 4.0026 and n/a: the mean is taken of the first two. */
  lemma AverageExample()
    ensures AverageMass([[Field(AtomicMassKey, "1.008")], [Field(AtomicMassKey, "4.0026")], [Field(AtomicMassKey, "n/a")]])
      == Ok(MeanOf(["1.008", "4.0026"]))
  {
    var els := [[Field(AtomicMassKey, "1.008")], [Field(AtomicMassKey, "4.0026")], [Field(AtomicMassKey, "n/a")]];
    assert HasKey(els[0], AtomicMassKey) && HasKey(els[1], AtomicMassKey) && HasKey(els[2], AtomicMassKey);
    assert forall k | 0 <= k < |els| :: HasKey(els[k], AtomicMassKey) by {
      forall k | 0 <= k < |els| ensures HasKey(els[k], AtomicMassKey) {
        assert k == 0 || k == 1 || k == 2;
      }
    }
    var col := MassColumn(els);
    assert col == ["1.008", "4.0026", "n/a"];
    KeepMassExample();
  }

  lemma KeepMassExample()
    ensures Keep(["1.008", "4.0026", "n/a"], IsMassString) == ["1.008", "4.0026"]
  {
    AcceptsHydrogenMass();
    AcceptsHeliumMass();
    assert !IsMassString("n/a") by {
      assert RemoveFirst("n/a", '.') == "n/a";
    }
    var col := ["1.008", "4.0026", "n/a"];
    assert col[1..] == ["4.0026", "n/a"] && col[1..][1..] == ["n/a"] && col[1..][1..][1..] == [];
    assert Keep(["n/a"], IsMassString) == [];
    assert Keep(["4.0026", "n/a"], IsMassString) == ["4.0026"];
  }
}
