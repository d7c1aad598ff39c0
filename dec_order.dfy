// The order in which the stimulus generator visits the memory image: the
// image's keys are the decimal strings of the word addresses, and Python's
// `sorted` orders those strings character by character.
module DecOrder {
  import opened Numerals

  /** Python's `<` on strings: by code point, a proper prefix first. */
  predicate LexLess(a: string, b: string)
  {
    if a == [] then b != []
    else if b == [] then false
    else a[0] < b[0] || (a[0] == b[0] && LexLess(a[1..], b[1..]))
  }

  lemma {:induction false} LexIrreflexive(a: string)
    ensures !LexLess(a, a)
  {
    if a != [] {
      LexIrreflexive(a[1..]);
    }
  }

  lemma {:induction false} LexTransitive(a: string, b: string, c: string)
    requires LexLess(a, b) && LexLess(b, c)
    ensures LexLess(a, c)
  {
    if a != [] && a[0] == b[0] && b[0] == c[0] {
      LexTransitive(a[1..], b[1..], c[1..]);
    }
  }

  lemma {:induction false} LexTotal(a: string, b: string)
    requires a != b
    ensures LexLess(a, b) || LexLess(b, a)
  {
    if a != [] && b != [] && a[0] == b[0] {
      assert a == [a[0]] + a[1..] && b == [b[0]] + b[1..];
      LexTotal(a[1..], b[1..]);
    }
  }

  /** The order of `str(x)` and `str(y)` under `sorted`. */
  predicate KeyLess(x: nat, y: nat)
  {
    LexLess(Dec(x), Dec(y))
  }

  lemma DecInjective(x: nat, y: nat)
    requires Dec(x) == Dec(y)
    ensures x == y
  {
    assert x == Value(Dec(x), 10) && y == Value(Dec(y), 10);
  }

  /** `KeyLess` is a strict total order on addresses. */
  lemma KeyOrder(x: nat, y: nat, z: nat)
    ensures !KeyLess(x, x)
    ensures KeyLess(x, y) && KeyLess(y, z) ==> KeyLess(x, z)
    ensures x != y ==> KeyLess(x, y) || KeyLess(y, x)
  {
    LexIrreflexive(Dec(x));
    if KeyLess(x, y) && KeyLess(y, z) {
      LexTransitive(Dec(x), Dec(y), Dec(z));
    }
    if x != y {
      if Dec(x) == Dec(y) {
        DecInjective(x, y);
      }
      LexTotal(Dec(x), Dec(y));
    }
  }

  /** Between digit strings of one length, the string order is the numeric order. */
  lemma {:induction false} LexDigits(a: string, b: string)
    requires |a| == |b| && AllDigits(a, 10) && AllDigits(b, 10) && LexLess(a, b)
    ensures Value(a, 10) < Value(b, 10)
  {
    var p := Pow(10, |a| - 1);
    var a0, b0 := DigitValue(a[0]), DigitValue(b[0]);
    LeadDigit(a);
    LeadDigit(b);
    if a[0] < b[0] {
      MulMono(a0 + 1, b0, p);
      Distrib(a0, 1, p);
    } else {
      LexDigits(a[1..], b[1..]);
    }
  }

  /** The value of a digit string is its first digit's weight plus the rest, which stays below that weight. */
  lemma LeadDigit(a: string)
    requires |a| >= 1 && AllDigits(a, 10)
    ensures Value(a, 10) == DigitValue(a[0]) * Pow(10, |a| - 1) + Value(a[1..], 10)
    ensures Value(a[1..], 10) < Pow(10, |a| - 1)
  {
    var c, r := a[0], a[1..];
    assert a == [c] + r;
    ValueConcat([c], r, 10);
    assert Value([c], 10) == DigitValue(c) by {
      assert [c][..0] == [];
    }
    assert |r| == |a| - 1;
    ValueBound(r, 10);
  }

  /** Addresses whose decimal forms have one length are visited in numeric order. */
  lemma SameLengthNumeric(x: nat, y: nat)
    requires |Dec(x)| == |Dec(y)|
    ensures KeyLess(x, y) <==> x < y
  {
    if KeyLess(x, y) {
      LexDigits(Dec(x), Dec(y));
    } else if x < y {
      KeyOrder(x, y, y);
      LexDigits(Dec(y), Dec(x));
    }
  }

  /** `"10"` sorts before `"9"`: the order is not numeric across lengths. */
  lemma TenBeforeNine()
    ensures KeyLess(10, 9) && !KeyLess(9, 10)
  {
    assert Dec(10) == "10" && Dec(9) == "9";
  }

  // ---------------------------------------------------------------------
  // `sorted(keys)`

  predicate IsKeyMin(x: nat, s: set<nat>)
  {
    x in s && forall y {:trigger KeyLess(x, y)} :: y in s && y != x ==> KeyLess(x, y)
  }

  lemma {:induction false} MinExists(s: set<nat>)
    requires s != {}
    ensures exists x :: IsKeyMin(x, s)
    decreases |s|
  {
    var e :| e in s;
    var rest := s - {e};
    if rest == {} {
      assert s == {e};
      assert IsKeyMin(e, s);
    } else {
      MinExists(rest);
      var m :| IsKeyMin(m, rest);
      if KeyLess(m, e) {
        forall y | y in s && y != m
          ensures KeyLess(m, y)
        {
          if y != e {
            assert y in rest;
          }
        }
        assert IsKeyMin(m, s);
      } else {
        KeyOrder(m, e, e);
        forall y | y in s && y != e
          ensures KeyLess(e, y)
        {
          if y != m {
            assert y in rest;
            KeyOrder(e, m, y);
          }
        }
        assert IsKeyMin(e, s);
      }
    }
  }

  lemma MinUnique(x: nat, y: nat, s: set<nat>)
    requires IsKeyMin(x, s) && IsKeyMin(y, s)
    ensures x == y
  {
    if x != y {
      KeyOrder(x, y, x);
    }
  }

  ghost function KeyMin(s: set<nat>): (x: nat)
    requires s != {}
    ensures IsKeyMin(x, s)
  {
    MinExists(s);
    var x :| IsKeyMin(x, s);
    x
  }

  predicate KeySorted(ks: seq<nat>)
  {
    forall i, j :: 0 <= i < j < |ks| ==> KeyLess(ks[i], ks[j])
  }

  /** `sorted(s)` under the decimal-string order: the keys, least first. */
  ghost function DecSort(s: set<nat>): (ks: seq<nat>)
    ensures |ks| == |s|
    decreases |s|
  {
    if s == {} then []
    else
      var x := KeyMin(s);
      [x] + DecSort(s - {x})
  }

  /** `DecSort` lists exactly the keys of its set. */
  lemma {:induction false} DecSortKeys(s: set<nat>)
    ensures forall i :: 0 <= i < |DecSort(s)| ==> DecSort(s)[i] in s
    ensures forall x :: x in s <==> x in DecSort(s)
    decreases |s|
  {
    if s != {} {
      var x := KeyMin(s);
      DecSortKeys(s - {x});
      var ks := DecSort(s);
      assert ks == [x] + DecSort(s - {x});
    }
  }

  /** `DecSort` lists its keys in the string order. */
  lemma {:induction false} DecSortSorted(s: set<nat>)
    ensures KeySorted(DecSort(s))
    decreases |s|
  {
    if s != {} {
      var x := KeyMin(s);
      var tail := DecSort(s - {x});
      DecSortSorted(s - {x});
      DecSortKeys(s - {x});
      assert forall j :: 0 <= j < |tail| ==> tail[j] in s && tail[j] != x;
      SortedCons(x, tail);
    }
  }

  lemma SortedCons(x: nat, tail: seq<nat>)
    requires KeySorted(tail)
    requires forall j :: 0 <= j < |tail| ==> KeyLess(x, tail[j])
    ensures KeySorted([x] + tail)
  {
    var ks := [x] + tail;
    forall i, j | 0 <= i < j < |ks|
      ensures KeyLess(ks[i], ks[j])
    {
      if i > 0 {
        assert ks[i] == tail[i - 1] && ks[j] == tail[j - 1];
      } else {
        assert ks[j] == tail[j - 1];
      }
    }
  }

  /** A sorted sequence has no repeated address. */
  lemma SortedDistinct(ks: seq<nat>, i: nat, j: nat)
    requires KeySorted(ks) && i < j < |ks|
    ensures ks[i] != ks[j]
  {
    KeyOrder(ks[i], ks[i], ks[i]);
  }

  /** `sorted` is determined by its set: any sorted enumeration of `s` is `DecSort(s)`. */
  lemma {:induction false} SortedUnique(ks: seq<nat>, s: set<nat>)
    requires KeySorted(ks)
    requires forall i :: 0 <= i < |ks| ==> ks[i] in s
    requires forall x :: x in s ==> x in ks
    ensures ks == DecSort(s)
    decreases |ks|
  {
    if ks == [] {
      assert s == {};
    } else {
      assert ks[0] in s;
      var x := KeyMin(s);
      forall y | y in s && y != ks[0]
        ensures KeyLess(ks[0], y)
      {
        var j :| 0 <= j < |ks| && ks[j] == y;
        assert j != 0;
      }
      MinUnique(ks[0], x, s);
      var rest := ks[1..];
      forall i | 0 <= i < |rest|
        ensures rest[i] in s - {x}
      {
        SortedDistinct(ks, 0, i + 1);
      }
      forall y | y in s - {x}
        ensures y in rest
      {
        var j :| 0 <= j < |ks| && ks[j] == y;
        assert j != 0;
        assert rest[j - 1] == y;
      }
      SortedUnique(rest, s - {x});
    }
  }

  /** Python's `sorted` on the address keys, by repeated choice of the least key. */
  method SortKeys(s: set<nat>) returns (ks: seq<nat>)
    ensures ks == DecSort(s)
  {
    ks := [];
    var rest := s;
    while rest != {}
      invariant rest <= s
      invariant ks + DecSort(rest) == DecSort(s)
      decreases |rest|
    {
      MinExists(rest);
      var x :| IsKeyMin(x, rest);
      MinUnique(x, KeyMin(rest), rest);
      SortStep(ks, x, rest);
      ks := ks + [x];
      rest := rest - {x};
    }
  }

  lemma SortStep(ks: seq<nat>, x: nat, rest: set<nat>)
    requires rest != {} && x == KeyMin(rest)
    ensures (ks + [x]) + DecSort(rest - {x}) == ks + DecSort(rest)
  {
    assert DecSort(rest) == [x] + DecSort(rest - {x});
  }

  /** The keys {9, 10} are visited as 10, 9. */
  lemma SortNineTen()
    ensures DecSort({9, 10}) == [10, 9]
  {
    TenBeforeNine();
    SortedUnique([10, 9], {9, 10});
  }
}
