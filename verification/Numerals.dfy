/** Numbers written in decimal digits. */
module Numerals {

  type Digit = c: int | 48 <= c <= 57 witness 48

  function ValueFrom(ds: seq<int>, value: int): int
  {
    if ds == [] then value else ValueFrom(ds[1..], 10 * value + ds[0] - 48)
  }

  function ValueOf(ds: seq<int>): int
  {
    ValueFrom(ds, 0)
  }

  // At least `width` digits, with zeros in front.
  function Padded(n: nat, width: nat): (ds: seq<Digit>)
    ensures ds != [] && |ds| >= width
    decreases n, width
  {
    if n < 10 && width <= 1 then [48 + n]
    else Padded(n / 10, if width == 0 then 0 else width - 1) + [48 + n % 10]
  }

  // The shortest numeral.
  function Decimal(n: nat): (ds: seq<Digit>)
    ensures ds != []
  {
    Padded(n, 1)
  }

  lemma {:induction false} ValueOfLast(ds: seq<int>, c: int, value: int)
    ensures ValueFrom(ds + [c], value) == 10 * ValueFrom(ds, value) + c - 48
  {
    if ds == [] {
      assert ([] + [c])[1..] == [];
    } else {
      assert (ds + [c])[1..] == ds[1..] + [c];
      ValueOfLast(ds[1..], c, 10 * value + ds[0] - 48);
    }
  }

  /** A padded numeral has the value that was printed. */
  lemma {:induction false} PaddedValue(n: nat, width: nat)
    ensures ValueOf(Padded(n, width)) == n
    decreases n, width
  {
    if n < 10 && width <= 1 {
      var ds := Padded(n, width);
      assert ds[1..] == [];
      assert ValueFrom(ds, 0) == ValueFrom(ds[1..], n);
    } else {
      var front := Padded(n / 10, if width == 0 then 0 else width - 1);
      PaddedValue(n / 10, if width == 0 then 0 else width - 1);
      ValueOfLast(front, 48 + n % 10, 0);
    }
  }

  /** The shortest numeral has no zero in front. */
  lemma {:induction false} NoLeadingZero(n: nat)
    requires n > 0
    ensures Decimal(n)[0] != 48
  {
    FirstDigit(n, 1);
  }

  lemma {:induction false} FirstDigit(n: nat, width: nat)
    requires n > 0 && width <= 1
    ensures Padded(n, width)[0] != 48
    decreases n
  {
    if n >= 10 {
      FirstDigit(n / 10, 0);
    }
  }

  lemma DecimalInjective(m: nat, n: nat)
    requires Decimal(m) == Decimal(n)
    ensures m == n
  {
    PaddedValue(m, 1);
    PaddedValue(n, 1);
  }

  /** Two digits behind a numeral. */
  lemma PairValue(ds: seq<int>, mm: nat)
    requires mm < 100
    ensures ValueOf(ds + Padded(mm, 2)) == 100 * ValueOf(ds) + mm
  {
    var tens, units := 48 + mm / 10, 48 + mm % 10;
    assert Padded(mm, 2) == [tens] + [units];
    assert ds + ([tens] + [units]) == ds + [tens] + [units];
    ValueOfLast(ds + [tens], units, 0);
    ValueOfLast(ds, tens, 0);
  }
}
