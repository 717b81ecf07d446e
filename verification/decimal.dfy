/**
  * Decimal numerals as digit sequences: the canonical digits of a number
  * (no leading zero), the value a digit sequence denotes, and the
  * zero-padded fixed-width digits the formatter's first loop produces.
  */
module Decimal {
  type Digit = d: int | 0 <= d < 10

  function Pow10(k: nat): (r: nat)
    ensures r >= 1
  {
    if k == 0 then 1 else 10 * Pow10(k - 1)
  }

  /** The number a digit sequence denotes, most significant digit first. */
  function Value(ds: seq<Digit>): nat
  {
    if ds == [] then 0 else Value(ds[..|ds| - 1]) * 10 + ds[|ds| - 1]
  }

  /** The canonical decimal digits of `n`: no leading zero, and none at all for zero. */
  function Digits(n: nat): seq<Digit>
  {
    if n == 0 then [] else Digits(n / 10) + [n % 10]
  }

  /** The last `w` decimal digits of `n`, padded on the left with zeros. */
  function Pad(n: nat, w: nat): (r: seq<Digit>)
    ensures |r| == w
  {
    if w == 0 then [] else Pad(n / 10, w - 1) + [n % 10]
  }

  function ZeroDigits(k: nat): (r: seq<Digit>)
    ensures |r| == k && forall i :: 0 <= i < k ==> r[i] == 0
  {
    seq(k, _ => 0)
  }

  /** A digit sequence without a leading zero (the empty one included). */
  predicate NoLeadingZero(ds: seq<Digit>)
  {
    ds == [] || ds[0] != 0
  }

  lemma ValueSnoc(ds: seq<Digit>, d: Digit)
    ensures Value(ds + [d]) == Value(ds) * 10 + d
  {
    assert (ds + [d])[..|ds|] == ds;
  }

  /** Reading the canonical digits back gives the number. */
  lemma {:induction false} DigitsValue(n: nat)
    ensures Value(Digits(n)) == n
  {
    if n > 0 {
      DigitsValue(n / 10);
      ValueSnoc(Digits(n / 10), n % 10);
    }
  }

  /** The canonical digits have no leading zero, and are empty exactly for zero. */
  lemma {:induction false} DigitsCanonical(n: nat)
    ensures NoLeadingZero(Digits(n))
    ensures Digits(n) == [] <==> n == 0
  {
    if n > 0 && n / 10 > 0 {
      DigitsCanonical(n / 10);
    }
  }

  /** A digit sequence without a leading zero is the canonical digits of its value. */
  lemma {:induction false} DigitsUnique(ds: seq<Digit>)
    requires NoLeadingZero(ds)
    ensures Digits(Value(ds)) == ds
  {
    if ds != [] {
      var a, d := ds[..|ds| - 1], ds[|ds| - 1];
      assert ds == a + [d];
      assert NoLeadingZero(a);
      DigitsUnique(a);
      ValueSnoc(a, d);
      var v := Value(ds);
      assert v / 10 == Value(a) && v % 10 == d;
    }
  }

  /** `n` has at most `w` canonical digits exactly when it is below ten to the `w`. */
  lemma {:induction false} DigitsLength(n: nat, w: nat)
    ensures n < Pow10(w) <==> |Digits(n)| <= w
  {
    if n > 0 && w > 0 {
      DigitsLength(n / 10, w - 1);
      assert n < Pow10(w) <==> n / 10 < Pow10(w - 1);
    } else if n > 0 {
      assert |Digits(n)| == |Digits(n / 10)| + 1;
    }
  }

  /** A number of at most `w` digits loses none when padded to `w` places. */
  lemma {:induction false} PadDigits(n: nat, w: nat)
    requires |Digits(n)| <= w
    ensures Pad(n, w) == ZeroDigits(w - |Digits(n)|) + Digits(n)
  {
    if w > 0 {
      assert |Digits(n / 10)| <= w - 1;
      PadDigits(n / 10, w - 1);
      if n == 0 {
        assert ZeroDigits(w - 1) + [0] == ZeroDigits(w);
      } else {
        assert ZeroDigits(w - |Digits(n)|) == ZeroDigits(w - 1 - |Digits(n / 10)|);
      }
    }
  }
}
