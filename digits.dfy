/**
  Positional notation over natural-number digits, most significant digit first.
  This is the arithmetic the encoder rests on: a big-endian byte string, a bit
  string and a string of 5-bit groups are all digit sequences in some base.
*/
module Digits {

  /** `b` raised to the power `e`. */
  function Pow(b: nat, e: nat): (r: nat)
    ensures b > 0 ==> r > 0
  {
    if e == 0 then 1 else b * Pow(b, e - 1)
  }

  /** Every digit of `ds` is below the base `b`. */
  predicate IsDigits(ds: seq<nat>, b: nat)
  {
    forall i :: 0 <= i < |ds| ==> ds[i] < b
  }

  /** The number `ds` denotes in base `b`, first digit most significant. */
  function Val(ds: seq<nat>, b: nat): nat
  {
    if |ds| == 0 then 0 else ds[0] * Pow(b, |ds| - 1) + Val(ds[1..], b)
  }

  lemma {:induction false} PowAdd(b: nat, e1: nat, e2: nat)
    ensures Pow(b, e1 + e2) == Pow(b, e1) * Pow(b, e2)
  {
    if e1 > 0 {
      PowAdd(b, e1 - 1, e2);
      MulAssoc(b, Pow(b, e1 - 1), Pow(b, e2));
    }
  }

  /** Solver hint for PowAdd: associativity of a product of three terms. */
  lemma MulAssoc(x: nat, y: nat, z: nat)
    ensures x * (y * z) == (x * y) * z
  {
  }

  /** Raising to `e` then to `k` is raising to `e * k`; used for 2^8 = 256 and 2^5 = 32. */
  lemma {:induction false} PowMul(b: nat, e: nat, k: nat)
    ensures Pow(Pow(b, e), k) == Pow(b, e * k)
  {
    if k > 0 {
      PowMul(b, e, k - 1);
      PowAdd(b, e, e * (k - 1));
      assert e * k == e + e * (k - 1);
    }
  }

  lemma {:induction false} PowMonotone(b: nat, e1: nat, e2: nat)
    requires b > 0 && e1 <= e2
    ensures Pow(b, e1) <= Pow(b, e2)
  {
    if e1 < e2 {
      PowMonotone(b, e1, e2 - 1);
      assert Pow(b, e2 - 1) <= b * Pow(b, e2 - 1);
    }
  }

  /** A digit sequence of length n in base b denotes a number below b^n. */
  lemma {:induction false} ValBound(ds: seq<nat>, b: nat)
    requires IsDigits(ds, b)
    ensures Val(ds, b) < Pow(b, |ds|)
  {
    if |ds| > 0 {
      ValBound(ds[1..], b);
      DigitTimesPow(ds[0], Val(ds[1..], b), Pow(b, |ds| - 1), b);
    }
  }

  /** d * p + v < b * p whenever d < b and v < p: the step behind ValBound. */
  lemma DigitTimesPow(d: nat, v: nat, p: nat, b: nat)
    requires d < b && v < p
    ensures d * p + v < b * p
  {
    assert d * p + v < d * p + p == (d + 1) * p;
    assert (d + 1) * p <= b * p;
  }

  /** Concatenation shifts the first part left by the length of the second. */
  lemma {:induction false} ValAppend(xs: seq<nat>, ys: seq<nat>, b: nat)
    ensures Val(xs + ys, b) == Val(xs, b) * Pow(b, |ys|) + Val(ys, b)
  {
    if |xs| == 0 {
      assert xs + ys == ys;
    } else {
      var p, q := Pow(b, |xs| - 1), Pow(b, |ys|);
      assert (xs + ys)[1..] == xs[1..] + ys;
      ValAppend(xs[1..], ys, b);
      PowAdd(b, |xs| - 1, |ys|);
      assert Val(xs + ys, b) == xs[0] * (p * q) + Val(xs[1..], b) * q + Val(ys, b);
      Distribute(xs[0], p, Val(xs[1..], b), q);
    }
  }

  /** Solver hint for ValAppend: factoring out the common multiplier q. */
  lemma Distribute(d: nat, p: nat, v: nat, q: nat)
    ensures d * (p * q) + v * q == (d * p + v) * q
  {
  }

  /** A sequence of zero digits denotes zero. */
  lemma {:induction false} ValZeros(ds: seq<nat>, b: nat)
    requires forall i :: 0 <= i < |ds| ==> ds[i] == 0
    ensures Val(ds, b) == 0
  {
    if |ds| > 0 {
      ValZeros(ds[1..], b);
    }
  }

  /**
    Between two digit sequences of the same length, the one with the smaller
    leading digit denotes the smaller number, whatever follows.
  */
  lemma LeadingDigitOrder(xs: seq<nat>, ys: seq<nat>, b: nat)
    requires |xs| == |ys| > 0
    requires IsDigits(xs, b) && IsDigits(ys, b)
    requires xs[0] < ys[0]
    ensures Val(xs, b) < Val(ys, b)
  {
    var p := Pow(b, |xs| - 1);
    ValBound(xs[1..], b);
    DigitTimesPow(xs[0], Val(xs[1..], b), p, ys[0]);
    assert Val(xs, b) < ys[0] * p <= Val(ys, b);
  }
}
