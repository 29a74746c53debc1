/**
  Positional notation over digit sequences, independent of any alphabet.

  A digit sequence is written most-significant digit first, as the strings
  of the codec are: the last element is the units digit. `Eval` gives the
  value of a digit sequence in base `b`; `ToDigits` gives the canonical
  (shortest, no leading zero) digit sequence of a number.
 */
module Positional {

  /** Powers of two that bound Rust's unsigned integer widths. */
  const TWO32: nat := 0x1_0000_0000
  const TWO64: nat := 0x1_0000_0000_0000_0000
  const TWO128: nat := 0x1_0000_0000_0000_0000_0000_0000_0000_0000

  /** `b` raised to the power `e`. */
  function Pow(b: nat, e: nat): (r: nat)
    ensures b > 0 ==> r > 0
  {
    if e == 0 then 1 else b * Pow(b, e - 1)
  }

  /** Value of the digit sequence `ds` in base `b`, last digit least significant. */
  function Eval(ds: seq<nat>, b: nat): (v: nat)
  {
    if |ds| == 0 then 0 else Eval(ds[..|ds| - 1], b) * b + ds[|ds| - 1]
  }

  /** Every digit is below the base. */
  predicate AllBelow(ds: seq<nat>, b: nat)
  {
    forall j :: 0 <= j < |ds| ==> ds[j] < b
  }

  /** A digit sequence in canonical form: digits below the base, no leading zero. */
  predicate IsCanonical(ds: seq<nat>, b: nat)
  {
    AllBelow(ds, b) && (|ds| > 0 ==> ds[0] > 0)
  }

  /** The canonical base-`b` digits of `n`, most significant first; empty for zero. */
  function ToDigits(n: nat, b: nat): (ds: seq<nat>)
    requires b >= 2
    ensures IsCanonical(ds, b)
    ensures |ds| == 0 <==> n == 0
    decreases n
  {
    if n == 0 then [] else ToDigits(n / b, b) + [n % b]
  }

  lemma PowStep(b: nat, e: nat)
    ensures Pow(b, e + 1) == Pow(b, e) * b
  {
  }

  /** Powers of a positive base grow with the exponent. */
  lemma {:induction false} PowMonotone(b: nat, e1: nat, e2: nat)
    requires b >= 1
    requires e1 <= e2
    ensures Pow(b, e1) <= Pow(b, e2)
    decreases e2
  {
    if e1 < e2 {
      PowMonotone(b, e1, e2 - 1);
      assert Pow(b, e2) == b * Pow(b, e2 - 1);
      MulAtLeast(Pow(b, e2 - 1), b);
    }
  }

  /** Exponents add: `b^(m+n) == b^m * b^n`. */
  lemma {:induction false} PowAdd(b: nat, m: nat, n: nat)
    ensures Pow(b, m + n) == Pow(b, m) * Pow(b, n)
    decreases n
  {
    if n > 0 {
      PowAdd(b, m, n - 1);
      assert Pow(b, m + n) == b * Pow(b, m + n - 1);
      MulAssoc(Pow(b, m), Pow(b, n - 1), b);
    }
  }

  /** Powers grow with the base. */
  lemma {:induction false} PowBaseMonotone(a: nat, b: nat, e: nat)
    requires a <= b
    ensures Pow(a, e) <= Pow(b, e)
    decreases e
  {
    if e > 0 {
      PowBaseMonotone(a, b, e - 1);
      MulLe(Pow(a, e - 1), Pow(b, e - 1), a);
      MulLe(a, b, Pow(b, e - 1));
    }
  }

  lemma MulAtLeast(x: nat, b: nat)
    requires b >= 1
    ensures x <= b * x
  {
  }

  /** Exact division and remainder of `q * b + d` by `b` when `d < b`. */
  lemma DivModOfDigit(q: nat, d: nat, b: nat)
    requires d < b
    ensures (q * b + d) / b == q
    ensures (q * b + d) % b == d
  {
    var n := q * b + d;
    var q', d' := n / b, n % b;
    assert n == q' * b + d';
    if q' > q {
      MulLe(q + 1, q', b);
      MulDistributes(q, 1, b);
      assert false;
    } else if q' < q {
      MulLe(q' + 1, q, b);
      MulDistributes(q', 1, b);
      assert false;
    }
  }

  /**
    Concatenation law: the digits of `x` are shifted up by `|y|` places.
   */
  lemma {:induction false} EvalAppend(x: seq<nat>, y: seq<nat>, b: nat)
    ensures Eval(x + y, b) == Eval(x, b) * Pow(b, |y|) + Eval(y, b)
    decreases |y|
  {
    if |y| == 0 {
      assert x + y == x;
    } else {
      var y' := y[..|y| - 1];
      var last := y[|y| - 1];
      assert (x + y)[..|x + y| - 1] == x + y';
      assert (x + y)[|x + y| - 1] == last;
      EvalAppend(x, y', b);
      calc {
        Eval(x + y, b);
        Eval(x + y', b) * b + last;
        (Eval(x, b) * Pow(b, |y'|) + Eval(y', b)) * b + last;
        { MulDistributes(Eval(x, b) * Pow(b, |y'|), Eval(y', b), b); }
        Eval(x, b) * Pow(b, |y'|) * b + (Eval(y', b) * b + last);
        { PowStep(b, |y'|); MulAssoc(Eval(x, b), Pow(b, |y'|), b); }
        Eval(x, b) * Pow(b, |y|) + Eval(y, b);
      }
    }
  }

  lemma MulDistributes(x: nat, y: nat, b: nat)
    ensures (x + y) * b == x * b + y * b
  {
  }

  lemma MulAssoc(x: nat, y: nat, z: nat)
    ensures x * y * z == x * (y * z)
  {
  }

  /** Prepending one digit adds it at the weight of the following positions. */
  lemma EvalCons(d: nat, y: seq<nat>, b: nat)
    ensures Eval([d] + y, b) == d * Pow(b, |y|) + Eval(y, b)
  {
    EvalAppend([d], y, b);
    assert [d][..0] == [];
  }

  /** `k` digits below the base are worth less than `b^k`. */
  lemma {:induction false} EvalBelowPow(ds: seq<nat>, b: nat)
    requires AllBelow(ds, b)
    ensures Eval(ds, b) < Pow(b, |ds|)
    decreases |ds|
  {
    if |ds| > 0 {
      var init := ds[..|ds| - 1];
      var last := ds[|ds| - 1];
      assert AllBelow(init, b);
      EvalBelowPow(init, b);
      var p := Pow(b, |init|);
      assert Eval(init, b) + 1 <= p;
      assert (Eval(init, b) + 1) * b <= p * b by {
        MulLe(Eval(init, b) + 1, p, b);
      }
      MulDistributes(Eval(init, b), 1, b);
      PowStep(b, |init|);
    }
  }

  lemma ProductZero(q: nat, x: nat)
    requires x > 0 && q * x == 0
    ensures q == 0
  {
  }

  lemma MulLe(x: nat, y: nat, b: nat)
    requires x <= y
    ensures x * b <= y * b
  {
  }

  /** A sequence whose leading digit is nonzero is worth at least `b^(k-1)`. */
  lemma EvalAtLeastLeading(ds: seq<nat>, b: nat)
    requires b >= 1
    requires |ds| > 0 && ds[0] > 0
    ensures Pow(b, |ds| - 1) <= Eval(ds, b)
  {
    assert ds == [ds[0]] + ds[1..];
    EvalCons(ds[0], ds[1..], b);
    MulAtLeast(Pow(b, |ds| - 1), ds[0]);
  }

  /** `ToDigits` is a right inverse of `Eval`. */
  lemma {:induction false} EvalToDigits(n: nat, b: nat)
    requires b >= 2
    ensures Eval(ToDigits(n, b), b) == n
    decreases n
  {
    if n > 0 {
      var q, d := n / b, n % b;
      DivBelow(n, b);
      EvalToDigits(q, b);
      EvalSnoc(ToDigits(q, b), d, b);
      DivModIdentity(n, b);
    }
  }

  /** Dividing a positive number by a base of at least two makes it smaller. */
  lemma DivBelow(n: nat, b: nat)
    requires n > 0 && b >= 2
    ensures n / b < n
  {
    var q, d := n / b, n % b;
    DivModIdentity(n, b);
    MulLe(2, b, q);
    assert n == q * b + d;
    assert 2 * q <= q * b;
  }

  lemma DivModIdentity(n: nat, b: nat)
    requires b > 0
    ensures n == (n / b) * b + n % b
  {
  }

  lemma EvalSnoc(x: seq<nat>, d: nat, b: nat)
    ensures Eval(x + [d], b) == Eval(x, b) * b + d
  {
    assert (x + [d])[..|x|] == x;
  }

  /**
    Canonical digit sequences are unique: the only canonical sequence
    whose value is `Eval(ds, b)` is `ToDigits` of that value.
   */
  lemma {:induction false} CanonicalIsToDigits(ds: seq<nat>, b: nat)
    requires b >= 2
    requires IsCanonical(ds, b)
    ensures ds == ToDigits(Eval(ds, b), b)
    decreases |ds|
  {
    if |ds| > 0 {
      var n := Eval(ds, b);
      var init := ds[..|ds| - 1];
      var last := ds[|ds| - 1];
      EvalAtLeastLeading(ds, b);
      assert n > 0;
      DivModOfDigit(Eval(init, b), last, b);
      assert IsCanonical(init, b);
      CanonicalIsToDigits(init, b);
      assert ToDigits(n, b) == ToDigits(n / b, b) + [n % b];
    }
  }

  /** The canonical digit count of `n > 0` is minimal: `b^(k-1) <= n < b^k`. */
  lemma ToDigitsLength(n: nat, b: nat)
    requires b >= 2
    ensures n < Pow(b, |ToDigits(n, b)|)
    ensures n > 0 ==> Pow(b, |ToDigits(n, b)| - 1) <= n
  {
    var ds := ToDigits(n, b);
    EvalToDigits(n, b);
    EvalBelowPow(ds, b);
    if n > 0 {
      EvalAtLeastLeading(ds, b);
    }
  }
}
