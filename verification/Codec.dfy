/**
  The base-N codec of `bn_encode` / `bn_decode`.

  An alphabet `a` is a sequence of symbols; the symbol at position `d` is the
  digit `d` and the base is `|a|`. A string is read with its last symbol as the
  least significant digit. `Decode` and `Encode` are the reference meanings;
  `BnEncode` and `BnDecode` follow the loops of the program, with its `u128`
  arithmetic shown to stay in range.
 */
module Codec {
  import opened Positional

  /** No symbol occurs twice. */
  predicate Distinct(a: seq<char>)
  {
    forall i, j :: 0 <= i < j < |a| ==> a[i] != a[j]
  }

  /** Every symbol of `s` occurs in the alphabet. */
  predicate AllIn(s: seq<char>, a: seq<char>)
  {
    forall j :: 0 <= j < |s| ==> s[j] in a
  }

  /** A string the encoder can produce: alphabet symbols, no leading `a[0]`. */
  predicate IsEncoding(s: seq<char>, a: seq<char>)
  {
    AllIn(s, a) && (|s| > 0 ==> |a| > 0 && s[0] != a[0])
  }

  /** The position of the FIRST occurrence of `c` in `a` (`iter().position`). */
  function Index(a: seq<char>, c: char): (r: nat)
    requires c in a
    ensures r < |a| && a[r] == c
    ensures forall j :: 0 <= j < r ==> a[j] != c
  {
    if a[0] == c then 0 else 1 + Index(a[1..], c)
  }

  /** The digit values of the symbols of `s`. */
  function DigitsOf(s: seq<char>, a: seq<char>): (ds: seq<nat>)
    requires AllIn(s, a)
  {
    seq(|s|, j requires 0 <= j < |s| => Index(a, s[j]))
  }

  /** The symbols of the digits `ds`. */
  function Spell(ds: seq<nat>, a: seq<char>): (s: seq<char>)
    requires AllBelow(ds, |a|)
  {
    seq(|ds|, j requires 0 <= j < |ds| => a[ds[j]])
  }

  /** `s` read backwards (`chars().rev()`). */
  function Reverse(s: seq<char>): (r: seq<char>)
  {
    seq(|s|, j requires 0 <= j < |s| => s[|s| - 1 - j])
  }

  /** The number a string denotes: positional value of its digits in base `|a|`. */
  function Decode(s: seq<char>, a: seq<char>): (v: nat)
    requires AllIn(s, a)
  {
    Eval(DigitsOf(s, a), |a|)
  }

  /** The canonical string of `n`: its base-`|a|` digits spelt in `a`. */
  function Encode(n: nat, a: seq<char>): (s: seq<char>)
    requires |a| >= 2
  {
    Spell(ToDigits(n, |a|), a)
  }

  /** In a duplicate-free alphabet a symbol's first position is its only one. */
  lemma IndexOfDistinct(a: seq<char>, d: nat)
    requires Distinct(a) && d < |a|
    ensures Index(a, a[d]) == d
  {
  }

  /** `Decode` of the empty string and of one symbol. */
  lemma DecodeBasics(a: seq<char>, c: char)
    requires c in a
    ensures Decode([], a) == 0
    ensures Decode([c], a) == Index(a, c)
  {
    assert DigitsOf([c], a) == [Index(a, c)];
    assert DigitsOf([c], a)[..0] == [];
  }

  /** Concatenation law: the symbols of `s1` are shifted up by `|s2|` places. */
  lemma DecodeConcat(s1: seq<char>, s2: seq<char>, a: seq<char>)
    requires AllIn(s1, a) && AllIn(s2, a)
    ensures AllIn(s1 + s2, a)
    ensures Decode(s1 + s2, a) == Decode(s1, a) * Pow(|a|, |s2|) + Decode(s2, a)
  {
    AllInConcat(s1, s2, a);
    DigitsOfConcat(s1, s2, a);
    EvalAppend(DigitsOf(s1, a), DigitsOf(s2, a), |a|);
  }

  lemma AllInConcat(s1: seq<char>, s2: seq<char>, a: seq<char>)
    requires AllIn(s1, a) && AllIn(s2, a)
    ensures AllIn(s1 + s2, a)
  {
    forall j | 0 <= j < |s1 + s2|
      ensures (s1 + s2)[j] in a
    {
      if j >= |s1| {
        assert (s1 + s2)[j] == s2[j - |s1|];
      }
    }
  }

  lemma DigitsOfConcat(s1: seq<char>, s2: seq<char>, a: seq<char>)
    requires AllIn(s1, a) && AllIn(s2, a) && AllIn(s1 + s2, a)
    ensures DigitsOf(s1 + s2, a) == DigitsOf(s1, a) + DigitsOf(s2, a)
  {
    var l, r := DigitsOf(s1 + s2, a), DigitsOf(s1, a) + DigitsOf(s2, a);
    forall j | 0 <= j < |l|
      ensures l[j] == r[j]
    {
      if j >= |s1| {
        assert (s1 + s2)[j] == s2[j - |s1|];
      }
    }
  }

  /** A string of `k` symbols denotes less than `|a|^k`. */
  lemma DecodeBelowPow(s: seq<char>, a: seq<char>)
    requires AllIn(s, a)
    ensures Decode(s, a) < Pow(|a|, |s|)
  {
    EvalBelowPow(DigitsOf(s, a), |a|);
  }

  /** The digits of an encoder-shaped string are a canonical digit sequence. */
  lemma DigitsOfEncoding(s: seq<char>, a: seq<char>)
    requires IsEncoding(s, a)
    ensures IsCanonical(DigitsOf(s, a), |a|)
    ensures Spell(DigitsOf(s, a), a) == s
  {
  }

  /**
    Encoding what an encoder-shaped string denotes gives the string back:
    no two such strings denote the same number.
   */
  lemma EncodeDecode(s: seq<char>, a: seq<char>)
    requires |a| >= 2
    requires IsEncoding(s, a)
    ensures Encode(Decode(s, a), a) == s
  {
    DigitsOfEncoding(s, a);
    CanonicalIsToDigits(DigitsOf(s, a), |a|);
  }

  /** Two encoder-shaped strings are equal exactly when they denote the same number. */
  lemma EncodingsInjective(s: seq<char>, t: seq<char>, a: seq<char>)
    requires |a| >= 2
    requires IsEncoding(s, a) && IsEncoding(t, a)
    ensures Decode(s, a) == Decode(t, a) <==> s == t
  {
    if Decode(s, a) == Decode(t, a) {
      EncodeDecode(s, a);
      EncodeDecode(t, a);
    }
  }

  /**
    What `Encode` produces: alphabet symbols only, empty exactly for zero,
    minimal length; over a duplicate-free alphabet no leading `a[0]`, and
    `Decode` gives `n` back.
   */
  lemma EncodeShape(n: nat, a: seq<char>)
    requires |a| >= 2
    ensures AllIn(Encode(n, a), a)
    ensures Encode(n, a) == [] <==> n == 0
    ensures n < Pow(|a|, |Encode(n, a)|)
    ensures n > 0 ==> Pow(|a|, |Encode(n, a)| - 1) <= n
    ensures Distinct(a) ==> IsEncoding(Encode(n, a), a)
    ensures Distinct(a) ==> Decode(Encode(n, a), a) == n
  {
    ToDigitsLength(n, |a|);
    if Distinct(a) {
      EncodeDistinct(n, a);
    }
  }

  /** Over a duplicate-free alphabet the symbols of `Encode(n, a)` read back as the canonical digits of `n`. */
  lemma EncodeDistinct(n: nat, a: seq<char>)
    requires |a| >= 2 && Distinct(a)
    ensures AllIn(Encode(n, a), a)
    ensures DigitsOf(Encode(n, a), a) == ToDigits(n, |a|)
    ensures IsEncoding(Encode(n, a), a)
    ensures Decode(Encode(n, a), a) == n
  {
    var ds := ToDigits(n, |a|);
    var s := Encode(n, a);
    forall j | 0 <= j < |s|
      ensures DigitsOf(s, a)[j] == ds[j]
    {
      IndexOfDistinct(a, ds[j]);
    }
    assert DigitsOf(s, a) == ds;
    EvalToDigits(n, |a|);
    if |s| > 0 {
      IndexOfDistinct(a, ds[0]);
    }
  }

  /** One step of the encoder's arithmetic, with `r = i - curr` and `p = base^k`. */
  lemma EncodeStep(r: nat, p: nat, b: nat)
    requires b >= 2 && p > 0 && r > 0
    requires r % p == 0
    ensures p <= r
    ensures (r / p) % b * p <= r
    ensures (r - (r / p) % b * p) % (p * b) == 0
    ensures (r - (r / p) % b * p) / (p * b) < r / p
    ensures r - (r / p) % b * p == 0 ==> (r / p) % b > 0
  {
    var m := r / p;
    DivModIdentity(r, p);
    assert r == m * p;
    assert m >= 1;
    MulAtLeast(p, m);
    var q, d := m / b, m % b;
    StepSplit(m, p, b);
    var rest := r - d * p;
    assert rest == q * (p * b);
    DivModOfDigit(q, 0, p * b);
    if rest == 0 {
      ProductZero(q, p * b);
    }
  }

  /** Removing the digit `m % b` from `m` units of weight `p` leaves `m / b` units of weight `p * b`. */
  lemma StepSplit(m: nat, p: nat, b: nat)
    requires b >= 2 && m >= 1
    ensures m % b * p <= m * p
    ensures m * p - m % b * p == m / b * (p * b)
    ensures m / b < m
  {
    var q, d := m / b, m % b;
    DivModIdentity(m, b);
    MulLe(d, m, p);
    MulDistributes(q * b, d, p);
    MulAssoc(q, b, p);
    assert b * p == p * b;
    assert q < m by {
      if q >= m {
        MulLe(m, q, b);
        MulLe(1, m, b);
      }
    }
  }

  /** 2^128, the first power of two beyond `u128`. */
  lemma PowTwo128()
    ensures Pow(2, 128) == TWO128
  {
    assert Pow(2, 8) == 0x100;
    PowAdd(2, 8, 8);
    assert Pow(2, 16) == 0x1_0000;
    PowAdd(2, 16, 16);
    assert Pow(2, 32) == 0x1_0000_0000;
    PowAdd(2, 32, 32);
    assert Pow(2, 64) == 0x1_0000_0000_0000_0000;
    PowAdd(2, 64, 64);
  }

  /** A power of a base of at least two that fits in `u128` has an exponent below 128. */
  lemma ExponentBelow128(b: nat, k: nat)
    requires b >= 2
    requires Pow(b, k) < TWO128
    ensures k < 128
  {
    if k >= 128 {
      PowTwo128();
      PowBaseMonotone(2, b, 128);
      PowMonotone(b, 128, k);
      assert false;
    }
  }

  /**
    `bn_encode`: digits are chosen least significant first, each step adding
    `d * base^k` to `curr` until `curr` reaches `i`; the pushed symbols are
    then reversed. With an alphabet of at least two symbols the result is the
    canonical string of `i`; with a shorter one only `i == 0` is allowed.
    Otherwise an empty alphabet divides by zero, and a one-symbol alphabet
    makes no progress and never returns a result: the loop ends in a panic
    on the `u32` overflow of `symbol_position`, or by running out of memory.
   */
  method BnEncode(i: nat, a: seq<char>) returns (out: seq<char>)
    requires i < TWO128
    requires i == 0 || |a| >= 2
    ensures |a| >= 2 ==> out == Encode(i, a)
    ensures out == [] <==> i == 0
    ensures AllIn(out, a)
    ensures i < Pow(|a|, |out|)
    ensures i > 0 ==> Pow(|a|, |out| - 1) <= i
    ensures Distinct(a) ==> IsEncoding(out, a)
    ensures Distinct(a) ==> Decode(out, a) == i
  {
    if |a| >= 2 {
      EncodeShape(i, a);
    }
    var base := |a|;
    var pushed: seq<char> := [];
    ghost var ds: seq<nat> := [];
    var curr: nat := 0;
    var k: nat := 0;
    while i != curr
      invariant curr <= i
      invariant base >= 2 || curr == i
      invariant k == |ds| == |pushed|
      invariant AllBelow(ds, base)
      invariant forall j :: 0 <= j < k ==> pushed[j] == a[ds[k - 1 - j]]
      invariant curr == Eval(ds, base)
      invariant Pow(base, k) > 0 && (i - curr) % Pow(base, k) == 0
      invariant curr == i && k > 0 ==> ds[0] > 0
      decreases (i - curr) / Pow(base, k)
    {
      var p := Pow(base, k);
      EncoderIteration(i, curr, ds, base);
      assert p < TWO128 && k < 128;  // base.pow(symbol_position) and symbol_position fit
      var d := ((i - curr) / p) % base;
      curr := curr + d * p;
      assert curr < TWO128;  // curr += ... fits in u128
      pushed := pushed + [a[d]];
      ds := [d] + ds;
      k := k + 1;
    }
    out := Reverse(pushed);
    if base >= 2 {
      PushedDigitsAreEncoding(i, a, ds, pushed);
    }
  }

  /**
    One pass of the encoder's loop from `curr < i` with digits `ds` so far:
    the power and the exponent fit their Rust types, the new digit is below
    the base, `curr` stays at most `i` and is the value of the extended digits,
    the remaining distance is a multiple of the next power and shrinks, and the
    pass that reaches `i` emits a nonzero digit.
   */
  lemma EncoderIteration(i: nat, curr: nat, ds: seq<nat>, base: nat)
    requires i < TWO128 && base >= 2
    requires curr < i && curr == Eval(ds, base)
    requires (i - curr) % Pow(base, |ds|) == 0
    ensures Pow(base, |ds|) < TWO128 && |ds| < 128
    ensures ((i - curr) / Pow(base, |ds|)) % base < base
    ensures curr + ((i - curr) / Pow(base, |ds|)) % base * Pow(base, |ds|) <= i
    ensures curr + ((i - curr) / Pow(base, |ds|)) % base * Pow(base, |ds|)
              == Eval([((i - curr) / Pow(base, |ds|)) % base] + ds, base)
    ensures (i - (curr + ((i - curr) / Pow(base, |ds|)) % base * Pow(base, |ds|))) % Pow(base, |ds| + 1) == 0
    ensures (i - (curr + ((i - curr) / Pow(base, |ds|)) % base * Pow(base, |ds|))) / Pow(base, |ds| + 1)
              < (i - curr) / Pow(base, |ds|)
    ensures curr + ((i - curr) / Pow(base, |ds|)) % base * Pow(base, |ds|) == i ==>
              ((i - curr) / Pow(base, |ds|)) % base > 0
  {
    var k, p := |ds|, Pow(base, |ds|);
    EncodeStep(i - curr, p, base);
    ExponentBelow128(base, k);
    var d := ((i - curr) / p) % base;
    EvalCons(d, ds, base);
    PowStep(base, k);
  }

  /**
    When the encoder's loop ends with canonical digits `ds` worth `i`, its
    reversed output is `Encode(i, a)`.
   */
  lemma PushedDigitsAreEncoding(i: nat, a: seq<char>, ds: seq<nat>, pushed: seq<char>)
    requires |a| >= 2
    requires IsCanonical(ds, |a|) && Eval(ds, |a|) == i
    requires |pushed| == |ds|
    requires forall j :: 0 <= j < |ds| ==> pushed[j] == a[ds[|ds| - 1 - j]]
    ensures Reverse(pushed) == Encode(i, a)
  {
    assert Reverse(pushed) == Spell(ds, a);
    CanonicalIsToDigits(ds, |a|);
  }

  /** The symbols of `s` below position `k` are alphabet symbols. */
  lemma AllInSuffix(s: seq<char>, a: seq<char>, k: nat)
    requires AllIn(s, a) && k <= |s|
    ensures AllIn(s[..k], a) && AllIn(s[k..], a)
  {
    assert forall j :: 0 <= j < |s| - k ==> s[k..][j] == s[k + j];
  }

  /** A leading symbol counts at the weight of the symbols after it. */
  lemma DecodeCons(c: char, tail: seq<char>, a: seq<char>)
    requires c in a && AllIn(tail, a)
    ensures AllIn([c] + tail, a)
    ensures Decode([c] + tail, a) == Index(a, c) * Pow(|a|, |tail|) + Decode(tail, a)
  {
    DecodeBasics(a, c);
    DecodeConcat([c], tail, a);
  }

  /** A suffix of a string denotes no more than the whole string. */
  lemma DecodeSuffixBelow(s: seq<char>, a: seq<char>, k: nat)
    requires AllIn(s, a) && k <= |s|
    ensures AllIn(s[k..], a)
    ensures Decode(s[k..], a) <= Decode(s, a)
  {
    AllInSuffix(s, a, k);
    assert s == s[..k] + s[k..];
    DecodeConcat(s[..k], s[k..], a);
  }

  /** Reading one more symbol from the end adds its digit at weight `base^k`; suffixes weigh no more than the whole. */
  lemma DecodeSuffixStep(s: seq<char>, a: seq<char>, pos: nat)
    requires AllIn(s, a) && pos < |s|
    ensures AllIn(s[pos..], a) && AllIn(s[pos + 1..], a)
    ensures Decode(s[pos..], a) == Index(a, s[pos]) * Pow(|a|, |s| - 1 - pos) + Decode(s[pos + 1..], a)
    ensures Decode(s[pos..], a) <= Decode(s, a)
  {
    var c, tail := s[pos], s[pos + 1..];
    AllInSuffix(s, a, pos + 1);
    assert s[pos..] == [c] + tail;
    DecodeCons(c, tail, a);
    DecodeSuffixBelow(s, a, pos);
  }

  /**
    `bn_decode`: symbols are taken from the end, the `e`-th one weighted by
    `base^e`. The `unwrap` of `position` needs every symbol in the alphabet,
    and the `u128` arithmetic needs the value and the largest power used to
    fit; a string without a leading `a[0]` needs only the former.
   */
  method BnDecode(s: seq<char>, a: seq<char>) returns (result: nat)
    requires AllIn(s, a)
    requires Decode(s, a) < TWO128
    requires |s| == 0 || Pow(|a|, |s| - 1) < TWO128
    ensures result == Decode(s, a)
  {
    var base := |a|;
    var rev := Reverse(s);
    result := 0;
    var exponent: nat := 0;
    AllInSuffix(s, a, |s|);
    while exponent < |rev|
      invariant exponent <= |s|
      invariant AllIn(s[|s| - exponent..], a)
      invariant result == Decode(s[|s| - exponent..], a)
    {
      var c := rev[exponent];
      var pos := |s| - 1 - exponent;
      assert c == s[pos];
      var j := Index(a, c);
      var p := Pow(base, exponent);
      PowMonotone(base, exponent, |s| - 1);
      assert p < TWO128;  // base.pow(exponent) fits in u128
      assert base >= 2 ==> exponent < 128 by {  // exponent as u32 loses nothing
        if base >= 2 { ExponentBelow128(base, exponent); }
      }
      DecodeSuffixStep(s, a, pos);
      assert result + j * p <= Decode(s, a);  // result += ... fits in u128
      result := result + j * p;
      exponent := exponent + 1;
    }
    assert s[|s| - exponent..] == s;
  }

  /** The decoder's `u128` bound on powers holds for every encoder-shaped string. */
  lemma EncodingPowBound(s: seq<char>, a: seq<char>)
    requires |a| >= 2
    requires IsEncoding(s, a)
    ensures |s| > 0 ==> Pow(|a|, |s| - 1) <= Decode(s, a)
  {
    if |s| > 0 {
      DigitsOfEncoding(s, a);
      EvalAtLeastLeading(DigitsOf(s, a), |a|);
    }
  }

  /**
    The driver's check `bn_decode(bn_encode(id)) == id` for a UID: it holds
    for every `u128` and every duplicate-free alphabet of two or more symbols.
   */
  method RoundTrip(id: nat, a: seq<char>) returns (enc: seq<char>, dec: nat)
    requires id < TWO128
    requires |a| >= 2 && Distinct(a)
    ensures enc == Encode(id, a)
    ensures dec == id
  {
    enc := BnEncode(id, a);
    EncodingPowBound(enc, a);
    dec := BnDecode(enc, a);
  }
}
