/** Big-endian positional notation in a base of at least two: the number
    arithmetic beneath base 58 text and big-endian byte strings. Digits are
    most significant first; the empty string stands for zero. */
module Radix {

  lemma {:induction false} MulAtLeast(x: int, b: int)
    requires x >= 1 && b >= 0
    ensures x * b >= b
    decreases x
  {
    if x > 1 {
      MulAtLeast(x - 1, b);
      assert x * b == (x - 1) * b + b;
    }
  }

  /** Quotient and remainder are unique. */
  lemma DivModUnique(n: int, base: int, q: int, r: int)
    requires base >= 1 && 0 <= r < base && n == q * base + r
    ensures n / base == q && n % base == r
  {
    var q', r' := n / base, n % base;
    assert n == q' * base + r';
    if q > q' {
      assert (q - q') * base == r' - r;
      MulAtLeast(q - q', base);
    } else if q < q' {
      assert (q' - q) * base == r - r';
      MulAtLeast(q' - q, base);
    }
  }

  lemma DivSmaller(n: nat, base: nat)
    requires base >= 2 && n > 0
    ensures n / base < n
  {
    var q := n / base;
    assert n == q * base + n % base;
    if q >= 1 {
      MulAtLeast(q, base);
      assert q * base == q * 2 + q * (base - 2);
      MulNonNeg(q, base - 2);
    }
  }

  lemma MulMono(a: int, b: int, c: int)
    requires a >= b && c >= 0
    ensures a * c >= b * c
  {
    MulNonNeg(a - b, c);
    assert (a - b) * c == a * c - b * c;
  }

  lemma MulNonNeg(x: int, y: int)
    requires x >= 0 && y >= 0
    ensures x * y >= 0
  {
    if x > 0 { MulAtLeast(x, y); }
  }

  predicate IsDigits(d: seq<int>, base: nat) {
    forall i :: 0 <= i < |d| ==> 0 <= d[i] < base
  }

  function Value(d: seq<int>, base: nat): (n: nat)
    requires base >= 2 && IsDigits(d, base)
  {
    if d == [] then 0 else Value(d[..|d| - 1], base) * base + d[|d| - 1]
  }

  /** The digits of `n`, shortest form: no leading zero digit, none at all for zero. */
  function Digits(n: nat, base: nat): (d: seq<int>)
    requires base >= 2
    ensures IsDigits(d, base)
    ensures d == [] <==> n == 0
    ensures d != [] ==> d[0] != 0
    decreases n
  {
    if n == 0 then [] else Digits(n / base, base) + [n % base]
  }

  function Zeros(k: nat): (z: seq<int>)
    ensures |z| == k && forall i :: 0 <= i < k ==> z[i] == 0
  {
    if k == 0 then [] else [0] + Zeros(k - 1)
  }

  /** The number of leading zero digits. */
  function LeadingZeros(d: seq<int>): (k: nat)
    ensures k <= |d| && d[..k] == Zeros(k)
    ensures k < |d| ==> d[k] != 0
  {
    if d == [] || d[0] != 0 then 0 else 1 + LeadingZeros(d[1..])
  }

  lemma {:induction false} ValueOfDigits(n: nat, base: nat)
    requires base >= 2
    ensures Value(Digits(n, base), base) == n
    decreases n
  {
    if n != 0 {
      var q, r := n / base, n % base;
      DivSmaller(n, base);
      ValueOfDigits(q, base);
      DigitsLast(n, base);
      DivMod(n, base);
      ValueSnoc(Digits(q, base), r, base);
    }
  }

  /** The last digit of a positive number is its remainder; the rest are the quotient's. */
  lemma DigitsLast(n: nat, base: nat)
    requires base >= 2 && n > 0
    ensures Digits(n, base) == Digits(n / base, base) + [n % base]
  {
  }

  lemma DivMod(n: nat, base: nat)
    requires base >= 2
    ensures n == (n / base) * base + n % base && 0 <= n % base < base
  {
  }

  /** Appending a digit multiplies by the base and adds the digit. */
  lemma ValueSnoc(e: seq<int>, r: int, base: nat)
    requires base >= 2 && IsDigits(e, base) && 0 <= r < base
    ensures IsDigits(e + [r], base) && Value(e + [r], base) == Value(e, base) * base + r
  {
    assert (e + [r])[..|e|] == e;
  }

  lemma {:induction false} ValuePositive(d: seq<int>, base: nat)
    requires base >= 2 && IsDigits(d, base)
    requires d != [] && d[0] != 0
    ensures Value(d, base) > 0
    decreases |d|
  {
    if |d| > 1 {
      ValuePositive(d[..|d| - 1], base);
    }
  }

  lemma {:induction false} DigitsOfValue(d: seq<int>, base: nat)
    requires base >= 2 && IsDigits(d, base)
    requires d == [] || d[0] != 0
    ensures Digits(Value(d, base), base) == d
    decreases |d|
  {
    if d != [] {
      var init, last := d[..|d| - 1], d[|d| - 1];
      assert d == init + [last];
      var m, n := Value(init, base), Value(d, base);
      ValueSnoc(init, last, base);
      ValuePositive(d, base);
      DivModUnique(n, base, m, last);
      if init != [] {
        assert init[0] == d[0];
        DigitsOfValue(init, base);
      }
      DigitsLast(n, base);
    }
  }

  lemma {:induction false} ValueOfZeros(k: nat, base: nat)
    requires base >= 2
    ensures IsDigits(Zeros(k), base) && Value(Zeros(k), base) == 0
  {
    if k > 0 {
      var z := Zeros(k);
      assert z[..k - 1] == Zeros(k - 1);
      ValueOfZeros(k - 1, base);
    }
  }

  /** Leading zero digits do not change the value. */
  lemma {:induction false} ValueIgnoresLeadingZeros(k: nat, d: seq<int>, base: nat)
    requires base >= 2 && IsDigits(d, base)
    ensures IsDigits(Zeros(k) + d, base)
    ensures Value(Zeros(k) + d, base) == Value(d, base)
    decreases |d|
  {
    ValueOfZeros(k, base);
    if d == [] {
      assert Zeros(k) + d == Zeros(k);
    } else {
      var init := d[..|d| - 1];
      assert (Zeros(k) + d)[..|Zeros(k) + d| - 1] == Zeros(k) + init;
      ValueIgnoresLeadingZeros(k, init, base);
    }
  }

  /** A digit string splits into its leading zeros and a rest without one. */
  lemma SplitLeadingZeros(d: seq<int>)
    ensures d == Zeros(LeadingZeros(d)) + d[LeadingZeros(d)..]
  {
    var k := LeadingZeros(d);
    assert d == d[..k] + d[k..];
  }

  lemma {:induction false} LeadingZerosOf(k: nat, d: seq<int>)
    requires d == [] || d[0] != 0
    ensures LeadingZeros(Zeros(k) + d) == k
  {
    if k > 0 {
      assert (Zeros(k) + d)[1..] == Zeros(k - 1) + d;
      LeadingZerosOf(k - 1, d);
    }
  }

  /** Every digit string is its leading zeros followed by the shortest form of its value. */
  lemma Canonical(d: seq<int>, base: nat)
    requires base >= 2 && IsDigits(d, base)
    ensures d == Zeros(LeadingZeros(d)) + Digits(Value(d, base), base)
  {
    var k := LeadingZeros(d);
    SplitLeadingZeros(d);
    var rest := d[k..];
    assert IsDigits(rest, base);
    ValueIgnoresLeadingZeros(k, rest, base);
    DigitsOfValue(rest, base);
  }

  function Pow(base: nat, k: nat): (p: nat)
    ensures base >= 1 ==> p >= 1
  {
    if k == 0 then 1 else base * Pow(base, k - 1)
  }

  lemma MulAssoc(a: int, b: int, c: int)
    ensures a * (b * c) == (a * c) * b
  {
  }

  /** A digit string without a leading zero is worth at least base^(|d| - 1). */
  lemma {:induction false} ValueLowerBound(d: seq<int>, base: nat)
    requires base >= 2 && IsDigits(d, base)
    requires d != [] && d[0] != 0
    ensures Value(d, base) >= d[0] * Pow(base, |d| - 1)
    decreases |d|
  {
    if |d| > 1 {
      var init := d[..|d| - 1];
      assert init[0] == d[0];
      ValueLowerBound(init, base);
      var v, p := Value(init, base), Pow(base, |d| - 2);
      assert Pow(base, |d| - 1) == base * p;
      assert Value(d, base) == v * base + d[|d| - 1];
      MulMono(v, d[0] * p, base);
      MulAssoc(d[0], base, p);
    } else {
      assert d[..0] == [];
      assert Value(d, base) == d[0];
    }
  }

  lemma QuotientBound(n: int, base: int, p: int)
    requires base >= 1 && p >= 0 && n >= p * base
    ensures n / base >= p
  {
    var q, r := n / base, n % base;
    assert n == q * base + r && r < base;
    assert (q + 1) * base == q * base + base;
    if q < p {
      MulMono(p, q + 1, base);
      assert false;
    }
  }

  /** A number of at least base^k has more than k digits. */
  lemma {:induction false} DigitsLength(n: nat, base: nat, k: nat)
    requires base >= 2 && n >= Pow(base, k)
    ensures |Digits(n, base)| > k
    decreases k
  {
    if k > 0 {
      var p := Pow(base, k - 1);
      assert Pow(base, k) == base * p == p * base;
      QuotientBound(n, base, p);
      DigitsLength(n / base, base, k - 1);
      assert Digits(n, base) == Digits(n / base, base) + [n % base];
    }
  }
}
