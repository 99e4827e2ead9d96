/**
 * Fixed-width integer arithmetic as Java performs it, and numerals: digit
 * strings read most significant digit first in a given base (base 256 for
 * big-endian byte strings, base 32 for the text form).
 */
module Numbers {

  /** A Java `byte`, written as its unsigned value (the value of `b & 0xff`). */
  type Byte = x: int | 0 <= x < 256

  /** A Java `int`. */
  type Int32 = x: int | -0x8000_0000 <= x < 0x8000_0000

  /** The raw form of an identifier: exactly twelve bytes. */
  type Bytes12 = s: seq<Byte> | |s| == 12 witness [0, 0, 0, 0, 0, 0, 0, 0, 0, 0, 0, 0]

  const TwoTo32: nat := 0x1_0000_0000
  const TwoTo24: nat := 0x100_0000

  /** The byte a Java `byte` value denotes: `(byte) -4` is the byte 0xFC. */
  function FromJavaByte(v: int): (b: Byte)
    requires -128 <= v < 128
    ensures ToJavaByte(b) == v
  {
    if v < 0 then v + 256 else v
  }

  /** The signed Java `byte` value of a byte. */
  function ToJavaByte(b: Byte): (v: int)
    ensures -128 <= v < 128
    ensures (v - b) % 256 == 0
  {
    if b < 128 then b else b - 256
  }

  /** Java's `t & 0xFFFFFFFFL`: an int read as an unsigned 32-bit value. */
  function Unsigned32(t: Int32): (u: nat)
    ensures u < TwoTo32
    ensures (u - t) % TwoTo32 == 0
    ensures t >= 0 ==> u == t
  {
    if t < 0 then t + TwoTo32 else t
  }

  lemma Unsigned32Injective(a: Int32, b: Int32)
    requires Unsigned32(a) == Unsigned32(b)
    ensures a == b
  {
  }

  /** Java's `(int) v`: keep the low 32 bits, read them in two's complement. */
  function Signed32(v: int): (t: Int32)
    ensures (t - v) % TwoTo32 == 0
  {
    var low := v % TwoTo32;
    if low < 0x8000_0000 then low else low - TwoTo32
  }

  /** Java's `a / d` on `long` for a positive divisor: the quotient truncated toward zero. */
  function TruncDiv(a: int, d: int): (q: int)
    requires d > 0
    ensures a >= 0 ==> 0 <= a - d * q < d
    ensures a < 0 ==> -d < a - d * q <= 0
  {
    if a >= 0 then a / d else -((-a) / d)
  }

  function Sign(x: int): int {
    if x < 0 then -1 else if x == 0 then 0 else 1
  }

  function Pow(base: nat, n: nat): (p: nat)
    ensures base >= 1 ==> p >= 1
  {
    if n == 0 then 1 else base * Pow(base, n - 1)
  }

  predicate IsDigits(ds: seq<int>, base: nat) {
    forall i :: 0 <= i < |ds| ==> 0 <= ds[i] < base
  }

  /** The number a digit string denotes, most significant digit first. */
  function Value(ds: seq<int>, base: nat): (v: nat)
    requires IsDigits(ds, base)
    ensures v < Pow(base, |ds|)
  {
    if |ds| == 0 then 0
    else
      var init := ds[..|ds| - 1];
      assert IsDigits(init, base);
      var x := Value(init, base);
      ShiftBound(x, Pow(base, |init|), base, ds[|ds| - 1]);
      x * base + ds[|ds| - 1]
  }

  /** Shifting a number below p by one digit and adding a digit stays below p * base. */
  lemma ShiftBound(x: nat, p: nat, base: nat, d: int)
    requires x < p && 0 <= d < base
    ensures x * base + d < base * p
  {
    MulMono(x + 1, p, base);
    assert (x + 1) * base == x * base + base;
  }

  /** The value of a numeral seen from its last digit. */
  lemma ValueSnoc(ds: seq<int>, base: nat)
    requires IsDigits(ds, base) && |ds| > 0
    ensures IsDigits(ds[..|ds| - 1], base)
    ensures Value(ds, base) == Value(ds[..|ds| - 1], base) * base + ds[|ds| - 1]
  {
  }

  /**
   * A numeral read digit by digit: when each partial value is the previous
   * one shifted by a digit, partial value i is the value of the first i digits.
   */
  lemma {:induction false} NumeralOfSteps(ps: seq<int>, ds: seq<int>, base: nat, i: nat)
    requires |ps| == |ds| + 1 && i <= |ds| && ps[0] == 0
    requires forall k :: 0 <= k < |ds| ==> 0 <= ds[k] < base && ps[k + 1] == base * ps[k] + ds[k]
    ensures IsDigits(ds[..i], base) && ps[i] == Value(ds[..i], base)
  {
    if i > 0 {
      NumeralOfSteps(ps, ds, base, i - 1);
      var pre := ds[..i];
      assert pre[..i - 1] == ds[..i - 1];
      ValueSnoc(pre, base);
      var x := ps[i - 1];
      assert ps[i] == base * x + ds[i - 1];
      assert base * x == x * base;
    }
  }

  /** The n-digit numeral of v. */
  function Digits(v: nat, base: nat, n: nat): (ds: seq<int>)
    requires base >= 2 && v < Pow(base, n)
    ensures |ds| == n && IsDigits(ds, base)
    decreases n
  {
    if n == 0 then []
    else
      var p := Pow(base, n - 1);
      assert Pow(base, n) == base * p;
      DivBound(v, base, p);
      var q := v / base;
      assert q < p;
      Digits(q, base, n - 1) + [v % base]
  }

  /** The numeral of v denotes v. */
  lemma {:induction false} ValueOfDigits(v: nat, base: nat, n: nat)
    requires base >= 2 && v < Pow(base, n)
    ensures Value(Digits(v, base, n), base) == v
    decreases n
  {
    if n > 0 {
      var p := Pow(base, n - 1);
      assert Pow(base, n) == base * p;
      DivBound(v, base, p);
      var q, r := v / base, v % base;
      assert q < p;
      var init := Digits(q, base, n - 1);
      var ds := Digits(v, base, n);
      assert ds == init + [r];
      assert ds[..n - 1] == init;
      ValueOfDigits(q, base, n - 1);
    }
  }

  /** The n-byte big-endian form of v. */
  function ByteString(v: nat, n: nat): (s: seq<Byte>)
    requires v < Pow(256, n)
    ensures |s| == n && Value(s, 256) == v
  {
    ValueOfDigits(v, 256, n);
    Digits(v, 256, n)
  }

  /** The value of three bytes, as shifts and sums write it. */
  lemma ValueOfThree(s: seq<int>)
    requires |s| == 3 && IsDigits(s, 256)
    ensures Value(s, 256) == s[0] * 0x1_0000 + s[1] * 0x100 + s[2]
  {
    var s2, s1 := s[..2], s[..1];
    assert s2[..1] == s1 && s1[..0] == [];
    assert IsDigits(s2, 256) && IsDigits(s1, 256);
    assert Value(s1, 256) == s[0];
    assert Value(s2, 256) == s[0] * 256 + s[1];
  }

  /** The value of four bytes, as shifts and sums write it. */
  lemma ValueOfFour(s: seq<int>)
    requires |s| == 4 && IsDigits(s, 256)
    ensures Value(s, 256) == s[0] * 0x100_0000 + s[1] * 0x1_0000 + s[2] * 0x100 + s[3]
  {
    var s3, s2, s1 := s[..3], s[..2], s[..1];
    assert s3[..2] == s2 && s2[..1] == s1 && s1[..0] == [];
    assert IsDigits(s3, 256) && IsDigits(s2, 256) && IsDigits(s1, 256);
    assert Value(s1, 256) == s[0];
    assert Value(s2, 256) == s[0] * 256 + s[1];
    assert Value(s3, 256) == (s[0] * 256 + s[1]) * 256 + s[2];
  }

  /** A digit string is the numeral of its own value. */
  lemma {:induction false} DigitsOfValue(ds: seq<int>, base: nat)
    requires base >= 2 && IsDigits(ds, base)
    ensures Digits(Value(ds, base), base, |ds|) == ds
  {
    if |ds| > 0 {
      var init, last := ds[..|ds| - 1], ds[|ds| - 1];
      assert IsDigits(init, base);
      var x := Value(init, base);
      DivModUnique(x * base + last, base, x, last);
      DigitsOfValue(init, base);
      assert ds == init + [last];
    }
  }

  /** Two digit strings of one length with the same value are the same string. */
  lemma ValueInjective(a: seq<int>, b: seq<int>, base: nat)
    requires base >= 2 && IsDigits(a, base) && IsDigits(b, base) && |a| == |b|
    requires Value(a, base) == Value(b, base)
    ensures a == b
  {
    DigitsOfValue(a, base);
    DigitsOfValue(b, base);
  }

  /** The value of a concatenation: the prefix shifted by the suffix's width, plus the suffix. */
  lemma {:induction false} ValueAppend(a: seq<int>, b: seq<int>, base: nat)
    requires IsDigits(a, base) && IsDigits(b, base)
    ensures IsDigits(a + b, base)
    ensures Value(a + b, base) == Value(a, base) * Pow(base, |b|) + Value(b, base)
  {
    if |b| == 0 {
      assert a + b == a;
    } else {
      var init, last := b[..|b| - 1], b[|b| - 1];
      assert IsDigits(init, base);
      assert (a + b)[..|a + b| - 1] == a + init && (a + b)[|a + b| - 1] == last;
      ValueAppend(a, init, base);
      var x, p, r := Value(a, base), Pow(base, |init|), Value(init, base);
      assert Value(a + b, base) == (x * p + r) * base + last;
      assert Value(b, base) == r * base + last;
      assert Pow(base, |b|) == base * p;
      MulAssoc(x, p, base);
      MulDistrib(x * p, r, base);
    }
  }

  /**
   * An (m + n)-digit numeral is the m-digit numeral of the high part q
   * followed by the n-digit numeral of the low part r.
   */
  lemma DigitsSplit(v: nat, base: nat, m: nat, n: nat, q: nat, r: nat)
    requires base >= 2 && v < Pow(base, m + n) && q < Pow(base, m) && r < Pow(base, n)
    requires v == q * Pow(base, n) + r
    ensures Digits(v, base, m + n) == Digits(q, base, m) + Digits(r, base, n)
  {
    var hi, lo := Digits(q, base, m), Digits(r, base, n);
    assert Value(hi + lo, base) == v by {
      ValueOfDigits(q, base, m);
      ValueOfDigits(r, base, n);
      ValueAppend(hi, lo, base);
    }
    ValueOfDigits(v, base, m + n);
    ValueInjective(Digits(v, base, m + n), hi + lo, base);
  }

  /** The value of a numeral seen from its leading digit. */
  lemma ValueCons(d: int, rest: seq<int>, base: nat)
    requires 0 <= d < base && IsDigits(rest, base)
    ensures IsDigits([d] + rest, base)
    ensures Value([d] + rest, base) == d * Pow(base, |rest|) + Value(rest, base)
  {
    assert IsDigits([d], base);
    assert Value([d], base) == d by {
      assert [d][..0] == [];
    }
    ValueAppend([d], rest, base);
  }

  /**
   * Lexicographic comparison of two digit strings of one length, the first
   * differing digit deciding: -1, 0 or 1.
   */
  function LexCompare(a: seq<int>, b: seq<int>): (r: int)
    requires |a| == |b|
    ensures -1 <= r <= 1
  {
    if |a| == 0 then 0
    else if a[0] < b[0] then -1
    else if a[0] > b[0] then 1
    else LexCompare(a[1..], b[1..])
  }

  /** Lexicographic order of numerals of one length is the order of their values. */
  lemma {:induction false} LexCompareIsValueOrder(a: seq<int>, b: seq<int>, base: nat)
    requires IsDigits(a, base) && IsDigits(b, base) && |a| == |b|
    ensures LexCompare(a, b) == Sign(Value(a, base) - Value(b, base))
  {
    if |a| > 0 {
      var ra, rb := a[1..], b[1..];
      assert IsDigits(ra, base) && IsDigits(rb, base);
      assert a == [a[0]] + ra && b == [b[0]] + rb;
      ValueCons(a[0], ra, base);
      ValueCons(b[0], rb, base);
      var p, va, vb := Pow(base, |ra|), Value(ra, base), Value(rb, base);
      if a[0] < b[0] {
        LeadingDigitDecides(a[0], b[0], va, vb, p);
      } else if a[0] > b[0] {
        LeadingDigitDecides(b[0], a[0], vb, va, p);
      } else {
        LexCompareIsValueOrder(ra, rb, base);
      }
    }
  }

  /** A smaller leading digit makes a smaller numeral, whatever the digits after it. */
  lemma LeadingDigitDecides(x: int, y: int, rx: nat, ry: nat, p: nat)
    requires x < y && rx < p && ry < p
    ensures x * p + rx < y * p + ry
  {
    MulMono(x + 1, y, p);
    assert (x + 1) * p == x * p + p;
  }

  /**
   * Sequences whose elements compare position by position as those of two
   * other sequences do compare lexicographically as those sequences do.
   */
  lemma {:induction false} LexCompareOfMonotone(a: seq<int>, b: seq<int>, c: seq<int>, d: seq<int>)
    requires |a| == |b| == |c| == |d|
    requires forall i :: 0 <= i < |a| ==> (a[i] < b[i] <==> c[i] < d[i]) && (a[i] == b[i] <==> c[i] == d[i])
    ensures LexCompare(a, b) == LexCompare(c, d)
    decreases |a|
  {
    if |a| > 0 && a[0] == b[0] {
      LexCompareOfMonotone(a[1..], b[1..], c[1..], d[1..]);
    }
  }

  /** The numerals of two numbers compare as the numbers do. */
  lemma NumeralOrder(da: seq<int>, db: seq<int>, base: nat, n: nat, a: nat, b: nat)
    requires base >= 2 && a < Pow(base, n) && b < Pow(base, n)
    requires da == Digits(a, base, n) && db == Digits(b, base, n)
    ensures LexCompare(da, db) == Sign(a - b)
  {
    ValueOfDigits(a, base, n);
    ValueOfDigits(b, base, n);
    LexCompareIsValueOrder(da, db, base);
  }

  lemma MulAssoc(x: int, y: int, z: int)
    ensures x * (y * z) == (x * y) * z
  {
  }

  lemma MulDistrib(x: int, y: int, z: int)
    ensures (x + y) * z == x * z + y * z
  {
  }

  lemma MulMono(x: int, y: int, p: int)
    requires x <= y && p >= 0
    ensures x * p <= y * p
  {
    assert y * p - x * p == (y - x) * p;
  }

  lemma DivBound(v: nat, base: nat, p: nat)
    requires base >= 1 && v < base * p
    ensures v / base < p
    ensures v / base * base + v % base == v && 0 <= v % base < base
  {
    if v / base >= p {
      MulMono(p, v / base, base);
    }
  }

  /** Quotient and remainder are determined by `v == q * p + r` with `0 <= r < p`. */
  lemma DivModUnique(v: int, p: int, q: int, r: int)
    requires p > 0 && 0 <= r < p && v == q * p + r
    ensures v / p == q && v % p == r
  {
    var q', r' := v / p, v % p;
    assert v == q' * p + r';
    if q' < q {
      assert (q' + 1) * p == q' * p + p;
      MulMono(q' + 1, q, p);
    } else if q < q' {
      assert (q + 1) * p == q * p + p;
      MulMono(q + 1, q', p);
    }
  }
}
