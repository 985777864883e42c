/**
 * Rendering of integers as digit strings, shared by the C side (printf's %d,
 * %zu and %02X) and the browser side (Number.prototype.toString).
 */
module Text {

  /** The digit character for d: '0'..'9', then 'A'..'F'. */
  function DigitChar(d: nat): (c: char)
    requires d < 16
    ensures DigitValue(c) == d
  {
    if d < 10 then ('0' as int + d) as char else ('A' as int + d - 10) as char
  }

  /** The value of a digit character; 0 for anything that is not a digit. */
  function DigitValue(c: char): nat
  {
    if '0' <= c <= '9' then c as int - '0' as int
    else if 'A' <= c <= 'F' then c as int - 'A' as int + 10
    else 0
  }

  predicate IsDigitIn(c: char, base: nat)
  {
    ('0' <= c <= '9' || 'A' <= c <= 'F') && DigitValue(c) < base
  }

  /** The number a digit string denotes in the given base. */
  function ValueOf(s: string, base: nat): nat
  {
    if s == [] then 0 else ValueOf(s[..|s| - 1], base) * base + DigitValue(s[|s| - 1])
  }

  /** The digits of n in the given base, most significant first, without leading zeros. */
  function Digits(n: nat, base: nat): (r: string)
    requires 2 <= base <= 16
    ensures |r| >= 1
    ensures forall i :: 0 <= i < |r| ==> IsDigitIn(r[i], base)
    ensures r[0] != '0' || n == 0
    ensures ValueOf(r, base) == n
  {
    if n < base then [DigitChar(n)]
    else
      DivStep(n, base);
      var p := Digits(n / base, base);
      var r := p + [DigitChar(n % base)];
      assert r[..|r| - 1] == p;
      assert forall i :: 0 <= i < |p| ==> r[i] == p[i];
      assert ValueOf(r, base) == ValueOf(p, base) * base + n % base;
      r
  }

  lemma DivStep(n: nat, b: nat)
    requires 2 <= b <= n
    ensures 1 <= n / b < n && n == (n / b) * b + n % b && 0 <= n % b < b
  {
  }

  /** Decimal rendering of a natural number. */
  function Decimal(n: nat): (r: string)
    ensures |r| >= 1 && ValueOf(r, 10) == n
    ensures forall i :: 0 <= i < |r| ==> '0' <= r[i] <= '9'
  {
    Digits(n, 10)
  }

  /** Decimal rendering of an integer, with a leading '-' when it is negative. */
  function IntToString(n: int): (r: string)
    ensures n >= 0 ==> r == Decimal(n)
    ensures n < 0 ==> r == "-" + Decimal(-n)
  {
    if n < 0 then "-" + Decimal(-n) else Decimal(n)
  }

  /** printf's %02X of a byte: exactly two upper-case hex digits. */
  function Hex2(b: nat): (r: string)
    requires b < 256
    ensures |r| == 2 && IsDigitIn(r[0], 16) && IsDigitIn(r[1], 16)
    ensures ValueOf(r, 16) == b
  {
    var r := [DigitChar(b / 16), DigitChar(b % 16)];
    assert r[..1] == [DigitChar(b / 16)];
    assert ValueOf(r[..1], 16) == DigitValue(r[0]);
    assert ValueOf(r, 16) == DigitValue(r[0]) * 16 + DigitValue(r[1]);
    r
  }

  /** String.prototype.padStart(n, c): c repeated in front of s up to length n. */
  function PadStart(s: string, n: nat, c: char): (r: string)
    ensures |r| == if |s| >= n then |s| else n
  {
    if |s| >= n then s else seq(n - |s|, _ => c) + s
  }

  /** The padded string ends with s and holds only c in front of it. */
  lemma PadStartParts(s: string, n: nat, c: char)
    ensures var r := PadStart(s, n, c);
            r[|r| - |s|..] == s && forall i :: 0 <= i < |r| - |s| ==> r[i] == c
  {
    var r := PadStart(s, n, c);
    if |s| < n {
      assert r[|r| - |s|..] == s;
    }
  }

  /** A string of '0' digits is worth nothing. */
  lemma {:induction false} ZerosValue(z: string, base: nat)
    requires forall i :: 0 <= i < |z| ==> z[i] == '0'
    ensures ValueOf(z, base) == 0
    decreases |z|
  {
    if z != [] {
      ZerosValue(z[..|z| - 1], base);
    }
  }

  /** Leading '0' digits do not change the value of a digit string. */
  lemma {:induction false} LeadingZerosValue(z: string, s: string, base: nat)
    requires forall i :: 0 <= i < |z| ==> z[i] == '0'
    ensures ValueOf(z + s, base) == ValueOf(s, base)
    decreases |s|
  {
    if s == [] {
      assert z + s == z;
      ZerosValue(z, base);
    } else {
      var init := s[..|s| - 1];
      LeadingZerosValue(z, init, base);
      assert (z + s)[..|z + s| - 1] == z + init;
      assert (z + s)[|z + s| - 1] == s[|s| - 1];
    }
  }

  /** Padding a digit string with '0' in front keeps its value. */
  lemma PadStartValue(s: string, n: nat, base: nat)
    ensures ValueOf(PadStart(s, n, '0'), base) == ValueOf(s, base)
  {
    if |s| < n {
      LeadingZerosValue(seq(n - |s|, _ => '0'), s, base);
    }
  }
}

/** Powers of two and the bits of an integer in two's complement. */
module Bits {
  import Text

  function Pow2(i: nat): (r: nat)
    ensures r >= 1
  {
    if i == 0 then 1 else 2 * Pow2(i - 1)
  }

  /** Bit i of v, counting v in two's complement when it is negative. */
  predicate Bit(v: int, i: nat)
  {
    (v / Pow2(i)) % 2 == 1
  }

  /** Euclidean division is determined by any quotient and remainder that fit. */
  lemma DivModUnique(x: int, d: int, q: int, r: int)
    requires d > 0 && x == d * q + r && 0 <= r < d
    ensures x / d == q && x % d == r
  {
    var q0 := x / d;
    if q > q0 {
      MulGap(d, q, q0);
      assert false;
    } else if q < q0 {
      MulGap(d, q0, q);
      assert false;
    }
  }

  /** Multiples of d that differ in their factor lie at least d apart. */
  lemma MulGap(d: int, a: int, b: int)
    requires d > 0 && a > b
    ensures d * a >= d * b + d
  {
    var k := a - b - 1;
    assert d * a == d * b + d + d * k;
    assert d * k >= 0;
  }

  /** The sum of 2^i over the set bits i below n. */
  function BitSum(v: int, n: nat): (r: nat)
  {
    if n == 0 then 0 else BitSum(v, n - 1) + (if Bit(v, n - 1) then Pow2(n - 1) else 0)
  }

  /** Bit n - 1 splits v mod 2^n into v mod 2^(n-1) and that bit's weight. */
  lemma ModTopBit(v: int, n: nat)
    requires n >= 1
    ensures v % Pow2(n) == v % Pow2(n - 1) + (if Bit(v, n - 1) then Pow2(n - 1) else 0)
  {
    var p := Pow2(n - 1);
    var q, r := v / p, v % p;
    var h, b := q / 2, q % 2;
    assert v == p * q + r;
    assert q == 2 * h + b;
    assert v == (2 * p) * h + (p * b + r);
    assert 0 <= p * b + r < 2 * p;
    DivModUnique(v, 2 * p, h, p * b + r);
  }

  /**
   * The set bits below n add up to v mod 2^n: the low n bits of v, read in
   * two's complement, are exactly its residue.
   */
  lemma {:induction false} BitSumIsMod(v: int, n: nat)
    ensures BitSum(v, n) == v % Pow2(n)
  {
    if n > 0 {
      BitSumIsMod(v, n - 1);
      ModTopBit(v, n);
    }
  }

  /** 2^(a+b) is 2^a times 2^b. */
  lemma {:induction false} Pow2Add(a: nat, b: nat)
    ensures Pow2(a + b) == Pow2(a) * Pow2(b)
  {
    if a > 0 {
      Pow2Add(a - 1, b);
      assert Pow2(a + b) == 2 * Pow2(a - 1 + b);
    }
  }

  /** The number whose bits below n are set exactly at the positions in s. */
  function BitsValue(s: set<nat>, n: nat): (r: nat)
    ensures r < Pow2(n)
  {
    if n == 0 then 0 else BitsValue(s, n - 1) + (if n - 1 in s then Pow2(n - 1) else 0)
  }

  /** No positions, no value. */
  lemma {:induction false} BitsValueEmpty(n: nat)
    ensures BitsValue({}, n) == 0
  {
    if n > 0 {
      BitsValueEmpty(n - 1);
    }
  }

  /** Adding c * d * e to f adds c * e to its quotient by d and keeps its remainder. */
  lemma DivOfAddedMultiple(f: int, c: int, d: int, e: int)
    requires d > 0
    ensures (f + c * (d * e)) / d == f / d + c * e
    ensures (f + c * (d * e)) % d == f % d
  {
    var q0, r0 := f / d, f % d;
    assert c * (d * e) == d * (c * e);
    DivModUnique(f + c * (d * e), d, q0 + c * e, r0);
  }

  /** Adding a multiple of an even number keeps the parity. */
  lemma ParityOfEvenAdd(q: int, c: int, h: int)
    ensures (q + c * (2 * h)) % 2 == q % 2
  {
    assert c * (2 * h) == 2 * (c * h);
  }

  /** Adding a multiple of 2^m, for m above i, leaves bit i alone. */
  lemma BitOfHigherAdd(f: nat, c: nat, i: nat, m: nat)
    requires m > i
    ensures Bit(f + c * Pow2(m), i) == Bit(f, i)
  {
    var d, e, h := Pow2(i), Pow2(m - i), Pow2(m - i - 1);
    Pow2Add(i, m - i);
    assert e == 2 * h;
    var x := f + c * Pow2(m);
    assert x == f + c * (d * e);
    DivOfAddedMultiple(f, c, d, e);
    var q := f / d;
    assert x / d == q + c * (2 * h);
    ParityOfEvenAdd(q, c, h);
  }

  /** Bit i of BitsValue(s, n) is set exactly when i is in s, for every i below n. */
  lemma {:induction false} BitOfBitsValue(s: set<nat>, n: nat, i: nat)
    requires i < n
    ensures Bit(BitsValue(s, n), i) <==> i in s
  {
    var f := BitsValue(s, n - 1);
    var c := if n - 1 in s then 1 else 0;
    var v := BitsValue(s, n);
    assert v == f + c * Pow2(n - 1);
    var b := Bit(f + c * Pow2(n - 1), i);
    assert Bit(v, i) == b;
    if i == n - 1 {
      TopBitOfBitsValue(f, c, i);
      assert b <==> c == 1;
    } else {
      BitOfBitsValue(s, n - 1, i);
      BitOfHigherAdd(f, c, i, n - 1);
      assert b == Bit(f, i);
    }
  }

  /** Below 2^i, adding c * 2^i makes bit i the parity of c. */
  lemma TopBitOfBitsValue(f: nat, c: nat, i: nat)
    requires f < Pow2(i) && c <= 1
    ensures Bit(f + c * Pow2(i), i) <==> c == 1
  {
    DivModUnique(f + c * Pow2(i), Pow2(i), c, f);
  }

  /** Adding position i below n to the set adds its weight once, unless it was there. */
  lemma {:induction false} BitsValueInsert(s: set<nat>, n: nat, i: nat)
    requires i < n
    ensures BitsValue(s + {i}, n) == BitsValue(s, n) + (if i in s then 0 else Pow2(i))
  {
    if i < n - 1 {
      BitsValueInsert(s, n - 1, i);
    } else {
      BitsValueSame(s, s + {i}, n - 1);
    }
  }

  /** Only the positions below n count. */
  lemma {:induction false} BitsValueSame(s: set<nat>, t: set<nat>, n: nat)
    requires forall i :: 0 <= i < n ==> (i in s <==> i in t)
    ensures BitsValue(s, n) == BitsValue(t, n)
  {
    if n > 0 {
      BitsValueSame(s, t, n - 1);
    }
  }

  /** Positions at or above m add nothing when none of them is in the set. */
  lemma {:induction false} BitsValueBelow(s: set<nat>, m: nat, n: nat)
    requires m <= n && forall i :: i in s ==> i < m
    ensures BitsValue(s, n) == BitsValue(s, m)
  {
    if n > m {
      BitsValueBelow(s, m, n - 1);
    }
  }

  /** The positions below n where v has a set bit. */
  function BitSet(v: int, n: nat): set<nat>
  {
    set i: nat | i < n && Bit(v, i)
  }

  /** Gathered into a set and summed back, the set bits of v below n give v's low n bits. */
  lemma {:induction false} BitsValueOfBits(v: int, n: nat)
    ensures BitsValue(BitSet(v, n), n) == BitSum(v, n)
  {
    if n > 0 {
      BitsValueOfBits(v, n - 1);
      BitsValueSame(BitSet(v, n), BitSet(v, n - 1), n - 1);
    }
  }

  lemma DoubleOfWeighted(d: int, p: int, v: int)
    ensures (d * p + v) * 2 == d * (2 * p) + v * 2
  {
  }

  /** The binary digits of s, read from the front: its first digit weighs 2^(|s|-1). */
  lemma {:induction false} BinaryValueFront(s: string)
    requires s != []
    ensures Text.ValueOf(s, 2) == Text.DigitValue(s[0]) * Pow2(|s| - 1) + Text.ValueOf(s[1..], 2)
    decreases |s|
  {
    var n := |s|;
    if n > 1 {
      var init, tail := s[..n - 1], s[1..];
      BinaryValueFront(init);
      assert init[1..] == tail[..n - 2];
      assert init[0] == s[0];
      var d: int, p: int := Text.DigitValue(s[0]), Pow2(n - 2);
      var v: int, last: int := Text.ValueOf(init[1..], 2), Text.DigitValue(s[n - 1]);
      assert Text.ValueOf(init, 2) == d * p + v;
      assert tail[n - 2] == s[n - 1];
      assert Text.ValueOf(tail, 2) == v * 2 + last;
      DoubleOfWeighted(d, p, v);
      assert Pow2(n - 1) == 2 * p;
    } else {
      assert s[..0] == [] && s[1..] == [];
    }
  }
}
