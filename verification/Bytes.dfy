/** Bytes, big-endian numbers and the option type shared by every component. */
module Bytes {
  datatype Option<+T> = None | Some(value: T)

  type byte = b: int | 0 <= b < 0x100

  const U16_MAX: nat := 0xFFFF

  /** `n` bytes of `x`, most significant first (the `put_u8` .. `put_u64` family). */
  function PutUint(x: nat, n: nat): (s: seq<byte>)
    ensures |s| == n
  {
    if n == 0 then [] else PutUint(x / 0x100, n - 1) + [x % 0x100]
  }

  /** The number a big-endian byte string stands for (`get_*`, `from_be_bytes`). */
  function GetUint(s: seq<byte>): nat {
    if s == [] then 0 else GetUint(s[..|s| - 1]) * 0x100 + s[|s| - 1]
  }

  function Power(base: nat, n: nat): (p: nat)
    ensures base > 0 ==> p > 0
  {
    if n == 0 then 1 else base * Power(base, n - 1)
  }

  /** A number that fits its width survives being written and read back. */
  lemma {:induction false} UintRoundTrip(x: nat, n: nat)
    requires x < Power(0x100, n)
    ensures GetUint(PutUint(x, n)) == x
  {
    if n > 0 {
      UintRoundTrip(x / 0x100, n - 1);
      assert PutUint(x, n)[..n - 1] == PutUint(x / 0x100, n - 1);
    }
  }

  /** Writing what was read gives back the bytes that were read. */
  lemma {:induction false} UintRoundTripBytes(s: seq<byte>)
    ensures GetUint(s) < Power(0x100, |s|)
    ensures PutUint(GetUint(s), |s|) == s
  {
    if s != [] {
      UintRoundTripBytes(s[..|s| - 1]);
      assert GetUint(s) / 0x100 == GetUint(s[..|s| - 1]);
      assert s == s[..|s| - 1] + [s[|s| - 1]];
    }
  }

  lemma PowersOf256()
    ensures Power(0x100, 1) == 0x100
    ensures Power(0x100, 2) == 0x10000
    ensures Power(0x100, 8) == 0x1_0000_0000_0000_0000
  {
    assert Power(0x100, 4) == 0x1_0000_0000 by {
      assert Power(0x100, 2) == 0x10000;
      assert Power(0x100, 3) == 0x1000000;
    }
    assert Power(0x100, 5) == 0x100_0000_0000;
    assert Power(0x100, 6) == 0x1_0000_0000_0000;
    assert Power(0x100, 7) == 0x100_0000_0000_0000;
  }

  /** Each byte written is a digit of the number to the base 256, the most significant first. */
  lemma {:induction false} PutUintDigits(x: nat, n: nat, i: nat)
    requires i < n
    ensures PutUint(x, n)[i] == x / Power(0x100, n - 1 - i) % 0x100
  {
    if i < n - 1 {
      PutUintDigits(x / 0x100, n - 1, i);
      assert Power(0x100, n - 1 - i) == 0x100 * Power(0x100, n - 2 - i);
      assert PutUint(x, n)[i] == PutUint(x / 0x100, n - 1)[i];
      hide PutUint, Power;
      DivideTwice(x, 0x100, Power(0x100, n - 2 - i));
    }
  }

  lemma DivideTwice(x: nat, a: nat, b: nat)
    requires a > 0 && b > 0
    ensures a * b > 0 && x / a / b == x / (a * b)
  {
    Euclid(x, a);
    Euclid(x / a, b);
    QuotientOf(x, a, b, x / a, x % a, x / a / b, x / a % b);
  }

  lemma Euclid(x: nat, n: nat)
    requires n > 0
    ensures x == n * (x / n) + x % n && x % n < n
  {
  }

  lemma QuotientOf(x: nat, a: nat, b: nat, y: nat, t: nat, q: nat, r: nat)
    requires x == a * y + t && y == b * q + r && t < a && r < b
    ensures a * b > 0 && x / (a * b) == q
  {
    Expand(a, b, q, r);
    Below(a, b, r, t);
    DivisionIs(x, q, a * r + t, a * b);
  }

  lemma Expand(a: nat, b: nat, q: nat, r: nat)
    ensures a * (b * q + r) == q * (a * b) + a * r
  {
  }

  lemma Below(a: nat, b: nat, r: nat, t: nat)
    requires r < b && t < a
    ensures 0 <= a * r + t < a * b
  {
    assert a * (r + 1) <= a * b;
  }

  lemma SmallMultiple(d: int, m: int)
    requires -m < d * m < m
    ensures d == 0
  {
  }

  /** Quotient and remainder are the only numbers that do. */
  lemma DivisionIs(x: nat, q: nat, r: nat, m: nat)
    requires r < m && x == q * m + r
    ensures x / m == q && x % m == r
  {
    var d := x / m - q;
    assert x == x / m * m + x % m;
    assert d * m == x / m * m - q * m;
    SmallMultiple(d, m);
  }

  /** Network order: the high byte first. */
  lemma TwoBytes(x: nat)
    requires x <= U16_MAX
    ensures PutUint(x, 2) == [x / 0x100, x % 0x100]
  {
    assert PutUint(x / 0x100, 1) == PutUint(x / 0x100 / 0x100, 0) + [x / 0x100 % 0x100];
  }

  lemma U16RoundTrip(x: nat)
    requires x <= U16_MAX
    ensures GetUint(PutUint(x, 2)) == x
  {
    PowersOf256();
    UintRoundTrip(x, 2);
  }

  lemma U64RoundTrip(x: nat)
    requires x < 0x1_0000_0000_0000_0000
    ensures GetUint(PutUint(x, 8)) == x
  {
    PowersOf256();
    UintRoundTrip(x, 8);
  }

  lemma U16Fits(s: seq<byte>)
    requires |s| == 2
    ensures GetUint(s) <= U16_MAX
  {
    PowersOf256();
    UintRoundTripBytes(s);
  }

  function Min(a: nat, b: nat): nat { if a < b then a else b }

  function Max(a: nat, b: nat): nat { if a < b then b else a }

  lemma Regroup(a: seq<byte>, b: seq<byte>, c: seq<byte>, d: seq<byte>)
    ensures ((a + b) + c) + d == a + (b + (c + d))
    ensures (b + (c + d))[|b|..] == c + d
  {
  }

  lemma Pour(a: seq<byte>, b: seq<byte>, n: nat)
    requires n <= |b|
    ensures (a + b[..n]) + b[n..] == a + b
  {
  }

  lemma Adjoin<T>(s: seq<T>, a: nat, b: nat, c: nat)
    requires a <= b <= c <= |s|
    ensures s[a..b] + s[b..c] == s[a..c]
  {
  }

  lemma SubSlice<T>(s: seq<T>, a: nat, b: nat, c: nat, d: nat)
    requires a <= b <= |s| && c <= d <= b - a
    ensures s[a..b][c..d] == s[a + c..a + d]
  {
    var l, r := s[a..b][c..d], s[a + c..a + d];
    assert forall i :: 0 <= i < |l| ==> l[i] == r[i];
  }
}
