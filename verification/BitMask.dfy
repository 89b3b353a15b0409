/** Bitwise conjunction of numbers, and what a mask of leading ones keeps of an address. */
module BitMask {
  import opened Common

  /** `x` shifted left by `k` bits. */
  function Shl(x: nat, k: nat): (r: nat)
    ensures r >= x
  {
    if k == 0 then x else 2 * Shl(x, k - 1)
  }

  function Pow2(k: nat): (p: nat)
    ensures p > 0
  {
    Shl(1, k)
  }

  function And(x: nat, y: nat): (r: nat)
    ensures r <= x && r <= y
  {
    if x == 0 || y == 0 then 0 else 2 * And(x / 2, y / 2) + (if x % 2 == 1 && y % 2 == 1 then 1 else 0)
  }

  // ----- shifting -----

  lemma {:induction false} ShlIsTimes(x: nat, k: nat)
    ensures Shl(x, k) == x * Pow2(k)
  {
    if k > 0 {
      ShlIsTimes(x, k - 1);
      Doubled(x, Pow2(k - 1));
    }
  }

  lemma Doubled(x: nat, p: nat)
    ensures x * (2 * p) == 2 * (x * p)
  {
  }

  lemma {:induction false} ShlSum(x: nat, y: nat, k: nat)
    ensures Shl(x + y, k) == Shl(x, k) + Shl(y, k)
  {
    if k > 0 {
      ShlSum(x, y, k - 1);
    }
  }

  lemma {:induction false} ShlTwice(x: nat, m: nat, k: nat)
    ensures Shl(Shl(x, m), k) == Shl(x, m + k)
  {
    if k > 0 {
      ShlTwice(x, m, k - 1);
    }
  }

  lemma {:induction false} ShlOrder(x: nat, y: nat, k: nat)
    ensures Shl(x, k) < Shl(y, k) <==> x < y
  {
    if k > 0 {
      ShlOrder(x, y, k - 1);
    }
  }

  /** A number's high part and its `k` low bits. */
  lemma {:induction false} Parts(x: nat, k: nat) returns (high: nat, low: nat)
    ensures x == Shl(high, k) + low && low < Pow2(k)
  {
    if k == 0 {
      high, low := x, 0;
    } else {
      var rest;
      high, rest := Parts(x / 2, k - 1);
      low := 2 * rest + x % 2;
    }
  }

  /** Numbers with the same high part lie in one block. */
  lemma SameBlock(high: nat, low: nat, m: nat, k: nat)
    requires low < Pow2(k)
    ensures Shl(m, k) <= Shl(high, k) + low < Shl(m, k) + Pow2(k) <==> high == m
  {
    ShlSum(high, 1, k);
    ShlSum(m, 1, k);
    ShlOrder(high, m + 1, k);
    ShlOrder(m, high + 1, k);
  }

  lemma Pow2Of32()
    ensures Pow2(8) == 256 && Pow2(32) == 0x1_0000_0000
  {
    assert Shl(1, 4) == 16;
    assert Shl(16, 4) == 256;
    ShlTwice(1, 4, 4);
    ShlTwice(1, 8, 8);
    ShlIsTimes(256, 8);
    ShlTwice(1, 16, 16);
    ShlIsTimes(0x1_0000, 16);
  }

  // ----- conjunction, part by part -----

  lemma AndStep(x: nat, y: nat)
    ensures And(x, y) == 2 * And(x / 2, y / 2) + (if x % 2 == 1 && y % 2 == 1 then 1 else 0)
  {
  }

  /** The conjunction of two numbers, each given as a high and a low part, is taken part by part. */
  predicate Splits(high1: nat, low1: nat, high2: nat, low2: nat, high: nat) {
    And(high1 + low1, high2 + low2) == high + And(low1, low2)
  }

  /** One more bit of the low parts, the high parts being even. */
  lemma SplitsStep(xp: nat, y: nat, up: nat, v: nat, ap: nat)
    requires Splits(xp, y / 2, up, v / 2, ap)
    ensures Splits(2 * xp, y, 2 * up, v, 2 * ap)
  {
    AndStep(2 * xp + y, 2 * up + v);
    AndStep(y, v);
    assert (2 * xp + y) / 2 == xp + y / 2 && (2 * up + v) / 2 == up + v / 2;
  }

  lemma {:induction false} AndSplit(k: nat, x: nat, y: nat, u: nat, v: nat)
    requires y < Pow2(k) && v < Pow2(k)
    ensures Splits(Shl(x, k), y, Shl(u, k), v, Shl(And(x, u), k))
    decreases k
  {
    if k > 0 {
      AndSplit(k - 1, x, y / 2, u, v / 2);
      SplitsStep(Shl(x, k - 1), y, Shl(u, k - 1), v, Shl(And(x, u), k - 1));
    }
  }

  lemma {:induction false} AndOnes(n: nat, y: nat)
    requires y < Pow2(n)
    ensures And(Pow2(n) - 1, y) == y
    decreases n
  {
    if n > 0 {
      assert (Pow2(n) - 1) / 2 == Pow2(n - 1) - 1 && (Pow2(n) - 1) % 2 == 1;
      AndStep(Pow2(n) - 1, y);
      AndOnes(n - 1, y / 2);
    }
  }

  // ----- masks of 32 bits -----

  /** All ones shifted left by 32 - n, the bits beyond 32 lost. */
  function Mask(n: nat): (m: nat)
    requires 1 <= n <= 32
    ensures m < 0x1_0000_0000
  {
    Shl(0xFFFF_FFFF, 32 - n) % 0x1_0000_0000
  }

  lemma Truncated(p: nat)
    requires 0 < p <= 0x1_0000_0000
    ensures 0xFFFF_FFFF * p % 0x1_0000_0000 == 0x1_0000_0000 - p
  {
    assert 0xFFFF_FFFF * p == (p - 1) * 0x1_0000_0000 + (0x1_0000_0000 - p);
  }

  /** The mask is n ones followed by 32 - n zeros. */
  lemma MaskIsOnesThenZeros(n: nat)
    requires 1 <= n <= 32
    ensures Mask(n) == Shl(Pow2(n) - 1, 32 - n)
  {
    var k := 32 - n;
    Pow2Of32();
    ShlTwice(1, n, k);
    ShlSum(Pow2(n) - 1, 1, k);
    ShlIsTimes(0xFFFF_FFFF, k);
    Truncated(Pow2(k));
  }

  lemma MaskKeepsHigh(n: nat, high: nat, low: nat)
    requires 1 <= n <= 32 && high < Pow2(n) && low < Pow2(32 - n)
    ensures And(Mask(n), Shl(high, 32 - n) + low) == Shl(high, 32 - n)
  {
    MaskIsOnesThenZeros(n);
    AndSplit(32 - n, Pow2(n) - 1, 0, high, low);
    AndOnes(n, high);
  }

  predicate MultipleOf(x: nat, p: nat)
    requires p > 0
  {
    x % p == 0
  }

  lemma Divided(x: nat, p: nat)
    requires p > 0
    ensures x == x / p * p + x % p
  {
  }

  lemma MultipleIsShift(x: nat, k: nat) returns (m: nat)
    requires MultipleOf(x, Pow2(k))
    ensures x == Shl(m, k)
  {
    m := x / Pow2(k);
    Divided(x, Pow2(k));
    ShlIsTimes(m, k);
  }

  lemma ShiftsAreMultiples(m: nat, k: nat)
    ensures MultipleOf(Shl(m, k), Pow2(k))
  {
    ShlIsTimes(m, k);
    TimesIsMultiple(m, Pow2(k));
  }

  lemma {:induction false} TimesIsMultiple(m: nat, p: nat)
    requires p > 0
    ensures MultipleOf(m * p, p)
  {
    if m > 0 {
      TimesIsMultiple(m - 1, p);
      assert m * p == (m - 1) * p + p;
      assert (m * p) % p == ((m - 1) * p) % p;
    }
  }

  /** A block's addresses are those whose high part, shifted back, is where it starts. */
  lemma BlockOfHigh(high: nat, low: nat, k: nat, base: nat)
    requires low < Pow2(k)
    ensures Shl(high, k) == base
      <==> MultipleOf(base, Pow2(k)) && base <= Shl(high, k) + low < base + Pow2(k)
  {
    ShiftsAreMultiples(high, k);
    if MultipleOf(base, Pow2(k)) {
      var m := MultipleIsShift(base, k);
      SameBlock(high, low, m, k);
    }
  }

  /** Masking an address gives `base` exactly in the block of 2^(32 - n) addresses from `base` on. */
  lemma MaskSelectsBlock(n: nat, address: nat, base: nat)
    requires 1 <= n <= 32 && address < 0x1_0000_0000
    ensures And(Mask(n), address) == base
      <==> MultipleOf(base, Pow2(32 - n)) && base <= address < base + Pow2(32 - n)
  {
    var high, low := Parts(address, 32 - n);
    HighIsSmall(n, high, low);
    MaskKeepsHigh(n, high, low);
    BlockOfHigh(high, low, 32 - n, base);
  }

  lemma HighIsSmall(n: nat, high: nat, low: nat)
    requires n <= 32 && Shl(high, 32 - n) + low < 0x1_0000_0000
    ensures high < Pow2(n)
  {
    Pow2Of32();
    ShlTwice(1, n, 32 - n);
    ShlOrder(high, Pow2(n), 32 - n);
  }

  // ----- bytes in network order -----

  /** The number whose bytes these are, most significant first. */
  function Value(bytes: seq<byte>): (v: nat) {
    if bytes == [] then 0 else Value(bytes[..|bytes| - 1]) * 256 + bytes[|bytes| - 1]
  }

  /** htonl: a 32-bit number's bytes, most significant first. */
  function Bytes(v: nat): (bytes: seq<byte>)
    requires v < 0x1_0000_0000
    ensures |bytes| == 4
  {
    [v / 256 / 256 / 256, v / 256 / 256 % 256, v / 256 % 256, v % 256]
  }

  function Joined(a: int, b: int, c: int, d: int): (v: int) {
    ((a * 256 + b) * 256 + c) * 256 + d
  }

  lemma ValueOfFour(bytes: seq<byte>)
    requires |bytes| == 4
    ensures Value(bytes) == Joined(bytes[0], bytes[1], bytes[2], bytes[3])
    ensures Value(bytes) < 0x1_0000_0000
  {
    assert bytes[..3][..2] == bytes[..2] && bytes[..2][..1] == bytes[..1] && bytes[..1][..0] == [];
    assert Value(bytes[..1]) == bytes[0];
    assert Value(bytes[..2]) == Joined(0, 0, bytes[0], bytes[1]);
    assert Value(bytes[..3]) == Joined(0, bytes[0], bytes[1], bytes[2]);
  }

  lemma BytesBack(v: nat)
    requires v < 0x1_0000_0000
    ensures Value(Bytes(v)) == v
  {
    ValueOfFour(Bytes(v));
  }

  function AndBytes(s: seq<byte>, t: seq<byte>): (r: seq<byte>)
    requires |s| == |t|
    ensures |r| == |s|
  {
    seq(|s|, i requires 0 <= i < |s| => And(s[i], t[i]) as byte)
  }

  lemma AndByte(x: nat, y: byte, u: nat, v: byte)
    ensures And(x * 256 + y, u * 256 + v) == And(x, u) * 256 + And(y, v)
  {
    Pow2Of32();
    ShlIsTimes(x, 8);
    ShlIsTimes(u, 8);
    ShlIsTimes(And(x, u), 8);
    AndSplit(8, x, y, u, v);
  }

  /** Byte by byte or as one number, in whatever order the machine loads it: the same. */
  lemma {:induction false} AndBytesIsAnd(s: seq<byte>, t: seq<byte>)
    requires |s| == |t|
    ensures Value(AndBytes(s, t)) == And(Value(s), Value(t))
  {
    if s != [] {
      var n := |s| - 1;
      AndBytesIsAnd(s[..n], t[..n]);
      assert AndBytes(s, t)[..n] == AndBytes(s[..n], t[..n]);
      AndByte(Value(s[..n]), s[n], Value(t[..n]), t[n]);
    }
  }

  lemma {:induction false} ValueInjective(s: seq<byte>, t: seq<byte>)
    requires |s| == |t|
    ensures Value(s) == Value(t) <==> s == t
  {
    if s != [] {
      var n := |s| - 1;
      ValueInjective(s[..n], t[..n]);
      assert s == s[..n] + [s[n]] && t == t[..n] + [t[n]];
    }
  }
}
