/**
 * Base64 as in section 4 of RFC 4648, with the acceptance rule of the codec: only alphabet
 * characters, then the padding that the number of characters calls for.
 */
module Base64 {
  import opened Common

  type sextet = n: nat | n < 64

  const PAD := '='

  function Digit(n: sextet): (c: char)
    ensures IsDigit(c) && ValueOf(c) == n
  {
    if n < 26 then ('A' as int + n) as char
    else if n < 52 then ('a' as int + (n - 26)) as char
    else if n < 62 then ('0' as int + (n - 52)) as char
    else if n == 62 then '+' else '/'
  }

  predicate IsDigit(c: char) {
    'A' <= c <= 'Z' || 'a' <= c <= 'z' || '0' <= c <= '9' || c == '+' || c == '/'
  }

  function ValueOf(c: char): (n: sextet)
    requires IsDigit(c)
  {
    if 'A' <= c <= 'Z' then c as int - 'A' as int
    else if 'a' <= c <= 'z' then c as int - 'a' as int + 26
    else if '0' <= c <= '9' then c as int - '0' as int + 52
    else if c == '+' then 62 else 63
  }

  predicate AllDigits(g: string) {
    |g| == 4 && IsDigit(g[0]) && IsDigit(g[1]) && IsDigit(g[2]) && IsDigit(g[3])
  }

  /** The four digits that three bytes are spread over. */
  function Group(a: byte, b: byte, c: byte): (g: string)
    ensures AllDigits(g)
  {
    var x: int, y: int, z: int := a, b, c;
    [Digit(x / 4), Digit(x % 4 * 16 + y / 16), Digit(y % 16 * 4 + z / 64), Digit(z % 64)]
  }

  /** The three bytes that four digits carry. */
  function Ungroup(g: string): (t: (byte, byte, byte))
    requires AllDigits(g)
  {
    var p, q, r, s := ValueOf(g[0]), ValueOf(g[1]), ValueOf(g[2]), ValueOf(g[3]);
    (p * 4 + q / 16, q % 16 * 16 + r / 4, r % 4 * 64 + s)
  }

  function Encode(bs: seq<byte>): (s: string) {
    if bs == [] then ""
    else if |bs| == 1 then Group(bs[0], 0, 0)[..2] + [PAD, PAD]
    else if |bs| == 2 then Group(bs[0], bs[1], 0)[..3] + [PAD]
    else Group(bs[0], bs[1], bs[2]) + Encode(bs[3..])
  }

  const ZERO := 'A'  // what a padding character counts as

  function DecodeGroups(s: string): (r: Option<seq<byte>>) {
    if s == "" then Some([])
    else if |s| < 4 || !IsDigit(s[0]) || !IsDigit(s[1]) then None
    else if |s| == 4 && s[2] == PAD && s[3] == PAD then Some([Ungroup(s[..2] + [ZERO, ZERO]).0])
    else if !IsDigit(s[2]) then None
    else if |s| == 4 && s[3] == PAD then
      var t := Ungroup(s[..3] + [ZERO]);
      Some([t.0, t.1])
    else if !IsDigit(s[3]) then None
    else
      var t, rest := Ungroup(s[..4]), DecodeGroups(s[4..]);
      if rest.None? then None else Some([t.0, t.1, t.2] + rest.value)
  }

  /** The codec does not accept an empty encoding. */
  function Decode(s: string): (r: Option<seq<byte>>) {
    if s == "" then None else DecodeGroups(s)
  }

  lemma UngroupGroup(a: byte, b: byte, c: byte)
    ensures Ungroup(Group(a, b, c)) == (a, b, c)
  {
    var x: int, y: int, z: int := a, b, c;
    Regrouped(x, y, z);
    var g := Group(a, b, c);
    assert ValueOf(g[0]) == x / 4 && ValueOf(g[1]) == x % 4 * 16 + y / 16;
    assert ValueOf(g[2]) == y % 16 * 4 + z / 64 && ValueOf(g[3]) == z % 64;
  }

  lemma Regrouped(x: int, y: int, z: int)
    requires 0 <= y < 256 && 0 <= z < 256
    ensures x / 4 * 4 + (x % 4 * 16 + y / 16) / 16 == x
    ensures (x % 4 * 16 + y / 16) % 16 * 16 + (y % 16 * 4 + z / 64) / 4 == y
    ensures (y % 16 * 4 + z / 64) % 4 * 64 + z % 64 == z
  {
  }

  /** Bits that no byte fills are zero, so padding may stand for them. */
  lemma PaddedGroup(a: byte, b: byte)
    ensures Group(a, 0, 0) == Group(a, 0, 0)[..2] + [ZERO, ZERO]
    ensures Group(a, b, 0) == Group(a, b, 0)[..3] + [ZERO]
  {
  }

  lemma DecodeOne(g: string)
    requires AllDigits(g) && g == g[..2] + [ZERO, ZERO]
    ensures DecodeGroups(g[..2] + [PAD, PAD]) == Some([Ungroup(g).0])
  {
    var s := g[..2] + [PAD, PAD];
    assert s[0] == g[0] && s[1] == g[1] && s[..2] == g[..2];
  }

  lemma DecodeTwo(g: string)
    requires AllDigits(g) && g == g[..3] + [ZERO]
    ensures DecodeGroups(g[..3] + [PAD]) == Some([Ungroup(g).0, Ungroup(g).1])
  {
    var s := g[..3] + [PAD];
    assert s[0] == g[0] && s[1] == g[1] && s[2] == g[2] && s[..3] == g[..3];
  }

  lemma DecodeFull(g: string, rest: string)
    requires AllDigits(g) && DecodeGroups(rest).Some?
    ensures DecodeGroups(g + rest) == Some([Ungroup(g).0, Ungroup(g).1, Ungroup(g).2] + DecodeGroups(rest).value)
  {
    var s := g + rest;
    assert s[..4] == g && s[4..] == rest;
    assert s[0] == g[0] && s[1] == g[1] && s[2] == g[2] && s[3] == g[3];
  }

  lemma DecodeOneByte(bs: seq<byte>)
    requires |bs| == 1
    ensures DecodeGroups(Encode(bs)) == Some(bs)
  {
    PaddedGroup(bs[0], 0);
    UngroupGroup(bs[0], 0, 0);
    DecodeOne(Group(bs[0], 0, 0));
    assert bs == [bs[0]];
  }

  lemma DecodeTwoBytes(bs: seq<byte>)
    requires |bs| == 2
    ensures DecodeGroups(Encode(bs)) == Some(bs)
  {
    PaddedGroup(bs[0], bs[1]);
    UngroupGroup(bs[0], bs[1], 0);
    DecodeTwo(Group(bs[0], bs[1], 0));
    assert bs == [bs[0], bs[1]];
  }

  lemma FirstThree<T>(s: seq<T>)
    requires |s| > 2
    ensures s == [s[0], s[1], s[2]] + s[3..]
  {
  }

  lemma DecodeThreeBytes(bs: seq<byte>)
    requires |bs| > 2 && DecodeGroups(Encode(bs[3..])) == Some(bs[3..])
    ensures DecodeGroups(Encode(bs)) == Some(bs)
  {
    var g, rest := Group(bs[0], bs[1], bs[2]), Encode(bs[3..]);
    FirstThree(bs);
    UngroupGroup(bs[0], bs[1], bs[2]);
    DecodeFull(g, rest);
  }

  lemma {:induction false} DecodeEncode(bs: seq<byte>)
    ensures DecodeGroups(Encode(bs)) == Some(bs)
    ensures Encode(bs) == "" <==> bs == []
  {
    if bs == [] {
    } else if |bs| == 1 {
      DecodeOneByte(bs);
    } else if |bs| == 2 {
      DecodeTwoBytes(bs);
    } else {
      DecodeEncode(bs[3..]);
      DecodeThreeBytes(bs);
    }
  }

  lemma {:induction false} EncodeAlphabet(bs: seq<byte>)
    ensures forall i :: 0 <= i < |Encode(bs)| ==> IsDigit(Encode(bs)[i]) || Encode(bs)[i] == PAD
  {
    if |bs| > 2 {
      EncodeAlphabet(bs[3..]);
    }
  }

  // ----- the code itself -----

  /** The digits in order: A to Z, a to z, 0 to 9, then `+` and `/`. */
  lemma DigitsInOrder(n: sextet)
    ensures Digit(0) == 'A' && Digit(25) == 'Z' && Digit(26) == 'a' && Digit(51) == 'z'
    ensures Digit(52) == '0' && Digit(61) == '9' && Digit(62) == '+' && Digit(63) == '/'
    ensures n !in {25, 51, 61, 62, 63} ==> Digit(n + 1) as int == Digit(n) as int + 1
  {
  }

  /** Three bytes and their four digits are the same 24-bit number. */
  lemma GroupIsTheSameNumber(a: byte, b: byte, c: byte)
    ensures var g := Group(a, b, c);
      ((ValueOf(g[0]) * 64 + ValueOf(g[1])) * 64 + ValueOf(g[2])) * 64 + ValueOf(g[3]) == (a as int * 256 + b as int) * 256 + c as int
  {
    var x: int, y: int, z: int := a, b, c;
    var g := Group(a, b, c);
    assert ValueOf(g[0]) == x / 4 && ValueOf(g[1]) == x % 4 * 16 + y / 16;
    assert ValueOf(g[2]) == y % 16 * 4 + z / 64 && ValueOf(g[3]) == z % 64;
  }

  // ----- what decode accepts -----

  /** Whole groups of digits, the last of them with `p` pad characters at its end. */
  predicate Padded(s: string, p: nat) {
    && |s| % 4 == 0 && p <= 2 && p <= |s|
    && (forall i :: 0 <= i < |s| - p ==> IsDigit(s[i]))
    && (forall i :: |s| - p <= i < |s| ==> s[i] == PAD)
  }

  lemma PaddedRest(s: string, p: nat)
    requires |s| > 4
    ensures Padded(s, p) <==> AllDigits(s[..4]) && Padded(s[4..], p)
  {
    var rest := s[4..];
    assert forall i :: 0 <= i < |rest| ==> rest[i] == s[i + 4];
    assert forall i :: 4 <= i < |s| ==> s[i] == rest[i - 4];
    if AllDigits(s[..4]) && Padded(rest, p) {
      forall i | 0 <= i < |s| - p
        ensures IsDigit(s[i])
      {
        assert i < 4 ==> s[i] == s[..4][i];
      }
    }
  }

  /** Decode accepts exactly non-empty whole groups, padded as the number of bytes calls for. */
  lemma {:induction false} AcceptedExactly(s: string)
    ensures DecodeGroups(s).Some? <==> exists p :: Padded(s, p)
    ensures DecodeGroups(s).Some? ==> exists p :: Padded(s, p) && |DecodeGroups(s).value| == |s| / 4 * 3 - p
    decreases |s|
  {
    if s == "" {
      assert Padded(s, 0);
    } else if |s| == 4 {
      assert DecodeGroups(s[4..]) == Some([]);
      if IsDigit(s[0]) && IsDigit(s[1]) && s[2] == PAD && s[3] == PAD {
        assert Padded(s, 2);
      } else if IsDigit(s[0]) && IsDigit(s[1]) && IsDigit(s[2]) && s[3] == PAD {
        assert Padded(s, 1);
      } else if AllDigits(s) {
        assert Padded(s, 0);
      }
    } else if |s| > 4 {
      AcceptedExactly(s[4..]);
      forall p: nat
        ensures Padded(s, p) <==> AllDigits(s[..4]) && Padded(s[4..], p)
      {
        PaddedRest(s, p);
      }
      if DecodeGroups(s).Some? {
        var p: nat :| Padded(s[4..], p) && |DecodeGroups(s[4..]).value| == |s[4..]| / 4 * 3 - p;
        assert Padded(s, p);
      }
    }
  }
}
