/**
 * Matching an IPv4 address against a subnet in CIDR notation: text in, bytes in the middle, and
 * an interval of addresses as the meaning.
 */
module Subnet {
  import opened Common
  import opened BitMask

  // ----- text -----

  /** The pieces between the dots. */
  function Parts(s: string): (ps: seq<string>)
    ensures |ps| > 0
  {
    var n := IndexOf(s, '.');
    if n < |s| then [s[..n]] + Parts(s[n + 1..]) else [s]
  }

  /** One to three digits, at most 255, and no leading zero. */
  predicate IsOctet(s: string) {
    && 1 <= |s| <= 3
    && AllDigits(s)
    && (|s| > 1 ==> s[0] != '0')
    && Number(s) < 256
  }

  predicate AllOctets(ps: seq<string>) {
    forall i :: 0 <= i < |ps| ==> IsOctet(ps[i])
  }

  /** inet_pton for AF_INET. */
  function ParseQuad(s: string): (q: Option<seq<byte>>)
    ensures q.Some? ==> |q.value| == 4
  {
    var ps := Parts(s);
    if |ps| == 4 && AllOctets(ps) then Some([Number(ps[0]), Number(ps[1]), Number(ps[2]), Number(ps[3])])
    else None
  }

  function DigitPrefix(s: string): (t: string)
    ensures AllDigits(t)
  {
    if s != [] && IsDigit(s[0]) then [s[0]] + DigitPrefix(s[1..]) else []
  }

  /** C's atoi, without its overflow. */
  function Atoi(s: string): (n: int) {
    if s != [] && s[0] in {' ', '\t', '\n', '\r', 11 as char, 12 as char} then Atoi(s[1..])
    else if s != [] && s[0] == '-' then 0 - Number(DigitPrefix(s[1..]))
    else if s != [] && s[0] == '+' then Number(DigitPrefix(s[1..]))
    else Number(DigitPrefix(s))
  }

  /** Zeros for the missing elements of a network's text, by the dots it has. */
  function Missing(net: string): (s: string) {
    var first := IndexOf(net, '.');
    if first == |net| then ".0.0.0"
    else
      var second := IndexOf(net[first + 1..], '.');
      if second == |net[first + 1..]| then ".0.0"
      else
        var rest := net[first + 1..][second + 1..];
        if IndexOf(rest, '.') == |rest| then ".0" else ""
  }

  function Padded(net: string): (s: string) { net + Missing(net) }

  /** The mask test, once everything is read. */
  predicate MaskTest(address: seq<byte>, network: seq<byte>, size: int)
    requires |address| == 4
  {
    1 <= size <= 32 && AndBytes(Bytes(Mask(size)), address) == network
  }

  predicate Ipv4Subnet(ipv4: string, cidr: string) {
    var address := ParseQuad(ipv4);
    var slash := IndexOf(cidr, '/');
    address.Some? && slash < |cidr|
    && var network := ParseQuad(Padded(cidr[..slash]));
       network.Some? && MaskTest(address.value, network.value, Atoi(cidr[slash + 1..]))
  }

  // ----- what a pattern means -----

  function Octet(octets: seq<string>, i: nat): (n: nat)
    requires AllOctets(octets)
  {
    if i < |octets| then Number(octets[i]) else 0
  }

  /** The address that starts with these octets, zero beyond them. */
  function Base(octets: seq<string>): (v: nat)
    requires AllOctets(octets)
  {
    Joined(Octet(octets, 0), Octet(octets, 1), Octet(octets, 2), Octet(octets, 3))
  }

  // ----- padding -----

  lemma DotAndZero()
    ensures Parts("0") == ["0"] && IsOctet("0") && Number("0") == 0
  {
    assert "0"[..0] == "";
  }

  lemma CutAt(s: string, c: char, t: string)
    ensures (s + ([c] + t))[..|s|] == s && (s + ([c] + t))[|s| + 1..] == t
  {
  }

  lemma PartsOfCut(head: string, rest: string)
    requires '.' !in head
    ensures Parts(head + ("." + rest)) == [head] + Parts(rest)
  {
    IndexOfJoin(head, "." + rest, '.');
    CutAt(head, '.', rest);
  }

  lemma DotAfter(rest: string)
    ensures "." + rest + ".0" == "." + (rest + ".0")
  {
  }

  /** Appending a dot and a zero appends a piece. */
  lemma {:induction false} PartsAppend(s: string)
    ensures Parts(s + ".0") == Parts(s) + ["0"]
    decreases |s|
  {
    var n := IndexOf(s, '.');
    if n < |s| {
      var head, rest := s[..n], s[n + 1..];
      assert s == head + ("." + rest);
      Associative(head, "." + rest, ".0");
      DotAfter(rest);
      PartsOfCut(head, rest + ".0");
      PartsAppend(rest);
      Associative([head], Parts(rest), ["0"]);
    } else {
      DotAndZero();
      assert ".0" == "." + "0";
      PartsOfCut(s, "0");
    }
  }

  function Dots(s: string): (n: nat) {
    var i := IndexOf(s, '.');
    if i == |s| then 0 else 1 + Dots(s[i + 1..])
  }

  lemma {:induction false} PartsCount(s: string)
    ensures |Parts(s)| == Dots(s) + 1
  {
    if IndexOf(s, '.') < |s| {
      PartsCount(s[IndexOf(s, '.') + 1..]);
    }
  }

  lemma MissingByDots(net: string)
    ensures Missing(net) ==
      if Dots(net) == 0 then ".0.0.0" else if Dots(net) == 1 then ".0.0" else if Dots(net) == 2 then ".0" else ""
  {
    var first := IndexOf(net, '.');
    if first < |net| {
      var s := net[first + 1..];
      assert Dots(net) == 1 + Dots(s);
      if IndexOf(s, '.') < |s| {
        assert Dots(s) == 1 + Dots(s[IndexOf(s, '.') + 1..]);
      }
    }
  }

  /** Appending one more zero to a text of known pieces. */
  lemma OneMoreZero(s: string, zeros: string, ps: seq<string>)
    requires Parts(s + zeros) == Parts(s) + ps
    ensures Parts(s + (zeros + ".0")) == Parts(s) + (ps + ["0"])
  {
    PartsAppend(s + zeros);
    Associative(s, zeros, ".0");
    Associative(Parts(s), ps, ["0"]);
  }

  lemma AppendedZeros(s: string)
    ensures Parts(s + ".0") == Parts(s) + ["0"]
    ensures Parts(s + ".0.0") == Parts(s) + ["0", "0"]
    ensures Parts(s + ".0.0.0") == Parts(s) + ["0", "0", "0"]
  {
    PartsAppend(s);
    OneMoreZero(s, ".0", ["0"]);
    assert ".0" + ".0" == ".0.0" && ["0"] + ["0"] == ["0", "0"];
    OneMoreZero(s, ".0.0", ["0", "0"]);
    assert ".0.0" + ".0" == ".0.0.0" && ["0", "0"] + ["0"] == ["0", "0", "0"];
  }

  /** `ps` filled up to four pieces with zeros. */
  function Filled(ps: seq<string>): (qs: seq<string>)
    ensures |qs| == if |ps| < 4 then 4 else |ps|
    ensures forall i :: 0 <= i < |qs| ==> qs[i] == if i < |ps| then ps[i] else "0"
  {
    if |ps| < 4 then ps + seq(4 - |ps|, _ => "0") else ps
  }

  lemma PaddedParts(net: string)
    ensures Parts(Padded(net)) == Filled(Parts(net))
  {
    PartsCount(net);
    MissingByDots(net);
    AppendedZeros(net);
    assert net + "" == net;
  }

  lemma FilledOctets(ps: seq<string>)
    ensures AllOctets(Filled(ps)) <==> AllOctets(ps)
    ensures AllOctets(ps) ==> forall i: nat :: Octet(Filled(ps), i) == Octet(ps, i)
  {
    DotAndZero();
    var qs := Filled(ps);
    if AllOctets(qs) {
      assert forall i :: 0 <= i < |ps| ==> qs[i] == ps[i];
    }
  }

  lemma QuadIsBase(s: string)
    ensures ParseQuad(s).Some? <==> |Parts(s)| == 4 && AllOctets(Parts(s))
    ensures ParseQuad(s).Some? ==>
      && |ParseQuad(s).value| == 4
      && Value(ParseQuad(s).value) == Base(Parts(s)) < 0x1_0000_0000
  {
    if ParseQuad(s).Some? {
      ValueOfFour(ParseQuad(s).value);
    }
  }

  lemma PaddedNetwork(net: string)
    ensures ParseQuad(Padded(net)).Some? <==> |Parts(net)| <= 4 && AllOctets(Parts(net))
    ensures ParseQuad(Padded(net)).Some? ==> Value(ParseQuad(Padded(net)).value) == Base(Parts(net))
  {
    QuadIsBase(Padded(net));
    PaddedParts(net);
    FilledOctets(Parts(net));
  }

  lemma CutAtSlash(net: string, size: string)
    requires '/' !in net
    ensures var cidr := net + ("/" + size);
      IndexOf(cidr, '/') == |net| && cidr[..|net|] == net && cidr[|net| + 1..] == size
  {
    IndexOfJoin(net, "/" + size, '/');
    CutAt(net, '/', size);
  }

  /** A pattern is read as its network and its size. */
  lemma PatternRead(ipv4: string, net: string, size: string)
    requires '/' !in net
    ensures Ipv4Subnet(ipv4, net + ("/" + size)) <==>
      ParseQuad(ipv4).Some? && ParseQuad(Padded(net)).Some?
      && MaskTest(ParseQuad(ipv4).value, ParseQuad(Padded(net)).value, Atoi(size))
  {
    CutAtSlash(net, size);
  }

  /** The test on bytes, as a test on numbers. */
  lemma ByteTest(n: nat, address: seq<byte>, network: seq<byte>)
    requires 1 <= n <= 32 && |address| == 4 == |network|
    ensures Value(address) < 0x1_0000_0000
    ensures AndBytes(Bytes(Mask(n)), address) == network <==> And(Mask(n), Value(address)) == Value(network)
  {
    ValueOfFour(address);
    BytesBack(Mask(n));
    AndBytesIsAnd(Bytes(Mask(n)), address);
    ValueInjective(AndBytes(Bytes(Mask(n)), address), network);
  }

  /** The network is where a block of that size starts, and the address lies in that block. */
  predicate InBlock(address: nat, base: nat, size: nat)
    requires 1 <= size <= 32
  {
    MultipleOf(base, Pow2(32 - size)) && base <= address < base + Pow2(32 - size)
  }

  /** A pattern `net/size` matches exactly the well-formed addresses in its block. */
  lemma SubnetIsABlock(ipv4: string, net: string, size: string)
    requires '/' !in net
    ensures Ipv4Subnet(ipv4, net + ("/" + size)) <==>
      && |Parts(ipv4)| == 4 && AllOctets(Parts(ipv4))
      && |Parts(net)| <= 4 && AllOctets(Parts(net))
      && 1 <= Atoi(size) <= 32
      && InBlock(Base(Parts(ipv4)), Base(Parts(net)), Atoi(size))
  {
    PatternRead(ipv4, net, size);
    QuadIsBase(ipv4);
    PaddedNetwork(net);
    QuadIsBase(Padded(net));
    var address, network, n := ParseQuad(ipv4), ParseQuad(Padded(net)), Atoi(size);
    if address.Some? && network.Some? && 1 <= n <= 32 {
      ByteTest(n, address.value, network.value);
      MaskSelectsBlock(n, Value(address.value), Value(network.value));
    }
  }

  /** A pattern without a slash matches nothing. */
  lemma NoSlashNoMatch(ipv4: string, cidr: string)
    requires '/' !in cidr
    ensures !Ipv4Subnet(ipv4, cidr)
  {
    assert IndexOf(cidr, '/') == |cidr|;
  }

  lemma PaddedHasNoSlash(net: string)
    requires '/' !in net
    ensures '/' !in Padded(net)
  {
    assert '/' !in Missing(net);
  }

  lemma PaddedTwice(net: string)
    ensures ParseQuad(Padded(Padded(net))) == ParseQuad(Padded(net))
  {
    PaddedParts(net);
    PaddedParts(Padded(net));
    FilledTwice(Parts(net));
  }

  lemma FilledTwice(ps: seq<string>)
    ensures Filled(Filled(ps)) == Filled(ps)
  {
  }

  /** A shortened network behaves as its zero-padded form. */
  lemma ShortenedIsPadded(ipv4: string, net: string, size: string)
    requires '/' !in net
    ensures Ipv4Subnet(ipv4, net + ("/" + size)) == Ipv4Subnet(ipv4, Padded(net) + ("/" + size))
  {
    PatternRead(ipv4, net, size);
    PaddedHasNoSlash(net);
    PatternRead(ipv4, Padded(net), size);
    PaddedTwice(net);
  }

  // ----- written out -----

  lemma {:induction false} PositiveNumber(s: string)
    requires s != "" && AllDigits(s) && s[0] != '0'
    ensures Number(s) > 0
  {
    if |s| > 1 {
      PositiveNumber(s[..|s| - 1]);
    }
  }

  /** A numeral without leading zeros is how its number is written. */
  lemma {:induction false} NumeralIsDecimal(s: string)
    requires s != "" && AllDigits(s) && (|s| > 1 ==> s[0] != '0')
    ensures Decimal(Number(s)) == s
  {
    var n := |s| - 1;
    if n > 0 {
      NumeralIsDecimal(s[..n]);
      PositiveNumber(s[..n]);
    } else {
      assert s[..0] == "" && s == [s[0]];
    }
    assert s == s[..n] + [s[n]];
  }

  lemma {:induction false} DecimalHead(n: nat)
    requires n > 0
    ensures Decimal(n)[0] != '0'
  {
    if n >= 10 {
      DecimalHead(n / 10);
    }
  }

  /** An octet is the text of a number below 256, written the one usual way. */
  lemma OctetIsDecimal(s: string)
    ensures IsOctet(s) <==> exists n: nat :: n < 256 && s == Decimal(n)
  {
    if IsOctet(s) {
      NumeralIsDecimal(s);
    }
    forall n: nat | n < 256 && s == Decimal(n)
      ensures IsOctet(s)
    {
      DecimalIsOctet(n);
    }
  }

  lemma DecimalIsOctet(n: byte)
    ensures IsOctet(Decimal(n)) && Number(Decimal(n)) == n
  {
    DecimalNumber(n);
    if n > 0 {
      DecimalHead(n);
    }
    assert |Decimal(n)| <= 3 by {
      assert |Decimal(n / 10 / 10)| == 1;
      assert n >= 100 ==> |Decimal(n / 10)| == 2;
    }
  }

  /** Octets with dots between them. */
  function Dotted(octets: seq<byte>): (s: string)
    requires octets != []
  {
    if |octets| == 1 then Decimal(octets[0]) else Decimal(octets[0]) + ("." + Dotted(octets[1..]))
  }

  lemma DecimalHasNone(n: nat, c: char)
    requires !IsDigit(c)
    ensures c !in Decimal(n)
  {
  }

  lemma {:induction false} DottedParts(octets: seq<byte>)
    requires octets != []
    ensures '/' !in Dotted(octets)
    ensures |Parts(Dotted(octets))| == |octets|
    ensures forall i :: 0 <= i < |octets| ==> Parts(Dotted(octets))[i] == Decimal(octets[i])
  {
    DecimalHasNone(octets[0], '.');
    DecimalHasNone(octets[0], '/');
    if |octets| > 1 {
      DottedParts(octets[1..]);
      PartsOfCut(Decimal(octets[0]), Dotted(octets[1..]));
    }
  }

  lemma DottedOctets(octets: seq<byte>)
    requires octets != []
    ensures var ps := Parts(Dotted(octets));
      && |ps| == |octets| && AllOctets(ps)
      && forall i: nat :: Octet(ps, i) == if i < |octets| then octets[i] else 0
  {
    DottedParts(octets);
    forall i | 0 <= i < |octets|
      ensures IsOctet(Decimal(octets[i])) && Number(Decimal(octets[i])) == octets[i]
    {
      DecimalIsOctet(octets[i]);
    }
  }

  lemma {:induction false} DigitsAreTheirPrefix(s: string)
    requires AllDigits(s)
    ensures DigitPrefix(s) == s
  {
    if s != "" {
      DigitsAreTheirPrefix(s[1..]);
    }
  }

  lemma AtoiOfDecimal(n: nat)
    ensures Atoi(Decimal(n)) == n
  {
    DigitsAreTheirPrefix(Decimal(n));
    DecimalNumber(n);
    assert IsDigit(Decimal(n)[0]);
  }

  /** The first octets given, zeros after them. */
  function ZeroPadded(octets: seq<byte>): (q: seq<byte>)
    requires |octets| <= 4
    ensures |q| == 4
  {
    octets + seq(4 - |octets|, _ => 0)
  }

  lemma DottedBase(octets: seq<byte>)
    requires 1 <= |octets| <= 4
    ensures AllOctets(Parts(Dotted(octets))) && Base(Parts(Dotted(octets))) == Value(ZeroPadded(octets))
  {
    DottedOctets(octets);
    var q := ZeroPadded(octets);
    ValueOfFour(q);
    assert forall i: nat :: i < 4 ==> q[i] == if i < |octets| then octets[i] else 0;
  }

  /**
   * Written out: an address against a network of one to four octets and a size. They match if and
   * only if the size is between 1 and 32, the network, zeros filled in, starts a block of
   * 2^(32 - size) addresses, and the address is in that block.
   */
  lemma WrittenSubnet(address: seq<byte>, network: seq<byte>, size: nat)
    requires |address| == 4 && 1 <= |network| <= 4
    ensures Ipv4Subnet(Dotted(address), Dotted(network) + ("/" + Decimal(size))) <==>
      1 <= size <= 32 && InBlock(Value(address), Value(ZeroPadded(network)), size)
  {
    DottedOctets(address);
    DottedBase(address);
    assert ZeroPadded(address) == address;
    DottedParts(network);
    DottedOctets(network);
    DottedBase(network);
    AtoiOfDecimal(size);
    SubnetIsABlock(Dotted(address), Dotted(network), Decimal(size));
  }
}
