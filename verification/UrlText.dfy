/**
 * How a URL's host and port are written as text and read back: the part of the URL parser that
 * meets a text with no display name, no angle brackets and no leading blanks.
 */
module UrlText {
  import opened Common

  // ----- character classes -----

  predicate IsHexDigit(c: char) { IsDigit(c) || 'a' <= c <= 'f' || 'A' <= c <= 'F' }

  predicate InPassword(c: char) {
    IsAlphanumeric(c) || c in {'_', '.', '!', '~', '*', '\'', '(', ')', '&', '=', '+', '$', ',', '-'}
  }

  predicate InUser(c: char) { InPassword(c) || c in {';', '?', '/'} }

  // ----- hosts -----

  /** How far a label goes on from its second character: up to the last letter or digit. */
  function LabelTail(s: string): (n: nat)
    ensures n <= |s|
  {
    if s == [] then 0
    else if IsAlphanumeric(s[0]) then 1 + LabelTail(s[1..])
    else if s[0] == '-' && LabelTail(s[1..]) > 0 then 1 + LabelTail(s[1..])
    else 0
  }

  /** The length of the label at the head of `s`; 0 if there is none. */
  function LabelEnd(s: string): (n: nat)
    ensures n <= |s|
  {
    if s != [] && IsAlphanumeric(s[0]) then LabelTail(s) else 0
  }

  /** The length of the domain name at the head of `s`; 0 if there is none. */
  function DnsEnd(s: string): (n: nat)
    ensures n <= |s|
  {
    var n := LabelEnd(s);
    if n > 0 && n < |s| && s[n] == '.' then n + 1 + DnsEnd(s[n + 1..]) else n
  }

  predicate InBrackets(c: char) { IsHexDigit(c) || c == ':' || c == '.' }

  function BracketRun(s: string): (n: nat)
    ensures n <= |s|
  {
    if s != [] && InBrackets(s[0]) then 1 + BracketRun(s[1..]) else 0
  }

  /** The length of the IPv6 reference at the head of `s`; 0 if there is none. */
  function Ipv6End(s: string): (n: nat)
    ensures n <= |s|
  {
    if s == [] || s[0] != '[' then 0
    else
      var n := BracketRun(s[1..]);
      if n > 0 && n + 1 < |s| && s[n + 1] == ']' then n + 2 else 0
  }

  function HostEnd(s: string): (n: nat)
    ensures n <= |s|
  {
    if DnsEnd(s) > 0 then DnsEnd(s) else Ipv6End(s)
  }

  /** A label starts and ends with a letter or digit and holds letters, digits and hyphens. */
  predicate Label(s: string) {
    s != [] && IsAlphanumeric(s[0]) && IsAlphanumeric(s[|s| - 1]) && forall c <- s :: IsAlphanumeric(c) || c == '-'
  }

  /** Labels separated by dots, with or without a dot at the end. */
  predicate DnsName(s: string) {
    || Label(s)
    || exists k :: 0 < k < |s| && Label(s[..k]) && s[k] == '.'
         && (s[k + 1..] == [] || DnsName(s[k + 1..]))
  }

  predicate Ipv6Reference(s: string) {
    |s| > 2 && s[0] == '[' && s[|s| - 1] == ']' && forall c <- s[1..|s| - 1] :: InBrackets(c)
  }

  predicate IsHost(s: string) { DnsName(s) || Ipv6Reference(s) }

  // ----- ports -----

  function DigitRun(s: string, limit: nat): (n: nat)
    ensures n <= |s| && n <= limit
    ensures forall i :: 0 <= i < n ==> IsDigit(s[i])
  {
    if limit > 0 && s != [] && IsDigit(s[0]) then 1 + DigitRun(s[1..], limit - 1) else 0
  }

  datatype HostPort = HostPort(host: string, port: Option<nat>)

  /** A port is written with at most six digits, so that is all a parsed URL can hold. */
  const PORT_LIMIT: nat := 1000000

  predicate WellFormed(h: HostPort) {
    IsHost(h.host) && (h.port.Some? ==> h.port.value < PORT_LIMIT)
  }

  function PortText(port: Option<nat>): (s: string) {
    if port.Some? then ":" + Decimal(port.value) else ""
  }

  function HostPortText(h: HostPort): (s: string) { h.host + PortText(h.port) }

  function ReadPort(s: string): (port: Option<nat>) {
    if s == [] || s[0] != ':' || DigitRun(s[1..], 6) == 0 then None
    else Some(Number(s[1..][..DigitRun(s[1..], 6)]))
  }

  /** The host and port at the head of `s`; an empty host and no port when there is no host. */
  function ReadHostPort(s: string): (h: HostPort) {
    if HostEnd(s) == 0 then HostPort("", None)
    else HostPort(s[..HostEnd(s)], ReadPort(s[HostEnd(s)..]))
  }

  // ----- scheme and user information -----

  predicate IsSchemeName(s: string) {
    exists name <- {"UNKNOWN-URL-SCHEME", "sip", "sips", "http", "https", "ftp", "file", "mailto"} :: SameText(s, name)
  }

  function Colon(s: string): (n: nat)
    ensures n <= |s|
  {
    IndexOf(s, ':')
  }

  /** Does the text start with a supported scheme's name and a colon? */
  predicate HasScheme(s: string) {
    Colon(s) < |s| && IsSchemeName(s[..Colon(s)])
  }

  function AfterScheme(s: string): (t: string) {
    if HasScheme(s) then s[Colon(s) + 1..] else s
  }

  /** Characters of the user (or password) class and %-escapes at the head of `s`. */
  function Units(s: string, password: bool): (n: nat)
    ensures n <= |s|
  {
    if s != [] && (if password then InPassword(s[0]) else InUser(s[0])) then 1 + Units(s[1..], password)
    else if |s| >= 3 && s[0] == '%' && IsHexDigit(s[1]) && IsHexDigit(s[2]) then 3 + Units(s[3..], password)
    else 0
  }

  /** What follows `user@` or `user:password@` at the head of `s`, if it starts with that. */
  function AfterUserinfo(s: string): (t: Option<string>) {
    var n := Units(s, false);
    if n == 0 then None
    else if n < |s| && s[n] == '@' then Some(s[n + 1..])
    else if n < |s| && s[n] == ':' then
      var m := n + 1 + Units(s[n + 1..], true);
      if m < |s| && s[m] == '@' then Some(s[m + 1..]) else None
    else None
  }

  /** File URLs have no user. */
  function Userinfo(s: string): (t: Option<string>) {
    if HasScheme(s) && SameText(s[..Colon(s)], "file") then None else AfterUserinfo(AfterScheme(s))
  }

  function ReadUrl(s: string): (h: HostPort) {
    ReadHostPort(if Userinfo(s).Some? then Userinfo(s).value else AfterScheme(s))
  }

  // ----- a host is read back whole -----

  /** Nothing a host, or what follows it, could go on with. */
  predicate Stops(rest: string) {
    rest == [] || (!IsAlphanumeric(rest[0]) && rest[0] != '-' && rest[0] != '.')
  }

  lemma {:induction false} LabelTailBack(s: string, rest: string)
    requires forall c <- s :: IsAlphanumeric(c) || c == '-'
    requires s == [] || IsAlphanumeric(s[|s| - 1])
    requires rest == [] || (!IsAlphanumeric(rest[0]) && rest[0] != '-')
    ensures LabelTail(s + rest) == |s|
  {
    if s == [] {
      assert s + rest == rest;
    } else {
      assert (s + rest)[1..] == s[1..] + rest;
      assert |s| > 1 ==> s[|s| - 1] == s[1..][|s| - 2];
      LabelTailBack(s[1..], rest);
    }
  }

  lemma LabelBack(s: string, rest: string)
    requires Label(s)
    requires rest == [] || (!IsAlphanumeric(rest[0]) && rest[0] != '-')
    ensures LabelEnd(s + rest) == |s|
  {
    LabelTailBack(s, rest);
  }

  /** A name that starts with label and dot is read as that and the rest. */
  lemma DnsStep(head: string, more: string)
    requires Label(head)
    ensures DnsEnd(head + "." + more) == |head| + 1 + DnsEnd(more)
  {
    var s := head + "." + more;
    assert s == head + ("." + more);
    LabelBack(head, "." + more);
    assert s[|head|] == '.' && s[|head| + 1..] == more;
  }

  lemma SplitAtDot(s: string, rest: string, k: nat)
    requires k < |s| && s[k] == '.'
    ensures s + rest == s[..k] + "." + (s[k + 1..] + rest)
  {
  }

  lemma {:induction false} DnsBack(s: string, rest: string)
    requires DnsName(s) && Stops(rest)
    ensures DnsEnd(s + rest) == |s|
    decreases |s|
  {
    if Label(s) {
      LabelBack(s, rest);
    } else {
      var k :| 0 < k < |s| && Label(s[..k]) && s[k] == '.' && (s[k + 1..] == [] || DnsName(s[k + 1..]));
      SplitAtDot(s, rest, k);
      DnsStep(s[..k], s[k + 1..] + rest);
      if s[k + 1..] == [] {
        assert s[k + 1..] + rest == rest;
      } else {
        DnsBack(s[k + 1..], rest);
      }
    }
  }

  lemma {:induction false} BracketRunBack(s: string, rest: string)
    requires forall c <- s :: InBrackets(c)
    requires rest != [] && rest[0] == ']'
    ensures BracketRun(s + rest) == |s|
  {
    if s == [] {
      assert s + rest == rest;
    } else {
      assert (s + rest)[1..] == s[1..] + rest;
      BracketRunBack(s[1..], rest);
    }
  }

  lemma HostBack(s: string, rest: string)
    requires IsHost(s) && Stops(rest)
    ensures HostEnd(s + rest) == |s| > 0
  {
    if DnsName(s) {
      DnsBack(s, rest);
    } else {
      assert (s + rest)[1..] == s[1..|s| - 1] + (s[|s| - 1..] + rest);
      BracketRunBack(s[1..|s| - 1], s[|s| - 1..] + rest);
    }
  }

  // ----- so every host the parser ever reads is a host -----

  lemma {:induction false} LabelTailReads(s: string)
    ensures forall c <- s[..LabelTail(s)] :: IsAlphanumeric(c) || c == '-'
    ensures LabelTail(s) > 0 ==> IsAlphanumeric(s[LabelTail(s) - 1])
  {
    if LabelTail(s) > 0 {
      LabelTailReads(s[1..]);
      assert s[..LabelTail(s)] == [s[0]] + s[1..][..LabelTail(s[1..])];
    }
  }

  lemma {:induction false} DnsReads(s: string)
    requires DnsEnd(s) > 0
    ensures DnsName(s[..DnsEnd(s)])
  {
    var n := LabelEnd(s);
    LabelTailReads(s);
    assert Label(s[..n]);
    if n < |s| && s[n] == '.' {
      var t := s[..DnsEnd(s)];
      assert t[..n] == s[..n] && t[n] == '.' && t[n + 1..] == s[n + 1..][..DnsEnd(s[n + 1..])];
      if DnsEnd(s[n + 1..]) > 0 {
        DnsReads(s[n + 1..]);
      }
    }
  }

  lemma {:induction false} BracketRunReads(s: string)
    ensures forall c <- s[..BracketRun(s)] :: InBrackets(c)
  {
    if BracketRun(s) > 0 {
      BracketRunReads(s[1..]);
      assert s[..BracketRun(s)] == [s[0]] + s[1..][..BracketRun(s[1..])];
    }
  }

  lemma HostReads(s: string)
    requires HostEnd(s) > 0
    ensures IsHost(s[..HostEnd(s)])
  {
    if DnsEnd(s) > 0 {
      DnsReads(s);
    } else {
      BracketRunReads(s[1..]);
      var t := s[..HostEnd(s)];
      assert t[1..|t| - 1] == s[1..][..BracketRun(s[1..])];
    }
  }

  // ----- ports are read back -----

  lemma {:induction false} DecimalLength(n: nat, k: nat, limit: nat)
    requires n < limit && limit == Power10(k) && k > 0
    ensures |Decimal(n)| <= k
  {
    if n >= 10 {
      assert k > 1;
      DecimalLength(n / 10, k - 1, limit / 10);
    }
  }

  function Power10(k: nat): (p: nat) {
    if k == 0 then 1 else 10 * Power10(k - 1)
  }

  lemma {:induction false} DigitRunBack(s: string, rest: string, limit: nat)
    requires AllDigits(s)
    requires |s| <= limit
    requires rest == [] || !IsDigit(rest[0])
    ensures DigitRun(s + rest, limit) == |s|
  {
    if s == [] {
      assert s + rest == rest;
    } else {
      assert (s + rest)[1..] == s[1..] + rest;
      DigitRunBack(s[1..], rest, limit - 1);
    }
  }

  lemma {:induction false} NumberBound(s: string)
    requires AllDigits(s)
    ensures Number(s) < Power10(|s|)
  {
    if s != [] {
      NumberBound(s[..|s| - 1]);
    }
  }

  lemma {:induction false} Power10Grows(k: nat, m: nat)
    requires k <= m
    ensures Power10(k) <= Power10(m)
  {
    if k < m {
      Power10Grows(k, m - 1);
    }
  }

  lemma PortBack(port: Option<nat>, rest: string)
    requires port.Some? ==> port.value < PORT_LIMIT
    requires rest == [] || rest[0] == ';'
    ensures ReadPort(PortText(port) + rest) == port
  {
    if port.Some? {
      var digits := Decimal(port.value);
      assert Power10(6) == PORT_LIMIT;
      DecimalLength(port.value, 6, PORT_LIMIT);
      assert (PortText(port) + rest)[1..] == digits + rest;
      DigitRunBack(digits, rest, 6);
      assert (digits + rest)[..|digits|] == digits;
      DecimalNumber(port.value);
    } else {
      assert PortText(port) + rest == rest;
    }
  }

  /** Whatever text is read, the host and port found are ones that can be written. */
  lemma ReadsAreWellFormed(s: string)
    requires HostEnd(s) > 0
    ensures WellFormed(ReadHostPort(s))
  {
    HostReads(s);
    var t := s[HostEnd(s)..];
    if ReadPort(t).Some? {
      var n := DigitRun(t[1..], 6);
      NumberBound(t[1..][..n]);
      Power10Grows(n, 6);
      assert Power10(6) == PORT_LIMIT;
    }
  }

  /** Host and port, written out and read back, are the same, whatever parameters follow. */
  lemma HostPortBack(h: HostPort, rest: string)
    requires WellFormed(h)
    requires rest == [] || rest[0] == ';'
    ensures ReadHostPort(HostPortText(h) + rest) == h
  {
    var tail := PortText(h.port) + rest;
    assert HostPortText(h) + rest == h.host + tail;
    HostBack(h.host, tail);
    assert (h.host + tail)[..|h.host|] == h.host && (h.host + tail)[|h.host|..] == tail;
    PortBack(h.port, rest);
  }
}
