/**
 * The proxy's rewriting of the Contacts of a REGISTER for NAT traversal, and the registrar's
 * undoing of it in the response.
 */
module NatContact {
  import opened Common
  import opened UrlText

  datatype Scheme = Sip | Sips | OtherScheme
  datatype Param = Param(name: string, value: string)
  datatype Url = Url(scheme: Scheme, user: string, address: HostPort, params: seq<Param>)
  datatype Contact = Star | Address(url: Url)

  const NO_NAT: string := "x-sipX-nonat"
  const PRIVATE_CONTACT: string := "x-sipX-privcontact"

  // ----- URL parameters -----

  predicate HasParam(ps: seq<Param>, name: string) {
    exists i :: 0 <= i < |ps| && SameText(ps[i].name, name)
  }

  lemma TailHas(ps: seq<Param>, name: string)
    requires ps != []
    ensures HasParam(ps, name) <==> SameText(ps[0].name, name) || HasParam(ps[1..], name)
  {
    if HasParam(ps[1..], name) {
      var i :| 0 <= i < |ps[1..]| && SameText(ps[1..][i].name, name);
      assert ps[i + 1] == ps[1..][i];
    } else {
      assert forall i :: 0 < i < |ps| ==> ps[i] == ps[1..][i - 1];
    }
  }

  /** The value of the first parameter of that name. */
  function GetParam(ps: seq<Param>, name: string): (v: Option<string>)
    ensures v.Some? <==> HasParam(ps, name)
  {
    if ps == [] then None
    else if SameText(ps[0].name, name) then Some(ps[0].value)
    else
      TailHas(ps, name);
      GetParam(ps[1..], name)
  }

  /** Overwrites the value of the first parameter of that name, or appends one. */
  function SetParam(ps: seq<Param>, name: string, value: string): (r: seq<Param>) {
    if ps == [] then [Param(name, value)]
    else if SameText(ps[0].name, name) then [ps[0].(value := value)] + ps[1..]
    else [ps[0]] + SetParam(ps[1..], name, value)
  }

  /** Removes every parameter of that name. */
  function RemoveParam(ps: seq<Param>, name: string): (r: seq<Param>)
    ensures |r| <= |ps|
  {
    if ps == [] then []
    else if SameText(ps[0].name, name) then RemoveParam(ps[1..], name)
    else [ps[0]] + RemoveParam(ps[1..], name)
  }

  // ----- the proxy -----

  function TransportText(ps: seq<Param>): (s: string) {
    var t := GetParam(ps, "transport");
    if t.Some? then ";transport=" + t.value else ""
  }

  function PrivateText(u: Url): (s: string) {
    HostPortText(u.address) + TransportText(u.params)
  }

  /** `public` is where the request came from when its sender is behind a NAT. */
  function Rewrite(u: Url, public: Option<HostPort>): (r: Url) {
    if u.scheme.OtherScheme? then u
    else if public.Some? then
      var bare := u.(params := RemoveParam(RemoveParam(u.params, NO_NAT), PRIVATE_CONTACT));
      bare.(address := public.value, params := SetParam(bare.params, PRIVATE_CONTACT, PrivateText(bare)))
    else if !HasParam(u.params, PRIVATE_CONTACT) && !HasParam(u.params, NO_NAT) then
      u.(params := SetParam(u.params, NO_NAT, ""))
    else u
  }

  function RewriteContact(c: Contact, public: Option<HostPort>): (r: Contact) {
    if c.Star? then c else Address(Rewrite(c.url, public))
  }

  class SipRequest {
    var contacts: seq<Contact>
    var received: Option<HostPort>

    constructor (contacts: seq<Contact>, received: Option<HostPort>)
      ensures this.contacts == contacts && this.received == received
    {
      this.contacts := contacts;
      this.received := received;
    }
  }

  /** Without the parameters of that name, the others as they were and in order. */
  function Others(ps: seq<Param>, name: string): (r: seq<Param>) {
    if ps == [] then [] else (if SameText(ps[0].name, name) then [] else [ps[0]]) + Others(ps[1..], name)
  }

  lemma {:induction false} RemovedLeavesOthers(ps: seq<Param>, name: string)
    ensures RemoveParam(ps, name) == Others(ps, name)
  {
    if ps != [] {
      RemovedLeavesOthers(ps[1..], name);
    }
  }

  /**
   * What the proxy makes of a sip or sips Contact. Behind a NAT: the public address, the
   * parameters it had except the two of ours, and last the private host, port and transport.
   * Otherwise only the no-NAT mark, and that if neither parameter was there.
   */
  ghost predicate IsRewritten(before: Url, after: Url, received: Option<HostPort>) {
    && after.scheme == before.scheme && after.user == before.user
    && if received.Some? then
         var kept := Others(Others(before.params, NO_NAT), PRIVATE_CONTACT);
         var transport := GetParam(before.params, "transport");
         var port := before.address.port;
         && after.address == received.value
         && after.params == kept + [Param(PRIVATE_CONTACT,
              before.address.host + (if port.Some? then ":" + Decimal(port.value) else "")
              + (if transport.Some? then ";transport=" + transport.value else ""))]
       else
         && after.address == before.address
         && after.params == before.params +
              if HasParam(before.params, NO_NAT) || HasParam(before.params, PRIVATE_CONTACT) then [] else [Param(NO_NAT, "")]
  }

  lemma RewriteIsRewritten(u: Url, received: Option<HostPort>)
    requires !u.scheme.OtherScheme?
    ensures IsRewritten(u, Rewrite(u, received), received)
  {
    NamesDiffer();
    if received.Some? {
      var some := RemoveParam(u.params, NO_NAT);
      var bare := RemoveParam(some, PRIVATE_CONTACT);
      RemovedLeavesOthers(u.params, NO_NAT);
      RemovedLeavesOthers(some, PRIVATE_CONTACT);
      RemoveKeepsOthers(u.params, NO_NAT, "transport");
      RemoveKeepsOthers(some, PRIVATE_CONTACT, "transport");
      RemoveAbsent(some, PRIVATE_CONTACT);
      SetAppends(bare, PRIVATE_CONTACT, PrivateText(u.(params := bare)));
    } else if !HasParam(u.params, PRIVATE_CONTACT) && !HasParam(u.params, NO_NAT) {
      SetAppends(u.params, NO_NAT, "");
    } else {
      assert u.params + [] == u.params;
    }
  }

  /**
   * Every Contact is rewritten in its place, and none is added, moved or dropped: `*` and Contacts
   * of other schemes stay as they are, the others are as `IsRewritten` says.
   */
  method AddNatMappingInfoToContacts(request: SipRequest)
    modifies request`contacts
    ensures |request.contacts| == |old(request.contacts)|
    ensures forall i :: 0 <= i < |request.contacts| ==>
      var before, after := old(request.contacts[i]), request.contacts[i];
      if before.Star? || before.url.scheme.OtherScheme? then after == before
      else after.Address? && IsRewritten(before.url, after.url, request.received)
    ensures forall i :: 0 <= i < |request.contacts| ==>
      request.contacts[i] == RewriteContact(old(request.contacts[i]), request.received)
  {
    var number := 0;
    while number < |request.contacts|
      invariant 0 <= number <= |request.contacts| == |old(request.contacts)|
      invariant forall i :: 0 <= i < number ==>
        request.contacts[i] == RewriteContact(old(request.contacts[i]), request.received)
      invariant forall i :: number <= i < |request.contacts| ==> request.contacts[i] == old(request.contacts[i])
    {
      var contact := request.contacts[number];
      if contact.Address? && !contact.url.scheme.OtherScheme? {
        var uri := contact.url;
        if request.received.Some? {
          uri := uri.(params := RemoveParam(uri.params, NO_NAT));
          uri := uri.(params := RemoveParam(uri.params, PRIVATE_CONTACT));
          var value := uri.address.host;
          if uri.address.port.Some? {
            value := value + ":" + Decimal(uri.address.port.value);
          }
          var transport := GetParam(uri.params, "transport");
          if transport.Some? {
            value := value + ";transport=" + transport.value;
          }
          PrivateTextByParts(uri, value);
          uri := uri.(address := request.received.value);
          uri := uri.(params := SetParam(uri.params, PRIVATE_CONTACT, value));
        } else if GetParam(uri.params, PRIVATE_CONTACT).None? && GetParam(uri.params, NO_NAT).None? {
          uri := uri.(params := SetParam(uri.params, NO_NAT, ""));
        }
        request.contacts := request.contacts[number := Address(uri)];
      }
      number := number + 1;
    }
    ghost var was := old(request.contacts);
    forall i | 0 <= i < |was| && was[i].Address? && !was[i].url.scheme.OtherScheme?
      ensures IsRewritten(was[i].url, request.contacts[i].url, request.received)
    {
      RewriteIsRewritten(was[i].url, request.received);
    }
  }

  lemma PrivateTextByParts(u: Url, value: string)
    requires var hostPort := u.address.host + if u.address.port.Some? then ":" + Decimal(u.address.port.value) else "";
      var t := GetParam(u.params, "transport");
      value == if t.Some? then hostPort + ";transport=" + t.value else hostPort
    ensures value == PrivateText(u)
  {
    var t := GetParam(u.params, "transport");
    if t.Some? {
      assert HostPortText(u.address) + ";transport=" + t.value == HostPortText(u.address) + (";transport=" + t.value);
    }
  }

  // ----- the registrar -----

  function Restore(u: Url): (r: Url) {
    var private := GetParam(u.params, PRIVATE_CONTACT);
    if private.Some? then
      u.(address := ReadUrl(private.value), params := RemoveParam(u.params, PRIVATE_CONTACT))
    else
      u.(params := RemoveParam(u.params, NO_NAT))
  }

  // ----- parameters go in and out -----

  lemma {:induction false} RemoveAbsent(ps: seq<Param>, name: string)
    ensures RemoveParam(ps, name) == ps <==> !HasParam(ps, name)
    ensures HasParam(ps, name) ==> |RemoveParam(ps, name)| < |ps|
    ensures !HasParam(RemoveParam(ps, name), name)
  {
    if ps != [] {
      RemoveAbsent(ps[1..], name);
      TailHas(ps, name);
      assert ps == [ps[0]] + ps[1..];
      if !SameText(ps[0].name, name) {
        assert RemoveParam(ps, name)[1..] == RemoveParam(ps[1..], name);
        TailHas(RemoveParam(ps, name), name);
      }
    }
  }

  lemma {:induction false} RemoveKeepsOthers(ps: seq<Param>, name: string, other: string)
    requires !SameText(other, name)
    ensures HasParam(RemoveParam(ps, name), other) <==> HasParam(ps, other)
    ensures GetParam(RemoveParam(ps, name), other) == GetParam(ps, other)
  {
    if ps != [] {
      RemoveKeepsOthers(ps[1..], name, other);
      SameTextTransitive(ps[0].name, name, other);
      assert !SameText(ps[0].name, name) ==> RemoveParam(ps, name)[1..] == RemoveParam(ps[1..], name);
    }
  }

  lemma SameTextTransitive(a: string, b: string, c: string)
    ensures SameText(a, b) && SameText(a, c) ==> SameText(c, b)
  {
  }

  /** Adding a parameter that is not there and removing it again changes nothing. */
  lemma {:induction false} RemoveUndoesSet(ps: seq<Param>, name: string, value: string)
    requires !HasParam(ps, name)
    ensures GetParam(SetParam(ps, name, value), name) == Some(value)
    ensures RemoveParam(SetParam(ps, name, value), name) == ps
    ensures forall other :: !SameText(other, name) && !HasParam(ps, other) ==> !HasParam(SetParam(ps, name, value), other)
  {
    var r := SetParam(ps, name, value);
    SetAppends(ps, name, value);
    assert SameText(name, name);
    if ps != [] {
      TailHas(ps, name);
      RemoveUndoesSet(ps[1..], name, value);
      assert r[1..] == SetParam(ps[1..], name, value);
      assert ps == [ps[0]] + ps[1..];
    }
    forall other | !SameText(other, name) && !HasParam(ps, other)
      ensures !HasParam(r, other)
    {
      assert forall i :: 0 <= i < |ps| ==> r[i] == ps[i] && !SameText(ps[i].name, other);
      SameSymmetric(name, other);
    }
  }

  lemma {:induction false} SetAppends(ps: seq<Param>, name: string, value: string)
    requires !HasParam(ps, name)
    ensures SetParam(ps, name, value) == ps + [Param(name, value)]
  {
    if ps != [] {
      TailHas(ps, name);
      SetAppends(ps[1..], name, value);
      assert ps == [ps[0]] + ps[1..];
    }
  }

  lemma SameSymmetric(a: string, b: string)
    ensures SameText(a, b) == SameText(b, a)
  {
  }

  lemma NamesDiffer()
    ensures !SameText(NO_NAT, PRIVATE_CONTACT) && !SameText(PRIVATE_CONTACT, NO_NAT)
    ensures !SameText("transport", NO_NAT) && !SameText("transport", PRIVATE_CONTACT)
  {
    assert |NO_NAT| == 12 && |PRIVATE_CONTACT| == 18 && |"transport"| == 9;
  }

  // ----- what the private text is read back as -----

  /** The text is cut at an `@` that stands in the transport value. */
  predicate CutAtSign(u: Url) { Userinfo(PrivateText(u)).Some? }

  /** The host is called like a URL scheme and a port follows it. */
  predicate LooksLikeScheme(u: Url) {
    IsSchemeName(u.address.host) && u.address.port.Some?
  }

  /** When the private address survives being written as a parameter value and read as a URL. */
  predicate PrivateTextIsClear(u: Url) {
    if CutAtSign(u) then ReadHostPort(Userinfo(PrivateText(u)).value) == u.address
    else !LooksLikeScheme(u)
  }

  predicate HostChars(s: string) {
    forall i :: 0 <= i < |s| ==> IsAlphanumeric(s[i]) || s[i] == '-' || s[i] == '.'
  }

  lemma HostCharsJoin(a: string, b: string)
    requires HostChars(a) && HostChars(b)
    ensures HostChars(a + "." + (b + ""))
  {
  }

  lemma {:induction false} DnsNameCharacters(s: string)
    requires DnsName(s)
    ensures s != [] && HostChars(s)
    decreases |s|
  {
    if !Label(s) {
      var k :| 0 < k < |s| && Label(s[..k]) && s[k] == '.' && (s[k + 1..] == [] || DnsName(s[k + 1..]));
      if s[k + 1..] != [] {
        DnsNameCharacters(s[k + 1..]);
      }
      HostCharsJoin(s[..k], s[k + 1..]);
      SplitAtDot(s, "", k);
      assert s + "" == s;
    }
  }

  /** No scheme's name holds a colon or semicolon, or starts with a bracket. */
  lemma SchemeNameCharacters(s: string)
    requires IsSchemeName(s)
    ensures ':' !in s && ';' !in s && s != [] && s[0] != '['
  {
    var name :| name in {"UNKNOWN-URL-SCHEME", "sip", "sips", "http", "https", "ftp", "file", "mailto"} && SameText(s, name);
    assert forall i :: 0 <= i < |name| ==> Lower(name[i]) != ':' && Lower(name[i]) != ';' && Lower(name[i]) != '[';
    assert forall i :: 0 <= i < |s| ==> Lower(s[i]) == Lower(name[i]);
  }

  lemma SemicolonIsNoScheme(s: string, k: nat)
    requires k < |s| && s[k] == ';'
    ensures !IsSchemeName(s)
  {
    if IsSchemeName(s) {
      SchemeNameCharacters(s);
    }
  }

  predicate IsTail(t: string) { t == [] || t[0] == ';' }

  lemma SchemeBeforePort(host: string, port: nat, t: string)
    requires IsHost(host) && IsTail(t)
    ensures var s := host + (":" + Decimal(port) + t);
      && (HasScheme(s) <==> IsSchemeName(host))
      && (HasScheme(s) ==> Colon(s) == |host| && AfterScheme(s) == Decimal(port) + t)
  {
    var tail := ":" + Decimal(port) + t;
    var s := host + tail;
    if DnsName(host) {
      DnsNameCharacters(host);
      IndexOfJoin(host, tail, ':');
      assert s[..|host|] == host && s[|host| + 1..] == Decimal(port) + t;
    } else {
      BracketIsNoScheme(host, tail);
    }
  }

  lemma BracketIsNoScheme(host: string, tail: string)
    requires host != [] && host[0] == '['
    ensures !IsSchemeName(host) && !HasScheme(host + tail) && Userinfo(host + tail).None?
  {
    var s := host + tail;
    assert s[0] == '[';
    if IsSchemeName(host) {
      SchemeNameCharacters(host);
    }
    if HasScheme(s) {
      SchemeNameCharacters(s[..Colon(s)]);
    }
  }

  lemma NoSchemeWithoutPort(host: string, t: string)
    requires IsHost(host) && IsTail(t)
    ensures !HasScheme(host + t)
  {
    var s := host + t;
    if DnsName(host) {
      DnsNameCharacters(host);
      var n := Colon(s);
      assert n >= |host|;
      if t != [] {
        SemicolonIsNoScheme(s[..n], |host|);
      }
    } else {
      BracketIsNoScheme(host, t);
    }
  }

  lemma {:induction false} UnitsBack(s: string, rest: string, password: bool)
    requires HostChars(s)
    requires rest == [] || rest[0] == ':' || (password && rest[0] == ';')
    ensures Units(s + rest, password) == |s|
  {
    if s == [] {
      assert s + rest == rest;
      assert rest != [] ==> !(if password then InPassword(rest[0]) else InUser(rest[0]));
    } else {
      assert (s + rest)[1..] == s[1..] + rest && (s + rest)[0] == s[0] && InPassword(s[0]);
      UnitsBack(s[1..], rest, password);
    }
  }

  /** With a port, the colon ends what could be a user, and the digits are no password. */
  lemma NoUserBeforePort(host: string, port: nat, t: string)
    requires DnsName(host) && IsTail(t)
    ensures AfterUserinfo(host + (":" + Decimal(port) + t)).None?
  {
    var tail := ":" + Decimal(port) + t;
    var s := host + tail;
    DnsNameCharacters(host);
    UnitsBack(host, tail, false);
    assert s[|host| + 1..] == Decimal(port) + t;
    UnitsBack(Decimal(port), t, true);
    assert s[|host|] == ':';
    assert t != [] ==> s[|host| + 1 + |Decimal(port)|] == ';';
  }

  lemma DigitsAreReadAsHost(digits: string, t: string)
    requires digits != [] && AllDigits(digits) && IsTail(t)
    ensures ReadHostPort(digits + t) == HostPort(digits, None)
  {
    assert Label(digits);
    assert PortText(None) == "" && HostPortText(HostPort(digits, None)) == digits;
    HostPortBack(HostPort(digits, None), t);
  }

  /** The private address is read back exactly when its text is clear. */
  lemma PrivateAddressBack(u: Url)
    requires WellFormed(u.address)
    ensures ReadUrl(PrivateText(u)) == u.address <==> PrivateTextIsClear(u)
  {
    var h := u.address;
    var t := TransportText(u.params);
    var s := PrivateText(u);
    HostPortBack(h, t);
    if h.port.Some? {
      var port := h.port.value;
      Associative(h.host, ":" + Decimal(port), t);
      SchemeBeforePort(h.host, port, t);
      if IsSchemeName(h.host) {
        DigitsAreReadAsHost(Decimal(port), t);
      } else if DnsName(h.host) {
        NoUserBeforePort(h.host, port, t);
      } else {
        BracketIsNoScheme(h.host, ":" + Decimal(port) + t);
      }
    } else {
      assert HostPortText(h) == h.host;
      NoSchemeWithoutPort(h.host, t);
    }
  }

  // ----- the registrar undoes the proxy -----

  predicate CarriesNatParams(u: Url) {
    HasParam(u.params, NO_NAT) || HasParam(u.params, PRIVATE_CONTACT)
  }

  /**
   * The registrar gives the Contact back as it was exactly when it carried none of the two
   * parameters and, behind a NAT, its private address could be read back.
   */
  lemma RestoreUndoesRewrite(u: Url, public: Option<HostPort>)
    requires !u.scheme.OtherScheme? && WellFormed(u.address)
    ensures Restore(Rewrite(u, public)) == u
      <==> !CarriesNatParams(u) && (public.Some? ==> PrivateTextIsClear(u))
  {
    if public.Some? {
      RestoreBehindNat(u, public.value);
    } else {
      RestoreInTheOpen(u);
    }
  }

  lemma RestoreInTheOpen(u: Url)
    requires !u.scheme.OtherScheme?
    ensures Restore(Rewrite(u, None)) == u <==> !CarriesNatParams(u)
  {
    NamesDiffer();
    if CarriesNatParams(u) {
      RemoveAbsent(u.params, NO_NAT);
      RemoveAbsent(u.params, PRIVATE_CONTACT);
    } else {
      RemoveUndoesSet(u.params, NO_NAT, "");
    }
  }

  lemma RestoreBehindNat(u: Url, public: HostPort)
    requires !u.scheme.OtherScheme? && WellFormed(u.address)
    ensures Restore(Rewrite(u, Some(public))) == u <==> !CarriesNatParams(u) && PrivateTextIsClear(u)
  {
    NamesDiffer();
    var some := RemoveParam(u.params, NO_NAT);
    var bare := u.(params := RemoveParam(some, PRIVATE_CONTACT));
    RemoveAbsent(u.params, NO_NAT);
    RemoveAbsent(some, PRIVATE_CONTACT);
    RemoveKeepsOthers(u.params, NO_NAT, PRIVATE_CONTACT);
    RemoveUndoesSet(bare.params, PRIVATE_CONTACT, PrivateText(bare));
    PrivateAddressBack(bare);
    assert Restore(Rewrite(u, Some(public))) == bare.(address := ReadUrl(PrivateText(bare)));
  }

  lemma HostHasNoAt(host: string)
    requires IsHost(host)
    ensures '@' !in host
  {
    if DnsName(host) {
      DnsNameCharacters(host);
    } else {
      var inner := host[1..|host| - 1];
      assert host == "[" + inner + "]";
      assert '@' in inner ==> InBrackets('@');
    }
  }

  lemma CutNeedsAt(s: string)
    ensures AfterUserinfo(s).Some? ==> '@' in s
  {
  }

  /** A transport without an `@` leaves one way to go wrong. */
  lemma ClearUnlessSchemeLike(u: Url)
    requires WellFormed(u.address)
    requires var t := GetParam(u.params, "transport"); t.Some? ==> '@' !in t.value
    ensures PrivateTextIsClear(u) <==> !LooksLikeScheme(u)
  {
    var s := PrivateText(u);
    HostHasNoAt(u.address.host);
    assert '@' !in s;
    CutNeedsAt(AfterScheme(s));
  }

  /** So, with an ordinary transport, only a host called like a scheme, with a port, is not restored. */
  lemma ContactComesBack(u: Url, public: Option<HostPort>)
    requires !u.scheme.OtherScheme? && WellFormed(u.address) && !CarriesNatParams(u)
    requires var t := GetParam(u.params, "transport"); t.Some? ==> '@' !in t.value
    ensures Restore(Rewrite(u, public)) == u <==> !(public.Some? && LooksLikeScheme(u))
  {
    RestoreUndoesRewrite(u, public);
    ClearUnlessSchemeLike(u);
  }

  /** A phone at a host called `sips` gets back host `5060` and no port. */
  lemma HostNamedSipsIsLost()
    ensures var u := Url(Sip, "alice", HostPort("sips", Some(5060)), []);
      Restore(Rewrite(u, Some(HostPort("192.0.2.7", Some(1024))))) != u
  {
    var u := Url(Sip, "alice", HostPort("sips", Some(5060)), []);
    assert Label("sips");
    assert SameText("sips", "sips");
    ContactComesBack(u, Some(HostPort("192.0.2.7", Some(1024))));
  }

  // ----- an `@` in the transport -----

  lemma {:induction false} UnitsUpToAt(s: string, rest: string)
    requires forall i :: 0 <= i < |s| ==> InUser(s[i])
    ensures Units(s + ("@" + rest), false) == |s|
  {
    var t := s + ("@" + rest);
    if s == [] {
      assert t[0] == '@' && !InUser('@');
    } else {
      assert t[1..] == s[1..] + ("@" + rest);
      UnitsUpToAt(s[1..], rest);
    }
  }

  lemma UserinfoUpToAt(s: string, rest: string)
    requires s != [] && forall i :: 0 <= i < |s| ==> InUser(s[i])
    ensures AfterUserinfo(s + ("@" + rest)) == Some(rest)
  {
    UnitsUpToAt(s, rest);
    var t := s + ("@" + rest);
    assert t[|s|] == '@' && t[|s| + 1..] == rest;
  }

  /**
   * A domain name without a port, and a transport with an `@` after characters a user name may
   * have: what is read back is the address after the `@`.
   */
  lemma AtSignCuts(host: string, before: string, rest: string)
    requires DnsName(host) && forall i :: 0 <= i < |before| ==> InUser(before[i])
    ensures ReadUrl(host + (";transport=" + (before + ("@" + rest)))) == ReadHostPort(rest)
  {
    var t := ";transport=" + (before + ("@" + rest));
    var user := host + ";transport=" + before;
    NoSchemeWithoutPort(host, t);
    DnsNameCharacters(host);
    assert forall i :: 0 <= i < |host| ==> InUser(host[i]);
    TransportIsUser();
    JoinedAtSign(host, ";transport=", before, rest);
    UserinfoUpToAt(user, rest);
  }

  lemma TransportIsUser()
    ensures forall i :: 0 <= i < |";transport="| ==> InUser(";transport="[i])
  {
  }

  lemma JoinedAtSign(a: string, b: string, c: string, d: string)
    ensures a + (b + (c + ("@" + d))) == a + b + c + ("@" + d)
  {
  }

  /** A phone at host `a` with transport `x@b` gets back host `b`. */
  lemma AtSignIsLost()
    ensures var u := Url(Sip, "alice", HostPort("a", None), [Param("transport", "x@b")]);
      Restore(Rewrite(u, Some(HostPort("192.0.2.7", None)))).address == HostPort("b", None)
  {
    var u := Url(Sip, "alice", HostPort("a", None), [Param("transport", "x@b")]);
    var public := Some(HostPort("192.0.2.7", None));
    RewriteIsRewritten(u, public);
    var kept := Others(Others(u.params, NO_NAT), PRIVATE_CONTACT);
    NamesDiffer();
    assert u.params[1..] == [] && Others(u.params, NO_NAT) == u.params && kept == u.params;
    assert GetParam(u.params, "transport") == Some("x@b") by { assert SameText("transport", "transport"); }
    var text := "a" + ";transport=" + "x@b";
    var after := Rewrite(u, public);
    assert after.params == u.params + [Param(PRIVATE_CONTACT, "a" + "" + (";transport=" + "x@b"))];
    assert "a" + "" + (";transport=" + "x@b") == "a" + (";transport=" + ("x" + ("@" + "b")));
    assert SameText(PRIVATE_CONTACT, PRIVATE_CONTACT);
    assert after.params[1..] == [Param(PRIVATE_CONTACT, "a" + (";transport=" + ("x" + ("@" + "b"))))];
    assert GetParam(after.params, PRIVATE_CONTACT) == Some("a" + (";transport=" + ("x" + ("@" + "b"))));
    assert Label("a") && Label("b");
    AtSignCuts("a", "x", "b");
    HostPortBack(HostPort("b", None), "");
    assert HostPortText(HostPort("b", None)) + "" == "b";
  }
}
