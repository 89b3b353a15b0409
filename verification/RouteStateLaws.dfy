/**
 * Laws of the route state beside the round trip: what decode has to find signed, which header
 * decides, which messages are mutable, what update adds, and that names never meet.
 */
module RouteStateLaws {
  import opened Common
  import opened RouteToken
  import opened RouteTokenProofs
  import opened RouteStateModel
  import opened RouteStateProofs

  /** The token is some pairs, `!`, and the hash of secret, Call-ID and those pairs. */
  ghost predicate SignedOver(key: Key, token: string, text: string) {
    var signed := text + "!" + key.md5(key.secret + key.callId + text);
    IsPairs(text) && (token == signed || token == signed + "\n")
  }

  lemma TrimmedIsSplit(t: string, n: nat)
    requires n < |t| && t[n] == '!'
    ensures t == t[..n] + "!" + t[n + 1..]
  {
  }

  /** A token of the right syntax is its pairs, `!` and its signature, up to a final newline. */
  lemma SplitMeans(token: string)
    requires SplitToken(token).Some?
    ensures var split := SplitToken(token).value;
      var whole := split.text + "!" + split.signature;
      IsPairs(split.text) && (token == whole || token == whole + "\n")
  {
    var t := if token != "" && token[|token| - 1] == '\n' then token[..|token| - 1] else token;
    assert token == t || token == t + "\n";
    TrimmedIsSplit(t, |t| - 33);
  }

  lemma DecodeChecksSignature(key: Key, token: string)
    requires Decode(key, token).Some?
    ensures SplitToken(token).Some? && SplitToken(token).value.signature == Signature(key, SplitToken(token).value.text)
  {
  }

  /** Whatever decode accepts is signed; a final newline is the only slack. */
  lemma DecodedIsSigned(key: Key, token: string)
    requires Decode(key, token).Some?
    ensures exists text :: SignedOver(key, token, text)
  {
    DecodeChecksSignature(key, token);
    SplitMeans(token);
    assert SignedOver(key, token, SplitToken(token).value.text);
  }

  /** The hash of these pairs is not the same under both keys. */
  ghost predicate HashesDiffer(key: Key, other: Key, text: string) {
    key.md5(key.secret + key.callId + text) != other.md5(other.secret + other.callId + text)
  }

  lemma BadSplitIsRefused(key: Key, token: string)
    requires var split := SplitToken(token); split.None? || split.value.signature != Signature(key, split.value.text)
    ensures Decode(key, token) == None
  {
  }

  /** A token written under another secret or Call-ID is refused, unless the hashes collide. */
  lemma {:induction false} ForeignTokenIsRefused(key: Key, other: Key, ps: seq<Param>)
    requires HashesDiffer(key, other, PairsText(ps))
    ensures Decode(key, Encode(other, ps)) == None
  {
    SplitBack(PairsText(ps), Signature(other, PairsText(ps)));
    BadSplitIsRefused(key, Encode(other, ps));
  }

  /** And one written under this key is what encode says: the pairs and their hash. */
  lemma EncodeIsSigned(key: Key, ps: seq<Param>)
    ensures var text := PairsText(ps); Encode(key, ps) == text + "!" + key.md5(key.secret + key.callId + text)
  {
    var text := PairsText(ps);
    Associative(text, "!", key.md5(key.secret + key.callId + text));
  }

  // ----- messages -----

  /** Another holder's token, whose hash is not the one this key gives. */
  ghost predicate WrittenByOther(key: Key, token: string) {
    exists other, ps :: token == Encode(other, ps) && HashesDiffer(key, other, PairsText(ps))
  }

  /** If it carries state, that is another holder's, or not signed for this key whatever its pairs. */
  ghost predicate Unsigned(key: Key, route: Route) {
    route.Carries() ==>
      var token := route.parameters[STATE_PARAMETER];
      WrittenByOther(key, token) || forall text :: !SignedOver(key, token, text)
  }

  lemma UnsignedIsStale(key: Key, route: Route)
    requires Unsigned(key, route) && route.Carries()
    ensures Stale(Under(key), route)
  {
    var token := route.parameters[STATE_PARAMETER];
    if WrittenByOther(key, token) {
      var other, ps :| token == Encode(other, ps) && HashesDiffer(key, other, PairsText(ps));
      ForeignTokenIsRefused(key, other, ps);
    } else if Decode(key, token).Some? {
      DecodedIsSigned(key, token);
    }
  }

  lemma {:induction false} NoRouteDecodes(dec: Decoder, routes: seq<Route>, k: nat)
    requires k <= |routes| && forall i :: 0 <= i < |routes| && routes[i].Carries() ==> Stale(dec, routes[i])
    ensures FromRoutes(dec, routes, k) == Sought([], false)
  {
    if k > 0 {
      NoRouteDecodes(dec, routes, k - 1);
    }
  }

  /** A message with nothing signed for this key yields no state and no parameters. */
  lemma UnsignedMessageYieldsNothing(key: Key, hostPort: string, routes: seq<Route>, rrs: seq<Route>, kind: MessageKind)
    requires (forall i :: 0 <= i < |routes| ==> Unsigned(key, routes[i])) && forall i :: 0 <= i < |rrs| ==> Unsigned(key, rrs[i])
    ensures var r := Read(Under(key), hostPort, routes, rrs, kind); !r.found && r.values == []
  {
    var dec := Under(key);
    forall i | 0 <= i < |routes| && routes[i].Carries()
      ensures Stale(dec, routes[i])
    {
      UnsignedIsStale(key, routes[i]);
    }
    NoRouteDecodes(dec, routes, |routes|);
    forall i | 0 <= i < |rrs| && rrs[i].Carries()
      ensures Stale(dec, rrs[i])
    {
      UnsignedIsStale(key, rrs[i]);
    }
    FoundIffSomeDecodes(dec, hostPort, rrs, [], |rrs|);
    LastCarrierWins(dec, hostPort, rrs, [], |rrs|);
  }

  /** A Route that carries state decodes, and none before it does. */
  ghost predicate FirstDecoding(dec: Decoder, routes: seq<Route>, i: nat) {
    && i < |routes| && routes[i].Carries() && !Stale(dec, routes[i])
    && forall j :: 0 <= j < i && routes[j].Carries() ==> Stale(dec, routes[j])
  }

  lemma {:induction false} FirstRouteSought(dec: Decoder, routes: seq<Route>, i: nat, k: nat)
    requires FirstDecoding(dec, routes, i) && i < k <= |routes|
    ensures FromRoutes(dec, routes, k) == Sought(Decoded(dec, routes[i].parameters[STATE_PARAMETER]), true)
  {
    if k == i + 1 {
      assert routes[..i][..i] == routes[..i];
      NoRouteBefore(dec, routes, i, i);
    } else {
      FirstRouteSought(dec, routes, i, k - 1);
    }
  }

  lemma {:induction false} NoRouteBefore(dec: Decoder, routes: seq<Route>, i: nat, k: nat)
    requires FirstDecoding(dec, routes, i) && k <= i
    ensures FromRoutes(dec, routes, k) == Sought([], false)
  {
    if k > 0 {
      NoRouteBefore(dec, routes, i, k - 1);
    }
  }

  /** The first Route that decodes settles the state: its parameters, and not mutable. */
  lemma FirstRouteWins(dec: Decoder, hostPort: string, routes: seq<Route>, rrs: seq<Route>, kind: MessageKind, i: nat)
    requires FirstDecoding(dec, routes, i)
    ensures var r := Read(dec, hostPort, routes, rrs, kind);
      r.found && !r.isMutable && r.indices == [] && Some(r.values) == dec(routes[i].parameters[STATE_PARAMETER])
  {
    FirstRouteSought(dec, routes, i, |routes|);
  }

  /**
   * Which messages have mutable state: requests with no Route that decodes, and then those whose
   * Record-Routes carry state that decodes, or that are no ACK and outside any dialog.
   */
  lemma MutableExactly(dec: Decoder, hostPort: string, routes: seq<Route>, rrs: seq<Route>, kind: MessageKind)
    ensures Read(dec, hostPort, routes, rrs, kind).isMutable <==>
      && !kind.isResponse
      && (forall i :: 0 <= i < |routes| && routes[i].Carries() ==> Stale(dec, routes[i]))
      && ((exists i: nat :: i < |rrs| && rrs[i].Carries() && !Stale(dec, rrs[i])) || (!kind.isAck && !kind.hasToTag))
  {
    if i: nat :| i < |routes| && routes[i].Carries() && !Stale(dec, routes[i]) {
      var first := FindFirst(dec, routes, i);
      FirstRouteWins(dec, hostPort, routes, rrs, kind, first);
    } else {
      NoRouteDecodes(dec, routes, |routes|);
      FoundIffSomeDecodes(dec, hostPort, rrs, [], |rrs|);
    }
  }

  lemma {:induction false} FindFirst(dec: Decoder, routes: seq<Route>, i: nat) returns (first: nat)
    requires i < |routes| && routes[i].Carries() && !Stale(dec, routes[i])
    ensures FirstDecoding(dec, routes, first)
  {
    if j: nat :| j < i && routes[j].Carries() && !Stale(dec, routes[j]) {
      first := FindFirst(dec, routes, j);
    } else {
      first := i;
    }
  }

  // ----- finding pairs -----

  /** A pair stands here: its name, `~`, its value, a dot or `!`, and then the rest. */
  ghost predicate IsPairHere(s: string, raw: Raw, rest: string) {
    && |raw.name| >= 2 && All(raw.name, NameChar) && All(raw.encoded, ValueChar)
    && exists mark :: mark in {'.', '!'} && s == raw.name + ("~" + (raw.encoded + ([mark] + rest)))
  }

  lemma PairAtExactly(s: string, raw: Raw, rest: string)
    ensures PairAt(s) == Some((raw, rest)) <==> IsPairHere(s, raw, rest)
  {
    if PairAt(s) == Some((raw, rest)) {
      PairStandsHere(s);
    }
    if IsPairHere(s, raw, rest) {
      var mark :| mark in {'.', '!'} && s == raw.name + ("~" + (raw.encoded + ([mark] + rest)));
      PairAtParts(raw.name, raw.encoded, [mark] + rest);
      assert ([mark] + rest)[1..] == rest;
    }
  }

  lemma PairStandsHere(s: string)
    requires PairAt(s).Some?
    ensures IsPairHere(s, PairAt(s).value.0, PairAt(s).value.1)
  {
    var n := Span(s, NameChar);
    var t := s[n + 1..];
    var m := Span(t, ValueChar);
    assert s == s[..n] + ("~" + t);
    assert t == t[..m] + ([t[m]] + t[m + 1..]);
  }

  /** The search finds the first pair there is, skipping what is none. */
  lemma {:induction false} NextPairIsFirst(s: string)
    ensures NextPair(s).None? ==> forall k :: 0 <= k <= |s| ==> PairAt(s[k..]).None?
    ensures NextPair(s).Some? ==> exists k :: 0 <= k <= |s| && FirstPairAt(s, k)
  {
    if s == "" {
      assert s[0..] == s && PairAt(s).None?;
    } else if PairAt(s).Some? {
      assert s[0..] == s;
      assert FirstPairAt(s, 0);
    } else {
      NextPairIsFirst(s[1..]);
      assert s[0..] == s;
      forall k | 0 < k <= |s|
        ensures s[k..] == s[1..][k - 1..]
      {
      }
      if NextPair(s).Some? {
        var k :| 0 <= k <= |s[1..]| && FirstPairAt(s[1..], k);
        assert s[1..][k..] == s[k + 1..];
        assert forall j :: 0 < j < k + 1 ==> s[j..] == s[1..][j - 1..];
        assert FirstPairAt(s, k + 1);
      }
    }
  }

  ghost predicate FirstPairAt(s: string, k: nat)
    requires k <= |s|
  {
    PairAt(s[k..]).Some? && NextPair(s) == PairAt(s[k..]) && forall j :: 0 <= j < k ==> PairAt(s[j..]).None?
  }

  /** In the token pattern any character but a newline separates two pairs. */
  lemma AnySeparatorWillDo(p: Param, c: char, more: string)
    requires All(p.name, NameChar) && |p.name| >= 2 && c != '\n' && IsPairs(more)
    ensures IsPairs(PairText(p) + ([c] + more))
  {
    assert ([c] + more)[1..] == more;
    PairThenTail(p, [c] + more);
  }

  // ----- names -----

  lemma PartHasNoStar(part: string, i: nat)
    requires ValidPart(part) && i < |part|
    ensures part[i] != '*'
  {
    if !All(part, PartChar) && i < |part| - 1 {
      assert PartChar(part[..|part| - 1][i]);
    }
  }

  lemma StarPosition(instance: string, parameter: string)
    requires ValidPart(instance)
    ensures IndexOf(instance + "*" + parameter, '*') == |instance|
  {
    forall i: nat | i < |instance|
      ensures instance[i] != '*'
    {
      PartHasNoStar(instance, i);
    }
    Associative(instance, "*", parameter);
    IndexOfJoin(instance, "*" + parameter, '*');
  }

  predicate IsNameText(s: string) {
    forall i :: 0 <= i < |s| ==>
      'a' <= s[i] <= 'z' || 'A' <= s[i] <= 'Z' || '0' <= s[i] <= '9' || s[i] == '_' || s[i] == '-'
  }

  /** Which names are taken, and how they are joined; one final newline in each part is let through. */
  lemma NamesTaken(instance: string, parameter: string)
    ensures IsNameText(instance) && IsNameText(parameter) ==>
      && ParameterName(instance, parameter) == Some(instance + "*" + parameter)
      && ParameterName(instance + "\n", parameter) == Some(instance + "\n" + "*" + parameter)
      && ParameterName(instance, parameter + "\n") == Some(instance + "*" + (parameter + "\n"))
    ensures ParameterName(instance, parameter).Some? ==> IsNameText(Trimmed(instance)) && IsNameText(Trimmed(parameter))
  {
    assert (instance + "\n")[..|instance|] == instance && (parameter + "\n")[..|parameter|] == parameter;
    assert IsNameText(instance) ==> All(instance, PartChar);
    assert IsNameText(parameter) ==> All(parameter, PartChar);
  }

  function Trimmed(s: string): (t: string) {
    if s != "" && s[|s| - 1] == '\n' then s[..|s| - 1] else s
  }

  /** Two plugins, or two parameters of one, never share a name. */
  lemma NamesAreDistinct(instance: string, parameter: string, instance': string, parameter': string)
    requires var name := ParameterName(instance, parameter); name.Some? && name == ParameterName(instance', parameter')
    ensures instance == instance' && parameter == parameter'
  {
    StarPosition(instance, parameter);
    StarPosition(instance', parameter');
    var name := instance + "*" + parameter;
    assert name[..|instance|] == instance && name[|instance| + 1..] == parameter;
    assert name == instance' + "*" + parameter';
    assert name[..|instance'|] == instance' && name[|instance'| + 1..] == parameter';
  }

  // ----- what update adds -----

  /** A Record-Route of this proxy, loose routing, with the token as its state. */
  predicate IsOurRecordRoute(rr: Route, hostPort: string, token: string) {
    rr.hostPort == hostPort && rr.parameters == map["lr" := "", STATE_PARAMETER := token]
  }

  /** How many headers update adds: `topIsOurs` says whether the first one there was ours. */
  function Added(none: bool, topIsOurs: bool, addCopy: bool): (n: nat) {
    if none then (if addCopy then 2 else 1) else if addCopy && !topIsOurs then 1 else 0
  }

  lemma PushedShape(hostPort: string, rrs: seq<Route>, ix: seq<nat>, token: string, addCopy: bool)
    requires forall a :: 0 <= a < |ix| ==> ix[a] < |rrs|
    ensures var a := Pushed(hostPort, rrs, ix, token, addCopy);
      && |a| == Added(ix == [], ix != [] && ix[0] == 0, addCopy)
      && (ix == [] ==> forall i :: 0 <= i < |a| ==> IsOurRecordRoute(a[i], hostPort, token))
      && (ix != [] && a != [] ==> a[0] == Rewrite(rrs, ix, token)[ix[|ix| - 1]])
  {
  }

  ghost predicate TouchedOnlyOurs(dec: Decoder, hostPort: string, token: string, before: seq<Route>, after: seq<Route>)
    requires |before| == |after|
  {
    forall i :: 0 <= i < |before| ==>
      after[i] == if Ours(dec, hostPort, before[i]) then before[i].WithState(token) else before[i]
  }

  /**
   * What update adds on top: our Record-Route when none was ours, and a second one when a copy
   * was asked for; with some of ours but not on top, a copy of the last of them if asked for;
   * otherwise nothing. Below that every header stays, and only the state of ours is replaced.
   */
  lemma UpdateAddsOnTop(dec: Decoder, hostPort: string, rrs: seq<Route>, start: seq<Param>, token: string, addCopy: bool) returns (top: seq<Route>, rest: seq<Route>)
    ensures var ix := FromRecordRoutes(dec, hostPort, rrs, start, |rrs|).indices;
      && (forall a :: 0 <= a < |ix| ==> ix[a] < |rrs|)
      && Updated(hostPort, rrs, ix, token, addCopy) == top + rest
      && |rest| == |rrs| && TouchedOnlyOurs(dec, hostPort, token, rrs, rest)
      && |top| == Added(ix == [], rrs != [] && Ours(dec, hostPort, rrs[0]), addCopy)
      && (ix == [] ==> forall i :: 0 <= i < |top| ==> IsOurRecordRoute(top[i], hostPort, token))
      && (ix != [] && top != [] ==> top[0] == rest[ix[|ix| - 1]])
  {
    var ix := FromRecordRoutes(dec, hostPort, rrs, start, |rrs|).indices;
    IndicesAreOurs(dec, hostPort, rrs, start, |rrs|);
    assert forall a :: 0 <= a < |ix| ==> ix[a] in ix;
    top, rest := Pushed(hostPort, rrs, ix, token, addCopy), Rewrite(rrs, ix, token);
    PushedShape(hostPort, rrs, ix, token, addCopy);
    FirstIndex(dec, hostPort, rrs, ix);
    RewrittenOurs(dec, hostPort, rrs, ix, token);
  }

  lemma RewrittenOurs(dec: Decoder, hostPort: string, rrs: seq<Route>, ix: seq<nat>, token: string)
    requires forall a :: 0 <= a < |ix| ==> ix[a] < |rrs|
    requires forall i: nat :: i in ix <==> i < |rrs| && Ours(dec, hostPort, rrs[i])
    ensures TouchedOnlyOurs(dec, hostPort, token, rrs, Rewrite(rrs, ix, token))
  {
    forall i: nat | i < |rrs|
      ensures Rewrite(rrs, ix, token)[i] == if i in ix then rrs[i].WithState(token) else rrs[i]
    {
      RewriteOnlyOurs(rrs, ix, token, i);
    }
  }

  lemma FirstIndex(dec: Decoder, hostPort: string, rrs: seq<Route>, ix: seq<nat>)
    requires forall i: nat :: i in ix <==> i < |rrs| && Ours(dec, hostPort, rrs[i])
    requires forall a, b :: 0 <= a < b < |ix| ==> ix[a] < ix[b]
    ensures ix != [] ==> rrs != [] && (ix[0] == 0 <==> Ours(dec, hostPort, rrs[0]))
  {
    if ix != [] {
      assert ix[0] in ix;
      assert forall a :: 0 <= a < |ix| ==> ix[0] <= ix[a];
    }
  }
}
