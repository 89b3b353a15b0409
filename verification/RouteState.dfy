/**
 * RouteState as coded: an object whose parameter list, flags and Record-Route indices are
 * updated step by step, tied to the functions of `RouteStateModel`.
 */
module RouteState {
  import opened Common
  import Base64
  import opened RouteToken
  import opened RouteStateModel
  import opened RouteTokenProofs
  import opened RouteStateProofs

  /** What this part of the proxy reads and writes of a message. */
  class SipMessage {
    const callId: string
    const fromTag: seq<byte>
    const isResponse: bool
    const isAck: bool
    const hasToTag: bool
    var recordRoutes: seq<Route>

    function Kind(): (kind: MessageKind) {
      MessageKind(isResponse, isAck, hasToTag)
    }

    constructor (callId: string, fromTag: seq<byte>, isResponse: bool, isAck: bool, hasToTag: bool, recordRoutes: seq<Route>)
      ensures this.callId == callId && this.fromTag == fromTag && this.recordRoutes == recordRoutes
      ensures this.isResponse == isResponse && this.isAck == isAck && this.hasToTag == hasToTag
    {
      this.callId, this.fromTag, this.recordRoutes := callId, fromTag, recordRoutes;
      this.isResponse, this.isAck, this.hasToTag := isResponse, isAck, hasToTag;
    }
  }

  /** What encode still has to append after the first `i` parameters. */
  ghost function Remaining(ps: seq<Param>, i: nat): (s: string)
    requires i <= |ps|
  {
    if i == 0 then PairsText(ps) else if i < |ps| then "." + PairsText(ps[i..]) else ""
  }

  /** One turn of the encode loop, seen from the text appended so far. */
  lemma RemainingStep(ps: seq<Param>, i: nat, sofar: string)
    requires i < |ps|
    ensures sofar + Remaining(ps, i) == (sofar + ((if i == 0 then "" else ".") + PairText(ps[i]))) + Remaining(ps, i + 1)
  {
    assert ps[0..] == ps && ps[i..][0] == ps[i] && ps[i..][1..] == ps[i + 1..];
    assert Remaining(ps, i) == ((if i == 0 then "" else ".") + PairText(ps[i])) + Remaining(ps, i + 1);
  }

  method AppendPair(stateToken: string, p: Param, firstParam: bool) returns (r: string)
    ensures r == stateToken + ((if firstParam then "" else ".") + PairText(p))
  {
    var encodedValue := Escape(Base64.Encode(p.value));
    r := stateToken;
    if !firstParam {
      r := r + ".";
    }
    r := r + p.name;
    r := r + "~";
    r := r + encodedValue;
  }

  class RouteState {
    const key: Key
    const hostPort: string
    const fromTag: seq<byte>
    var values: seq<Param>
    var mayBeMutable: bool
    var modified: bool
    var foundRouteState: bool
    var addCopyRequested: bool
    var recordRouteIndices: seq<nat>

    /** The list is sorted and every name in it is one that setParameter takes. */
    ghost predicate Valid()
      reads this`values
    {
      WellNamed(values)
    }

    /** Decode the route state of a received message. */
    constructor (md5: Md5, secret: string, message: SipMessage, removedRoutes: seq<Route>, hostPort: string)
      ensures key == Key(md5, secret, message.callId) && this.hostPort == hostPort && fromTag == message.fromTag
      ensures !modified && !addCopyRequested
      ensures Reading(values, foundRouteState, mayBeMutable, recordRouteIndices)
           == Read(Under(key), hostPort, removedRoutes, message.recordRoutes, message.Kind())
    {
      key := Key(md5, secret, message.callId);
      this.hostPort, fromTag := hostPort, message.fromTag;
      values, mayBeMutable, modified, foundRouteState, addCopyRequested, recordRouteIndices := [], false, false, false, false, [];
      new;
      LookAtRoutes(removedRoutes);
      if !foundRouteState {
        LookAtRecordRoutes(message.recordRoutes);
        DecideMutable(message);
      }
    }

    /** Only a request that may form a dialog, and whose state was not in a Route, is mutable. */
    method DecideMutable(message: SipMessage)
      requires !mayBeMutable
      modifies this`mayBeMutable
      ensures mayBeMutable == IsMutable(message.Kind(), foundRouteState)
    {
      if !message.isResponse {
        if foundRouteState {
          mayBeMutable := true;
        } else if !message.isAck && !message.hasToTag {
          mayBeMutable := true;
        }
      }
    }

    /** The loop of the constructor over the removed routes. */
    method LookAtRoutes(removedRoutes: seq<Route>)
      requires values == [] && !foundRouteState
      modifies this`values, this`foundRouteState
      ensures Sought(values, foundRouteState) == FromRoutes(Under(key), removedRoutes, |removedRoutes|)
    {
      ghost var dec := Under(key);
      var i := 0;
      while i < |removedRoutes| && !foundRouteState
        invariant i <= |removedRoutes|
        invariant Sought(values, foundRouteState) == FromRoutes(dec, removedRoutes, i)
        decreases |removedRoutes| - i
      {
        var route := removedRoutes[i];
        if route.Contains() {
          if route.Carries() {
            foundRouteState := DecodeToken(route.parameters[STATE_PARAMETER]);
          }
        }
        i := i + 1;
      }
      if foundRouteState {
        FoundStops(dec, removedRoutes, i, |removedRoutes|);
      }
    }

    /** The loop of the constructor over the Record-Routes. */
    method LookAtRecordRoutes(rrs: seq<Route>)
      requires !foundRouteState && recordRouteIndices == []
      modifies this`values, this`foundRouteState, this`recordRouteIndices
      ensures Seen(values, foundRouteState, recordRouteIndices) == FromRecordRoutes(Under(key), hostPort, rrs, old(values), |rrs|)
    {
      for rrNum := 0 to |rrs|
        invariant Seen(values, foundRouteState, recordRouteIndices) == FromRecordRoutes(Under(key), hostPort, rrs, old(values), rrNum)
      {
        var rr := rrs[rrNum];
        if rr.Contains() {
          if rr.Carries() {
            var found := DecodeToken(rr.parameters[STATE_PARAMETER]);
            if found {
              recordRouteIndices := recordRouteIndices + [rrNum];
            }
            foundRouteState := foundRouteState || found;
          }
        } else if rr.hostPort == hostPort {
          recordRouteIndices := recordRouteIndices + [rrNum];
        }
      }
    }

    /** The loop of decode: a pair at the start of the token, then search for the next one. */
    method InsertPairs(token: string) returns (decodedOk: bool)
      requires values == []
      modifies this`values
      ensures decodedOk == DecodeText(token).Some?
      ensures values == if decodedOk then DecodeText(token).value else []
    {
      var pair := PairAt(token);
      decodedOk := pair.Some?;
      ghost var all := PairsFrom(pair);
      while decodedOk && pair.Some?
        invariant decodedOk ==> DecodePairs(PairsFrom(pair), values) == DecodePairs(all, [])
        invariant decodedOk ==> PairAt(token).Some?
        invariant !decodedOk ==> DecodeText(token).None?
        decreases decodedOk, if pair.Some? then |pair.value.1| + 1 else 0
      {
        var (raw, rest) := pair.value;
        ghost var raws := PairsFrom(pair);
        assert raws[0] == raw && raws[1..] == PairsFrom(NextPair(rest));
        decodedOk := false;
        if OneStar(raw.name) {
          var decoded := DecodeValue(raw.encoded);
          if decoded.Some? {
            values := Insert(values, Param(raw.name, decoded.value));
            decodedOk := true;
          }
        }
        if decodedOk {
          pair := NextPair(rest);
        }
      }
      if !decodedOk {
        values := [];
      }
    }

    /** Check the signature and parse the pairs; when it fails, no parameter remains. */
    method DecodeToken(token: string) returns (decodedOk: bool)
      modifies this`values
      ensures decodedOk == Under(key)(token).Some?
      ensures values == Decoded(Under(key), token)
      ensures !decodedOk ==> values == []
    {
      decodedOk := false;
      values := [];
      var split := SplitToken(token);
      if split.Some? && split.value.signature == Signature(key, split.value.text) {
        decodedOk := InsertPairs(token);
      }
    }

    /** Encode and sign the state as a single token. */
    method EncodeToken() returns (stateToken: string)
      ensures stateToken == Encode(key, values)
    {
      stateToken := "";
      for i := 0 to |values|
        invariant stateToken + Remaining(values, i) == PairsText(values)
      {
        RemainingStep(values, i, stateToken);
        stateToken := AppendPair(stateToken, values[i], i == 0);
      }
      assert stateToken == PairsText(values);
      var signature := Signature(key, stateToken);
      stateToken := stateToken + ("!" + signature);
    }

    method GetParameter(instance: string, parameter: string) returns (found: bool, value: seq<byte>)
      ensures var name := ParameterName(instance, parameter);
              var r := if name.Some? then Get(values, name.value) else None;
              found == r.Some? && value == if r.Some? then r.value else []
    {
      found, value := false, [];
      var name := ParameterName(instance, parameter);
      if name.Some? {
        var stored := Get(values, name.value);
        if stored.Some? {
          found, value := true, stored.value;
        }
      }
    }

    method SetParameter(instance: string, parameter: string, value: seq<byte>)
      modifies this`values, this`modified
      ensures var name := ParameterName(instance, parameter);
              if mayBeMutable && name.Some? then values == Put(old(values), name.value, value) && modified
              else values == old(values) && modified == old(modified)
      ensures old(Valid()) ==> Valid()
    {
      if mayBeMutable {
        var name := ParameterName(instance, parameter);
        if name.Some? {
          if WellNamed(values) {
            PutWellNamed(values, name.value, value);
          }
          values := Put(values, name.value, value);
          modified := true;
        }
      }
    }

    /** Leaves `modified` alone: an update that follows only a removal rewrites nothing. */
    method UnsetParameter(instance: string, parameter: string)
      modifies this`values
      ensures var name := ParameterName(instance, parameter);
              values == if mayBeMutable && name.Some? then Remove(old(values), name.value) else old(values)
      ensures old(Valid()) ==> Valid()
    {
      if mayBeMutable {
        var name := ParameterName(instance, parameter);
        if name.Some? {
          if WellNamed(values) {
            RemoveWellNamed(values, name.value);
          }
          values := Remove(values, name.value);
        }
      }
    }

    method AddCopy()
      modifies this`addCopyRequested
      ensures addCopyRequested
    {
      addCopyRequested := true;
    }

    /** The caller's From tag: the recorded one, or this message's, which is then recorded. */
    method OriginalCallerFromTagValue() returns (found: bool, fromTagValue: seq<byte>)
      modifies this`values, this`modified
      ensures var recorded := Get(old(values), "*from");
              && (recorded.Some? ==> found && fromTagValue == recorded.value && values == old(values) && modified == old(modified))
              && (recorded.None? && mayBeMutable ==>
                    found && fromTagValue == fromTag && values == Put(old(values), "*from", fromTag) && modified)
              && (recorded.None? && !mayBeMutable ==> !found && fromTagValue == [] && values == old(values) && modified == old(modified))
      ensures old(Valid()) ==> Valid()
    {
      assert ParameterName("", "from") == Some("" + "*" + "from") && "" + "*" + "from" == "*from";
      found, fromTagValue := GetParameter("", "from");
      if !found {
        if mayBeMutable {
          found, fromTagValue := true, fromTag;
          SetParameter("", "from", fromTag);
        }
      }
    }

    /** The loop of update: keep the existing Record-Routes, replace only their state. */
    method RewriteRecordRoutes(request: SipMessage, token: string) returns (routeValue: Route)
      requires recordRouteIndices != []
      requires forall a :: 0 <= a < |recordRouteIndices| ==> recordRouteIndices[a] < |request.recordRoutes|
      modifies request`recordRoutes
      ensures request.recordRoutes == Rewrite(old(request.recordRoutes), recordRouteIndices, token)
      ensures routeValue == request.recordRoutes[recordRouteIndices[|recordRouteIndices| - 1]]
    {
      routeValue := NewRoute(hostPort, token);
      var i := 0;
      while i < |recordRouteIndices|
        invariant i <= |recordRouteIndices|
        invariant request.recordRoutes == Rewrite(old(request.recordRoutes), recordRouteIndices[..i], token)
        invariant i > 0 ==> routeValue == request.recordRoutes[recordRouteIndices[i - 1]]
      {
        var pos := recordRouteIndices[i];
        assert recordRouteIndices[..i + 1][..i] == recordRouteIndices[..i];
        routeValue := request.recordRoutes[pos].WithState(token);
        request.recordRoutes := request.recordRoutes[pos := routeValue];
        i := i + 1;
      }
      assert recordRouteIndices[..i] == recordRouteIndices;
    }

    /** Add or update the state in the Record-Route headers of a mutable request. */
    method Update(request: SipMessage)
      requires forall a :: 0 <= a < |recordRouteIndices| ==> recordRouteIndices[a] < |request.recordRoutes|
      modifies request`recordRoutes
      ensures request.recordRoutes ==
              if mayBeMutable && (modified || addCopyRequested)
              then Updated(hostPort, old(request.recordRoutes), recordRouteIndices, Encode(key, values), addCopyRequested)
              else old(request.recordRoutes)
    {
      if mayBeMutable && (modified || addCopyRequested) {
        ghost var rrs := request.recordRoutes;
        var token := EncodeToken();
        var routeValue := NewRoute(hostPort, token);
        if recordRouteIndices == [] {
          request.recordRoutes := [routeValue] + request.recordRoutes;
        } else {
          routeValue := RewriteRecordRoutes(request, token);
        }
        if addCopyRequested {
          if recordRouteIndices == [] || recordRouteIndices[0] != 0 {
            request.recordRoutes := [routeValue] + request.recordRoutes;
          }
        }
        assert request.recordRoutes == Updated(hostPort, rrs, recordRouteIndices, token, addCopyRequested);
      }
    }
  }

  lemma {:induction false} FoundStops(dec: Decoder, routes: seq<Route>, i: nat, k: nat)
    requires i <= k <= |routes| && FromRoutes(dec, routes, i).found
    ensures FromRoutes(dec, routes, k) == FromRoutes(dec, routes, i)
  {
    if i < k {
      FoundStops(dec, routes, i, k - 1);
    }
  }
}
