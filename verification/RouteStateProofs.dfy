/**
 * The parameter list behaves as a dictionary, and a route state rebuilt from an updated
 * message holds the same parameters.
 */
module RouteStateProofs {
  import opened Common
  import Base64
  import opened RouteToken
  import opened RouteTokenProofs
  import opened RouteStateModel

  // ----- the order on names -----

  lemma {:induction false} LessIrreflexive(a: string)
    ensures !Less(a, a)
  {
    if a != "" {
      LessIrreflexive(a[1..]);
    }
  }

  lemma {:induction false} LessTotal(a: string, b: string)
    ensures Less(a, b) || a == b || Less(b, a)
  {
    if a != "" && b != "" && a[0] == b[0] {
      LessTotal(a[1..], b[1..]);
      assert a == [a[0]] + a[1..] && b == [b[0]] + b[1..];
    }
  }

  lemma {:induction false} LessTransitive(a: string, b: string, c: string)
    requires Less(a, b) && Less(b, c)
    ensures Less(a, c)
  {
    if a != "" && a[0] == b[0] && b[0] == c[0] {
      LessTransitive(a[1..], b[1..], c[1..]);
    }
  }

  // ----- the list as a dictionary -----

  /** In a sorted list a name stands only at its position. */
  lemma NamePosition(ps: seq<Param>, name: string, i: nat)
    requires Sorted(ps) && i < |ps| && ps[i].name == name
    ensures Position(ps, name) == i
  {
    var k := Position(ps, name);
    LessIrreflexive(name);
    assert k <= i;
  }

  lemma GetIsMembership(ps: seq<Param>, name: string, value: seq<byte>)
    requires Sorted(ps)
    ensures Get(ps, name) == Some(value) <==> Param(name, value) in ps
  {
    forall i: nat | i < |ps| && ps[i].name == name
      ensures Position(ps, name) == i
    {
      NamePosition(ps, name, i);
    }
  }

  /** Elements from the position on come after a name that is not there. */
  lemma AfterPosition(ps: seq<Param>, name: string, i: nat)
    requires Sorted(ps) && !Has(ps, name) && Position(ps, name) <= i < |ps|
    ensures Less(name, ps[i].name)
  {
    var k := Position(ps, name);
    LessTotal(ps[k].name, name);
    if k < i {
      LessTransitive(name, ps[k].name, ps[i].name);
    }
  }

  lemma PutSorted(ps: seq<Param>, name: string, value: seq<byte>)
    requires Sorted(ps)
    ensures Sorted(Put(ps, name, value))
  {
    var k, r := Position(ps, name), Put(ps, name, value);
    if Has(ps, name) {
      assert forall i :: 0 <= i < |ps| ==> r[i].name == ps[i].name;
    } else {
      forall i, j | 0 <= i < j < |r|
        ensures Less(r[i].name, r[j].name)
      {
        if i == k {
          AfterPosition(ps, name, j - 1);
        }
      }
    }
  }

  lemma RemoveSorted(ps: seq<Param>, name: string)
    requires Sorted(ps)
    ensures Sorted(Remove(ps, name))
  {
  }

  /** setParameter then getParameter; every other name is left alone. */
  lemma GetAfterPut(ps: seq<Param>, name: string, value: seq<byte>, other: string)
    requires Sorted(ps)
    ensures Get(Put(ps, name, value), other) == if other == name then Some(value) else Get(ps, other)
  {
    var r, k := Put(ps, name, value), Position(ps, name);
    PutSorted(ps, name, value);
    forall v
      ensures Param(other, v) in r <==> if other == name then v == value else Param(other, v) in ps
    {
      PutContents(ps, name, value, Param(other, v));
    }
    if other == name {
      GetIsMembership(r, other, value);
    } else if Get(ps, other).Some? {
      GetIsMembership(ps, other, Get(ps, other).value);
      GetIsMembership(r, other, Get(ps, other).value);
    } else if Get(r, other).Some? {
      GetIsMembership(r, other, Get(r, other).value);
      GetIsMembership(ps, other, Get(r, other).value);
    }
  }

  lemma PutContents(ps: seq<Param>, name: string, value: seq<byte>, p: Param)
    requires Sorted(ps)
    ensures p in Put(ps, name, value) <==> if p.name == name then p.value == value else p in ps
  {
    var r, k := Put(ps, name, value), Position(ps, name);
    assert r[k] == Param(name, value);
    if Has(ps, name) {
      forall i: nat | i < |ps| && i != k
        ensures r[i] == ps[i] && ps[i].name != name
      {
        if ps[i].name == name {
          NamePosition(ps, name, i);
        }
      }
    } else {
      forall i: nat | i < |ps|
        ensures ps[i] == r[if i < k then i else i + 1] && ps[i].name != name
      {
        if ps[i].name == name {
          NamePosition(ps, name, i);
        }
      }
    }
  }

  lemma RemoveContents(ps: seq<Param>, name: string, p: Param)
    requires Sorted(ps)
    ensures p in Remove(ps, name) <==> p in ps && p.name != name
  {
    var r, k := Remove(ps, name), Position(ps, name);
    if Has(ps, name) {
      forall i: nat | i < |ps| && i != k
        ensures ps[i] == r[if i < k then i else i - 1] && ps[i].name != name
      {
        if ps[i].name == name {
          NamePosition(ps, name, i);
        }
      }
    } else if p in ps && p.name == name {
      var i: nat :| i < |ps| && ps[i] == p;
      NamePosition(ps, name, i);
    }
  }

  /** unsetParameter then getParameter. */
  lemma GetAfterRemove(ps: seq<Param>, name: string, other: string)
    requires Sorted(ps)
    ensures Get(Remove(ps, name), other) == if other == name then None else Get(ps, other)
  {
    var r := Remove(ps, name);
    RemoveSorted(ps, name);
    if Get(r, other).Some? {
      var v := Get(r, other).value;
      GetIsMembership(r, other, v);
      RemoveContents(ps, name, Param(other, v));
      GetIsMembership(ps, other, v);
    } else if other != name && Get(ps, other).Some? {
      var v := Get(ps, other).value;
      GetIsMembership(ps, other, v);
      RemoveContents(ps, name, Param(other, v));
      GetIsMembership(r, other, v);
    }
  }

  // ----- which Record-Routes are ours -----

  /** It carries state that does not decode under this key. */
  predicate Stale(dec: Decoder, rr: Route) {
    rr.Carries() && dec(rr.parameters[STATE_PARAMETER]).None?
  }

  /** Its state decodes, or it names our host and port and mentions no state. */
  predicate Ours(dec: Decoder, hostPort: string, rr: Route) {
    if rr.Carries() then dec(rr.parameters[STATE_PARAMETER]).Some?
    else !rr.Contains() && rr.hostPort == hostPort
  }

  lemma {:induction false} IndicesAreOurs(dec: Decoder, hostPort: string, rrs: seq<Route>, start: seq<Param>, k: nat)
    requires k <= |rrs|
    ensures var ix := FromRecordRoutes(dec, hostPort, rrs, start, k).indices;
            && (forall i: nat :: i in ix <==> i < k && Ours(dec, hostPort, rrs[i]))
            && (forall a, b :: 0 <= a < b < |ix| ==> ix[a] < ix[b])
  {
    if k > 0 {
      IndicesAreOurs(dec, hostPort, rrs, start, k - 1);
      var seen := FromRecordRoutes(dec, hostPort, rrs, start, k - 1);
      var ix := FromRecordRoutes(dec, hostPort, rrs, start, k).indices;
      assert ix == if Ours(dec, hostPort, rrs[k - 1]) then seen.indices + [k - 1] else seen.indices;
      IndexAppended(seen.indices, k - 1);
    }
  }

  lemma IndexAppended(ix: seq<nat>, n: nat)
    requires forall a, b :: 0 <= a < b < |ix| ==> ix[a] < ix[b]
    requires forall i :: i in ix ==> i < n
    ensures forall i :: i in ix + [n] <==> i in ix || i == n
    ensures forall a, b :: 0 <= a < b < |ix + [n]| ==> (ix + [n])[a] < (ix + [n])[b]
  {
    assert forall a :: 0 <= a < |ix| ==> ix[a] in ix;
  }

  /** The last Record-Route that carries state, or -1. */
  function LastCarrier(rrs: seq<Route>, k: nat): (j: int)
    requires k <= |rrs|
    ensures -1 <= j < k
    ensures j >= 0 ==> rrs[j].Carries()
    ensures forall i :: j < i < k ==> !rrs[i].Carries()
  {
    if k == 0 then -1 else if rrs[k - 1].Carries() then k - 1 else LastCarrier(rrs, k - 1)
  }

  /** The list a message yields is the one of its last carrier, decoded or not. */
  lemma {:induction false} LastCarrierWins(dec: Decoder, hostPort: string, rrs: seq<Route>, start: seq<Param>, k: nat)
    requires k <= |rrs|
    ensures var j := LastCarrier(rrs, k);
            FromRecordRoutes(dec, hostPort, rrs, start, k).values ==
              if j < 0 then start else Decoded(dec, rrs[j].parameters[STATE_PARAMETER])
  {
    if k > 0 {
      LastCarrierWins(dec, hostPort, rrs, start, k - 1);
    }
  }

  lemma {:induction false} FoundIffSomeDecodes(dec: Decoder, hostPort: string, rrs: seq<Route>, start: seq<Param>, k: nat)
    requires k <= |rrs|
    ensures FromRecordRoutes(dec, hostPort, rrs, start, k).found <==>
            exists i: nat :: i < k && rrs[i].Carries() && !Stale(dec, rrs[i])
  {
    if k > 0 {
      FoundIffSomeDecodes(dec, hostPort, rrs, start, k - 1);
    }
  }

  // ----- the updated message -----

  lemma {:induction false} RewriteOnlyOurs(rrs: seq<Route>, indices: seq<nat>, token: string, i: nat)
    requires (forall a :: 0 <= a < |indices| ==> indices[a] < |rrs|) && i < |rrs|
    ensures Rewrite(rrs, indices, token)[i] == if i in indices then rrs[i].WithState(token) else rrs[i]
    decreases |indices|
  {
    if indices != [] {
      var n := |indices| - 1;
      RewriteOnlyOurs(rrs, indices[..n], token, i);
      assert indices == indices[..n] + [indices[n]];
    }
  }

  ghost predicate AllCarry(rrs: seq<Route>, token: string) {
    forall i :: 0 <= i < |rrs| ==> rrs[i].Carries() && rrs[i].parameters[STATE_PARAMETER] == token
  }

  lemma PushedCarry(hostPort: string, rrs: seq<Route>, indices: seq<nat>, token: string, addCopy: bool)
    requires forall a :: 0 <= a < |indices| ==> indices[a] < |rrs|
    ensures AllCarry(Pushed(hostPort, rrs, indices, token, addCopy), token)
    ensures indices == [] ==> Pushed(hostPort, rrs, indices, token, addCopy) != []
  {
    if indices != [] {
      RewriteOnlyOurs(rrs, indices, token, indices[|indices| - 1]);
    }
  }

  lemma {:induction false} LastCarrierOfConcat(a: seq<Route>, b: seq<Route>, k: nat)
    requires k <= |b|
    ensures var j := LastCarrier(b, k);
            LastCarrier(a + b, |a| + k) == if j >= 0 then |a| + j else LastCarrier(a, |a|)
  {
    if k == 0 {
      LastCarrierPrefix(a, b, |a|);
    } else {
      LastCarrierOfConcat(a, b, k - 1);
    }
  }

  lemma {:induction false} LastCarrierPrefix(a: seq<Route>, b: seq<Route>, k: nat)
    requires k <= |a|
    ensures LastCarrier(a + b, k) == LastCarrier(a, k)
  {
    if k > 0 {
      LastCarrierPrefix(a, b, k - 1);
    }
  }

  /** Every stale Record-Route has one of ours below it. */
  ghost predicate StaleCovered(dec: Decoder, hostPort: string, rrs: seq<Route>) {
    forall j: nat :: j < |rrs| && Stale(dec, rrs[j]) ==>
      exists i: nat :: j < i < |rrs| && Ours(dec, hostPort, rrs[i])
  }

  /** The last carrier of the rewritten headers is ours exactly when the stale ones are covered. */
  lemma LastOfRewritten(dec: Decoder, hostPort: string, rrs: seq<Route>, indices: seq<nat>, token: string)
    requires forall i: nat :: i in indices <==> i < |rrs| && Ours(dec, hostPort, rrs[i])
    requires forall a :: 0 <= a < |indices| ==> indices[a] < |rrs|
    ensures var b := Rewrite(rrs, indices, token);
            var j := LastCarrier(b, |b|);
            StaleCovered(dec, hostPort, rrs) <==> (j < 0 || j in indices)
  {
    var b := Rewrite(rrs, indices, token);
    var j := LastCarrier(b, |b|);
    forall i: nat | i < |rrs|
      ensures b[i].Carries() <==> i in indices || Stale(dec, rrs[i])
      ensures Stale(dec, rrs[i]) ==> i !in indices
    {
      RewriteOnlyOurs(rrs, indices, token, i);
    }
    if j >= 0 && j !in indices {
      assert Stale(dec, rrs[j]);
      forall i: nat | j < i < |rrs|
        ensures !Ours(dec, hostPort, rrs[i])
      {
        assert !b[i].Carries();
      }
    } else {
      forall s: nat | s < |rrs| && Stale(dec, rrs[s])
        ensures exists i: nat :: s < i < |rrs| && Ours(dec, hostPort, rrs[i])
      {
        assert b[s].Carries();
        assert s < j < |rrs| && Ours(dec, hostPort, rrs[j]);
      }
    }
  }

  /** The last carrier of the updated message: ours if the stale ones are covered, else stale. */
  lemma LastOfUpdated(dec: Decoder, hostPort: string, rrs: seq<Route>, ix: seq<nat>, token: string, addCopy: bool)
    requires forall i: nat :: i in ix <==> i < |rrs| && Ours(dec, hostPort, rrs[i])
    requires forall a :: 0 <= a < |ix| ==> ix[a] < |rrs|
    ensures var out := Updated(hostPort, rrs, ix, token, addCopy);
            var l := LastCarrier(out, |out|);
            && l >= 0
            && if StaleCovered(dec, hostPort, rrs) then out[l].parameters[STATE_PARAMETER] == token else Stale(dec, out[l])
  {
    var a, b := Pushed(hostPort, rrs, ix, token, addCopy), Rewrite(rrs, ix, token);
    PushedCarry(hostPort, rrs, ix, token, addCopy);
    LastOfRewritten(dec, hostPort, rrs, ix, token);
    var j := LastCarrier(b, |b|);
    if j < 0 {
      NoCarrierMeansNoneOurs(rrs, ix, token);
      LastInFirst(a, b, token);
    } else {
      LastInSecond(a, b, j);
      RewriteOnlyOurs(rrs, ix, token, j);
    }
  }

  lemma LastInFirst(a: seq<Route>, b: seq<Route>, token: string)
    requires a != [] && AllCarry(a, token) && LastCarrier(b, |b|) < 0
    ensures var l := LastCarrier(a + b, |a + b|); l >= 0 && (a + b)[l].parameters[STATE_PARAMETER] == token
  {
    LastCarrierOfConcat(a, b, |b|);
    assert (a + b)[|a| - 1] == a[|a| - 1];
  }

  lemma LastInSecond(a: seq<Route>, b: seq<Route>, j: nat)
    requires LastCarrier(b, |b|) == j
    ensures var l := LastCarrier(a + b, |a + b|); l >= 0 && (a + b)[l] == b[j]
  {
    LastCarrierOfConcat(a, b, |b|);
    assert (a + b)[|a| + j] == b[j];
  }

  lemma OneOfUpdatedDecodes(hostPort: string, rrs: seq<Route>, ix: seq<nat>, token: string, addCopy: bool) returns (i: nat)
    requires forall a :: 0 <= a < |ix| ==> ix[a] < |rrs|
    ensures var out := Updated(hostPort, rrs, ix, token, addCopy);
            i < |out| && out[i].Carries() && out[i].parameters[STATE_PARAMETER] == token
  {
    var a, b := Pushed(hostPort, rrs, ix, token, addCopy), Rewrite(rrs, ix, token);
    PushedCarry(hostPort, rrs, ix, token, addCopy);
    var out := a + b;
    if ix == [] {
      i := 0;
      assert out[i] == a[0];
    } else {
      RewriteOnlyOurs(rrs, ix, token, ix[0]);
      assert ix[0] in ix;
      i := |a| + ix[0];
      assert out[i] == rrs[ix[0]].WithState(token);
    }
  }

  /** A token that does not decode leaves nothing in the updated message that does. */
  lemma NoneOfUpdatedDecodes(dec: Decoder, hostPort: string, rrs: seq<Route>, ix: seq<nat>, token: string, addCopy: bool)
    requires dec(token).None?
    requires forall i: nat :: i in ix <==> i < |rrs| && Ours(dec, hostPort, rrs[i])
    requires forall a :: 0 <= a < |ix| ==> ix[a] < |rrs|
    ensures var out := Updated(hostPort, rrs, ix, token, addCopy);
            forall i: nat :: i < |out| && out[i].Carries() ==> Stale(dec, out[i])
  {
    var a, b := Pushed(hostPort, rrs, ix, token, addCopy), Rewrite(rrs, ix, token);
    PushedCarry(hostPort, rrs, ix, token, addCopy);
    forall i: nat | i < |b| && b[i].Carries()
      ensures Stale(dec, b[i])
    {
      RewriteOnlyOurs(rrs, ix, token, i);
    }
    forall i: nat | i < |a + b| && (a + b)[i].Carries()
      ensures Stale(dec, (a + b)[i])
    {
      assert (a + b)[i] == if i < |a| then a[i] else b[i - |a|];
    }
  }

  /** What a route state rebuilt from an updated message holds. */
  lemma RebuiltFrom(dec: Decoder, hostPort: string, rrs: seq<Route>, ix: seq<nat>, token: string, addCopy: bool, again: seq<Param>)
    requires forall i: nat :: i in ix <==> i < |rrs| && Ours(dec, hostPort, rrs[i])
    requires forall a :: 0 <= a < |ix| ==> ix[a] < |rrs|
    ensures var out := Updated(hostPort, rrs, ix, token, addCopy);
            var seen := FromRecordRoutes(dec, hostPort, out, again, |out|);
            && seen.values == (if StaleCovered(dec, hostPort, rrs) then Decoded(dec, token) else [])
            && (seen.found <==> dec(token).Some?)
  {
    var out := Updated(hostPort, rrs, ix, token, addCopy);
    FoundIffSomeDecodes(dec, hostPort, out, again, |out|);
    if dec(token).Some? {
      var i := OneOfUpdatedDecodes(hostPort, rrs, ix, token, addCopy);
    } else {
      NoneOfUpdatedDecodes(dec, hostPort, rrs, ix, token, addCopy);
    }
    LastOfUpdated(dec, hostPort, rrs, ix, token, addCopy);
    LastCarrierWins(dec, hostPort, out, again, |out|);
  }

  /**
   * After update writes a parameter list, a route state rebuilt from the message's Record-Routes
   * has found state exactly when there are parameters and all their names survive the token; it
   * holds the same parameters if and only if, unless there are none, that is so and every
   * Record-Route with stale state has one of ours below it; in particular when every carrier had
   * decoded.
   */
  lemma RebuiltStateIsTheSame(key: Key, hostPort: string, rrs: seq<Route>, start: seq<Param>, ps: seq<Param>, addCopy: bool, again: seq<Param>)
    requires Sorted(ps) && AllAccepted(ps)
    ensures var ix := FromRecordRoutes(Under(key), hostPort, rrs, start, |rrs|).indices;
            && (forall a :: 0 <= a < |ix| ==> ix[a] < |rrs|)
            && var out := Updated(hostPort, rrs, ix, Encode(key, ps), addCopy);
               var seen := FromRecordRoutes(Under(key), hostPort, out, again, |out|);
               && (seen.found <==> ps != [] && AllSurvive(ps))
               && (seen.values == ps <==> ps == [] || (AllSurvive(ps) && StaleCovered(Under(key), hostPort, rrs)))
  {
    var dec := Under(key);
    var ix := FromRecordRoutes(dec, hostPort, rrs, start, |rrs|).indices;
    IndicesAreOurs(dec, hostPort, rrs, start, |rrs|);
    assert forall a :: 0 <= a < |ix| ==> ix[a] in ix;
    RoundTrip(key, ps);
    RebuiltFrom(dec, hostPort, rrs, ix, Encode(key, ps), addCopy, again);
  }

  /** The caller's tag, as originalCallerFromTagValue records it. */
  function FromTag(value: seq<byte>): (ps: seq<Param>) { [Param("*from", value)] }

  lemma FromTagSurvives(value: seq<byte>)
    ensures Sorted(FromTag(value)) && AllAccepted(FromTag(value)) && AllSurvive(FromTag(value))
  {
    assert ParameterName("", "from") == Some("" + "*" + "from") && "" + "*" + "from" == "*from";
  }

  lemma StaleLastIsUncovered(dec: Decoder, hostPort: string, rrs: seq<Route>)
    requires rrs != [] && Stale(dec, rrs[|rrs| - 1])
    ensures !StaleCovered(dec, hostPort, rrs)
  {
  }

  /** Our Record-Route on top of one whose state does not decode: after an update it is not read back. */
  lemma StaleBelowHidesOurs(key: Key, hostPort: string, value: seq<byte>)
    ensures var ps := FromTag(value);
            var rrs := [NewRoute(hostPort, Encode(key, ps)), Route("192.0.2.1", map[STATE_PARAMETER := "x"], false)];
            var ix := FromRecordRoutes(Under(key), hostPort, rrs, [], 2).indices;
            && (forall a :: 0 <= a < |ix| ==> ix[a] < |rrs|)
            && var out := Updated(hostPort, rrs, ix, Encode(key, ps), false);
               FromRecordRoutes(Under(key), hostPort, out, [], |out|).values != ps
  {
    var ps := FromTag(value);
    var rrs := [NewRoute(hostPort, Encode(key, ps)), Route("192.0.2.1", map[STATE_PARAMETER := "x"], false)];
    FromTagSurvives(value);
    StaleLastIsUncovered(Under(key), hostPort, rrs);
    RebuiltStateIsTheSame(key, hostPort, rrs, [], ps, false, []);
  }

  // ----- over the life of a route state -----

  /** What every list that only setParameter ever wrote is. */
  ghost predicate WellNamed(ps: seq<Param>) {
    Sorted(ps) && AllAccepted(ps)
  }

  lemma PutWellNamed(ps: seq<Param>, name: string, value: seq<byte>)
    requires WellNamed(ps) && Accepted(name)
    ensures WellNamed(Put(ps, name, value))
  {
    var r := Put(ps, name, value);
    PutSorted(ps, name, value);
    forall i | 0 <= i < |r|
      ensures Accepted(r[i].name)
    {
      PutContents(ps, name, value, r[i]);
    }
  }

  lemma RemoveWellNamed(ps: seq<Param>, name: string)
    requires WellNamed(ps)
    ensures WellNamed(Remove(ps, name))
  {
    RemoveSorted(ps, name);
  }

  /** It carries no state, or a token that encoding a list under this key produced, or a stale one. */
  ghost predicate Produced(key: Key, route: Route) {
    route.Carries() && !Stale(Under(key), route) ==>
      exists ps :: WellNamed(ps) && route.parameters[STATE_PARAMETER] == Encode(key, ps)
  }

  ghost predicate AllProduced(key: Key, routes: seq<Route>) {
    forall i :: 0 <= i < |routes| ==> Produced(key, routes[i])
  }

  lemma ProducedDecodes(key: Key, route: Route)
    requires Produced(key, route) && route.Carries()
    ensures WellNamed(Decoded(Under(key), route.parameters[STATE_PARAMETER]))
  {
    if !Stale(Under(key), route) {
      var ps :| WellNamed(ps) && route.parameters[STATE_PARAMETER] == Encode(key, ps);
      RoundTrip(key, ps);
    }
  }

  lemma {:induction false} RoutesWellNamed(key: Key, routes: seq<Route>, k: nat)
    requires k <= |routes| && AllProduced(key, routes)
    ensures WellNamed(FromRoutes(Under(key), routes, k).values)
  {
    if k > 0 {
      RoutesWellNamed(key, routes, k - 1);
      if routes[k - 1].Carries() {
        ProducedDecodes(key, routes[k - 1]);
      }
    }
  }

  lemma RecordRoutesWellNamed(key: Key, hostPort: string, rrs: seq<Route>, start: seq<Param>)
    requires WellNamed(start) && AllProduced(key, rrs)
    ensures WellNamed(FromRecordRoutes(Under(key), hostPort, rrs, start, |rrs|).values)
  {
    LastCarrierWins(Under(key), hostPort, rrs, start, |rrs|);
    var j := LastCarrier(rrs, |rrs|);
    if j >= 0 {
      ProducedDecodes(key, rrs[j]);
    }
  }

  /** The state of a message that carries only what encoding produced, or stale state. */
  lemma ReadIsWellNamed(key: Key, hostPort: string, routes: seq<Route>, rrs: seq<Route>, kind: MessageKind)
    requires AllProduced(key, routes) && AllProduced(key, rrs)
    ensures WellNamed(Read(Under(key), hostPort, routes, rrs, kind).values)
  {
    RoutesWellNamed(key, routes, |routes|);
    RecordRoutesWellNamed(key, hostPort, rrs, FromRoutes(Under(key), routes, |routes|).values);
  }

  /** What update writes is again what encoding produced. */
  lemma UpdatedIsProduced(key: Key, hostPort: string, rrs: seq<Route>, ix: seq<nat>, ps: seq<Param>, addCopy: bool)
    requires WellNamed(ps) && AllProduced(key, rrs) && forall a :: 0 <= a < |ix| ==> ix[a] < |rrs|
    ensures AllProduced(key, Updated(hostPort, rrs, ix, Encode(key, ps), addCopy))
  {
    var token := Encode(key, ps);
    var a, b := Pushed(hostPort, rrs, ix, token, addCopy), Rewrite(rrs, ix, token);
    PushedCarry(hostPort, rrs, ix, token, addCopy);
    forall i: nat | i < |b|
      ensures Produced(key, b[i])
    {
      RewriteOnlyOurs(rrs, ix, token, i);
    }
    forall i: nat | i < |a|
      ensures Produced(key, a[i])
    {
      assert a[i].parameters[STATE_PARAMETER] == token;
    }
  }

  lemma NoCarrierMeansNoneOurs(rrs: seq<Route>, indices: seq<nat>, token: string)
    requires forall a :: 0 <= a < |indices| ==> indices[a] < |rrs|
    requires var b := Rewrite(rrs, indices, token); LastCarrier(b, |b|) < 0
    ensures indices == []
  {
    if indices != [] {
      RewriteOnlyOurs(rrs, indices, token, indices[0]);
    }
  }

  /** With Record-Routes of ours and no copy asked for, only the state parameter of ours changes. */
  lemma UpdateTouchesOnlyOurState(dec: Decoder, hostPort: string, rrs: seq<Route>, start: seq<Param>, token: string, i: nat)
    requires i < |rrs| && FromRecordRoutes(dec, hostPort, rrs, start, |rrs|).indices != []
    ensures var ix := FromRecordRoutes(dec, hostPort, rrs, start, |rrs|).indices;
            && (forall a :: 0 <= a < |ix| ==> ix[a] < |rrs|)
            && var out := Updated(hostPort, rrs, ix, token, false);
               && |out| == |rrs|
               && out[i] == if Ours(dec, hostPort, rrs[i]) then rrs[i].WithState(token) else rrs[i]
  {
    var ix := FromRecordRoutes(dec, hostPort, rrs, start, |rrs|).indices;
    IndicesAreOurs(dec, hostPort, rrs, start, |rrs|);
    assert forall a :: 0 <= a < |ix| ==> ix[a] in ix;
    RewriteOnlyOurs(rrs, ix, token, i);
    assert Updated(hostPort, rrs, ix, token, false) == Rewrite(rrs, ix, token);
  }
}
