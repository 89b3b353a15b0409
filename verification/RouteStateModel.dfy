/**
 * Route state as values: the sorted parameter list, what a message's routes say, and what
 * updating a message does to its Record-Route headers.
 *
 * A route header is a record: the host and port, the URL parameters, and whether its text
 * mentions the state parameter's name anywhere else (the code tests the text first).
 */
module RouteStateModel {
  import opened Common
  import opened RouteToken
  import Base64

  const STATE_PARAMETER := "sipXecs-rs"

  datatype Route = Route(hostPort: string, parameters: map<string, string>, mentions: bool) {
    predicate Carries() {
      STATE_PARAMETER in parameters
    }

    predicate Contains() {
      Carries() || mentions
    }

    function WithState(token: string): (r: Route) {
      this.(parameters := parameters[STATE_PARAMETER := token])
    }
  }

  // ----- the parameter list -----

  /** find: the element with exactly this name, in a sorted list. */
  predicate Has(ps: seq<Param>, name: string) {
    var k := Position(ps, name);
    k < |ps| && ps[k].name == name
  }

  function Get(ps: seq<Param>, name: string): (r: Option<seq<byte>>) {
    if Has(ps, name) then Some(ps[Position(ps, name)].value) else None
  }

  function Put(ps: seq<Param>, name: string, value: seq<byte>): (r: seq<Param>) {
    if Has(ps, name) then ps[Position(ps, name) := Param(name, value)] else Insert(ps, Param(name, value))
  }

  function Remove(ps: seq<Param>, name: string): (r: seq<Param>) {
    if Has(ps, name) then
      var k := Position(ps, name);
      ps[..k] + ps[k + 1..]
    else ps
  }

  // ----- reading a message -----

  /** How a message's tokens are decoded; see `Under`. */
  type Decoder = string -> Option<seq<Param>>

  function Under(key: Key): (dec: Decoder) {
    token => Decode(key, token)
  }

  /** What decoding leaves in the list: nothing when it fails. */
  function Decoded(dec: Decoder, token: string): (ps: seq<Param>) {
    var r := dec(token);
    if r.Some? then r.value else []
  }

  /** Progress over the routes removed from the request: they are read until one decodes. */
  datatype Sought = Sought(values: seq<Param>, found: bool)

  function Seek(dec: Decoder, route: Route, sought: Sought): (r: Sought) {
    if sought.found || !route.Carries() then sought
    else Sought(Decoded(dec, route.parameters[STATE_PARAMETER]), dec(route.parameters[STATE_PARAMETER]).Some?)
  }

  function FromRoutes(dec: Decoder, routes: seq<Route>, k: nat): (r: Sought)
    requires k <= |routes|
  {
    if k == 0 then Sought([], false) else Seek(dec, routes[k - 1], FromRoutes(dec, routes, k - 1))
  }

  /** Progress over the Record-Routes: the list, whether state was found, which ones are ours. */
  datatype Seen = Seen(values: seq<Param>, found: bool, indices: seq<nat>)

  function Look(dec: Decoder, hostPort: string, rr: Route, i: nat, seen: Seen): (r: Seen) {
    if rr.Contains() then
      if rr.Carries() then
        var token := rr.parameters[STATE_PARAMETER];
        if dec(token).Some? then Seen(Decoded(dec, token), true, seen.indices + [i])
        else seen.(values := [])
      else seen
    else if rr.hostPort == hostPort then seen.(indices := seen.indices + [i])
    else seen
  }

  function FromRecordRoutes(dec: Decoder, hostPort: string, rrs: seq<Route>, start: seq<Param>, k: nat): (seen: Seen)
    requires k <= |rrs|
  {
    if k == 0 then Seen(start, false, [])
    else Look(dec, hostPort, rrs[k - 1], k - 1, FromRecordRoutes(dec, hostPort, rrs, start, k - 1))
  }

  datatype MessageKind = MessageKind(isResponse: bool, isAck: bool, hasToTag: bool)

  /** A request that carries state in its Record-Routes, or may be the first of a dialog. */
  predicate IsMutable(kind: MessageKind, found: bool) {
    !kind.isResponse && (found || (!kind.isAck && !kind.hasToTag))
  }

  datatype Reading = Reading(values: seq<Param>, found: bool, isMutable: bool, indices: seq<nat>)

  /** A Route that decodes settles it and is not mutable; else the Record-Routes are read. */
  function Read(dec: Decoder, hostPort: string, routes: seq<Route>, rrs: seq<Route>, kind: MessageKind): (r: Reading) {
    var sought := FromRoutes(dec, routes, |routes|);
    if sought.found then Reading(sought.values, true, false, [])
    else
      var seen := FromRecordRoutes(dec, hostPort, rrs, sought.values, |rrs|);
      Reading(seen.values, seen.found, IsMutable(kind, seen.found), seen.indices)
  }

  // ----- updating a message -----

  function NewRoute(hostPort: string, token: string): (r: Route) {
    Route(hostPort, map["lr" := "", STATE_PARAMETER := token], false)
  }

  /** The Record-Routes at `indices` with their state replaced. */
  function Rewrite(rrs: seq<Route>, indices: seq<nat>, token: string): (r: seq<Route>)
    requires forall i :: 0 <= i < |indices| ==> indices[i] < |rrs|
    ensures |r| == |rrs|
  {
    if indices == [] then rrs
    else
      var n := |indices| - 1;
      var r := Rewrite(rrs, indices[..n], token);
      r[indices[n] := r[indices[n]].WithState(token)]
  }

  /** The routes update puts on top: a new one if none was ours, and perhaps a copy. */
  function Pushed(hostPort: string, rrs: seq<Route>, indices: seq<nat>, token: string, addCopy: bool): (r: seq<Route>)
    requires forall i :: 0 <= i < |indices| ==> indices[i] < |rrs|
  {
    if indices == [] then
      if addCopy then [NewRoute(hostPort, token), NewRoute(hostPort, token)] else [NewRoute(hostPort, token)]
    else if addCopy && indices[0] != 0 then [Rewrite(rrs, indices, token)[indices[|indices| - 1]]]
    else []
  }

  function Updated(hostPort: string, rrs: seq<Route>, indices: seq<nat>, token: string, addCopy: bool): (r: seq<Route>)
    requires forall i :: 0 <= i < |indices| ==> indices[i] < |rrs|
  {
    Pushed(hostPort, rrs, indices, token, addCopy) + Rewrite(rrs, indices, token)
  }
}
