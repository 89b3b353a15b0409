/**
 * A route state over its whole life: built from a message, changed by any sequence of plugin
 * calls, written into the message, and built again at the next hop.
 */
module RouteStateLife {
  import opened Common
  import opened RouteToken
  import opened RouteTokenProofs
  import opened RouteStateModel
  import opened RouteStateProofs
  import opened RouteState
  import opened RouteStateLaws

  /** What a plugin may ask of a route state. */
  datatype PluginCall =
    | Set(instance: string, parameter: string, value: seq<byte>)
    | Unset(instance: string, parameter: string)
    | AskCaller
    | Copy

  /** Any calls leave the list sorted and well named, and the other fields of the reading alone. */
  method Serve(state: RouteState, calls: seq<PluginCall>)
    modifies state`values, state`modified, state`addCopyRequested
    ensures old(state.Valid()) ==> state.Valid()
    ensures !state.mayBeMutable ==> state.values == old(state.values)
  {
    for i := 0 to |calls|
      invariant old(state.Valid()) ==> state.Valid()
      invariant !state.mayBeMutable ==> state.values == old(state.values)
    {
      match calls[i] {
        case Set(instance, parameter, value) => state.SetParameter(instance, parameter, value);
        case Unset(instance, parameter) => state.UnsetParameter(instance, parameter);
        case AskCaller => var found, tag := state.OriginalCallerFromTagValue();
        case Copy => state.AddCopy();
      }
    }
  }

  /** The state of a message, whose routes carry only what this key's holder wrote, or stale state. */
  method Build(md5: Md5, secret: string, message: SipMessage, routes: seq<Route>, hostPort: string) returns (state: RouteState)
    requires var key := Key(md5, secret, message.callId); AllProduced(key, routes) && AllProduced(key, message.recordRoutes)
    ensures fresh(state) && state.Valid() && !state.modified && !state.addCopyRequested
    ensures state.key == Key(md5, secret, message.callId) && state.hostPort == hostPort
    ensures Reading(state.values, state.foundRouteState, state.mayBeMutable, state.recordRouteIndices)
         == Read(Under(state.key), hostPort, routes, message.recordRoutes, message.Kind())
  {
    state := new RouteState(md5, secret, message, routes, hostPort);
    ReadIsWellNamed(state.key, hostPort, routes, message.recordRoutes, message.Kind());
  }

  /** What this hop wrote, if it wrote anything, and what the next one reads. */
  ghost predicate ReadsBack(key: Key, hostPort: string, before: seq<Route>, ps: seq<Param>, next: seq<Param>) {
    next == ps <==> ps == [] || (AllSurvive(ps) && StaleCovered(Under(key), hostPort, before))
  }

  lemma IndicesInRange(dec: Decoder, hostPort: string, routes: seq<Route>, rrs: seq<Route>, kind: MessageKind)
    ensures var ix := Read(dec, hostPort, routes, rrs, kind).indices; forall a :: 0 <= a < |ix| ==> ix[a] < |rrs|
  {
    var sought := FromRoutes(dec, routes, |routes|);
    IndicesAreOurs(dec, hostPort, rrs, sought.values, |rrs|);
    var ix := FromRecordRoutes(dec, hostPort, rrs, sought.values, |rrs|).indices;
    assert forall a :: 0 <= a < |ix| ==> ix[a] in ix;
  }

  /** A mutable state, written and read again. */
  lemma WrittenReadsBack(key: Key, hostPort: string, routes: seq<Route>, rrs: seq<Route>, kind: MessageKind, ps: seq<Param>, addCopy: bool)
    requires Read(Under(key), hostPort, routes, rrs, kind).isMutable && WellNamed(ps)
    ensures var ix := Read(Under(key), hostPort, routes, rrs, kind).indices;
            && (forall a :: 0 <= a < |ix| ==> ix[a] < |rrs|)
            && var out := Updated(hostPort, rrs, ix, Encode(key, ps), addCopy);
               ReadsBack(key, hostPort, rrs, ps, Read(Under(key), hostPort, [], out, kind).values)
  {
    var sought := FromRoutes(Under(key), routes, |routes|);
    RebuiltStateIsTheSame(key, hostPort, rrs, sought.values, ps, addCopy, []);
  }

  /**
   * One hop and the next. The message still carries only what this key's holder wrote, or stale
   * state, so the next hop may do the same; and if this hop wrote its state, the next one holds the
   * same parameters exactly when their names survive and no stale Record-Route hides them.
   */
  method Relay(md5: Md5, secret: string, message: SipMessage, routes: seq<Route>, hostPort: string, calls: seq<PluginCall>)
    returns (state: RouteState, next: RouteState)
    requires var key := Key(md5, secret, message.callId); AllProduced(key, routes) && AllProduced(key, message.recordRoutes)
    modifies message`recordRoutes
    ensures state.Valid() && next.Valid() && AllProduced(state.key, message.recordRoutes)
    ensures if state.mayBeMutable && (state.modified || state.addCopyRequested)
            then ReadsBack(state.key, hostPort, old(message.recordRoutes), state.values, next.values)
            else message.recordRoutes == old(message.recordRoutes)
  {
    ghost var rrs := message.recordRoutes;
    state := Build(md5, secret, message, routes, hostPort);
    Serve(state, calls);
    IndicesInRange(Under(state.key), hostPort, routes, rrs, message.Kind());
    state.Update(message);
    if state.mayBeMutable && (state.modified || state.addCopyRequested) {
      UpdatedIsProduced(state.key, hostPort, rrs, state.recordRouteIndices, state.values, state.addCopyRequested);
      WrittenReadsBack(state.key, hostPort, routes, rrs, message.Kind(), state.values, state.addCopyRequested);
    }
    next := Build(md5, secret, message, [], hostPort);
  }

  /** A state built from a message with nothing signed for this secret and Call-ID is empty. */
  method BuildFromUnsigned(md5: Md5, secret: string, message: SipMessage, routes: seq<Route>, hostPort: string) returns (state: RouteState)
    requires forall i :: 0 <= i < |routes| ==> Unsigned(Key(md5, secret, message.callId), routes[i])
    requires forall i :: 0 <= i < |message.recordRoutes| ==> Unsigned(Key(md5, secret, message.callId), message.recordRoutes[i])
    ensures !state.foundRouteState && state.values == []
  {
    state := new RouteState(md5, secret, message, routes, hostPort);
    UnsignedMessageYieldsNothing(state.key, hostPort, routes, message.recordRoutes, message.Kind());
  }
}
