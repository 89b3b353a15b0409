/**
 * The call-state event builder: the shared validity automaton, exactly as coded, and the
 * database builder's use of it.
 *
 * In the automaton the inner `break`s leave only the inner switch, so control falls from the
 * case of the current state through all the cases after it.
 */
module EventBuilder {
  import opened Common

  datatype Call = BuilderReset | StartEvent | AddCallData | AddVia | CompleteCallEvent

  const INITIAL: bv8 := 0x00
  const BETWEEN_EVENTS: bv8 := 0x01
  const CALL_EVENT_STARTED: bv8 := 0x02
  const CALL_DATA_ADDED: bv8 := 0x04
  const VIA_ADDED: bv8 := 0x08

  datatype Verdict = Verdict(valid: bool, state: bv8)

  /** The case label the outer switch jumps to; 4 is past the last one, and Initial breaks. */
  function EntryCase(s: bv8): (k: nat) {
    if s == BETWEEN_EVENTS then 0
    else if s == CALL_EVENT_STARTED || s == CALL_EVENT_STARTED | VIA_ADDED then 1
    else if s == CALL_EVENT_STARTED | CALL_DATA_ADDED then 2
    else if s == CALL_EVENT_STARTED | CALL_DATA_ADDED | VIA_ADDED then 3
    else 4
  }

  /** What the inner switch of case `k` does. */
  function InnerSwitch(k: nat, c: Call, v: Verdict): (r: Verdict) {
    if k == 0 && c.StartEvent? then Verdict(true, CALL_EVENT_STARTED)
    else if k == 1 && c.AddCallData? then Verdict(true, v.state | CALL_DATA_ADDED)
    else if k == 1 && c.AddVia? then Verdict(true, v.state | VIA_ADDED)
    else if k == 2 && c.AddVia? then Verdict(true, v.state | VIA_ADDED)
    else if k == 3 && c.AddVia? then Verdict(true, v.state)
    else if k == 3 && c.CompleteCallEvent? then Verdict(true, BETWEEN_EVENTS)
    else v
  }

  /** Fall through from case `k`. */
  function FallThrough(k: nat, c: Call, v: Verdict): (r: Verdict)
    decreases 4 - k
  {
    if k >= 4 then v else FallThrough(k + 1, c, InnerSwitch(k, c, v))
  }

  function BuilderStateIsOk(s: bv8, c: Call): (v: Verdict) {
    if c.BuilderReset? then Verdict(true, BETWEEN_EVENTS)
    else FallThrough(EntryCase(s), c, Verdict(false, s))
  }

  /** Inside an event: begun, with or without call data and Via. */
  predicate InEvent(s: bv8) {
    || s == CALL_EVENT_STARTED
    || s == CALL_EVENT_STARTED | VIA_ADDED
    || s == CALL_EVENT_STARTED | CALL_DATA_ADDED
    || s == CALL_EVENT_STARTED | CALL_DATA_ADDED | VIA_ADDED
  }

  /**
   * When a call is refused. An event can only be begun between events, and call data is refused
   * once it is there. Everything else is accepted between events and inside one alike: an event
   * can be completed without call data or Via, although the interface asks for both, and even
   * without having been begun.
   */
  lemma RefusedExactly(s: bv8, c: Call)
    ensures BuilderStateIsOk(s, c).valid <==>
            match c
            case BuilderReset => true
            case StartEvent => s == BETWEEN_EVENTS
            case AddCallData => s == BETWEEN_EVENTS || s == CALL_EVENT_STARTED || s == CALL_EVENT_STARTED | VIA_ADDED
            case AddVia => s == BETWEEN_EVENTS || InEvent(s)
            case CompleteCallEvent => s == BETWEEN_EVENTS || InEvent(s)
    ensures BuilderStateIsOk(s, c).state ==
            if !BuilderStateIsOk(s, c).valid then s
            else
              match c
              case BuilderReset => BETWEEN_EVENTS
              case StartEvent => CALL_EVENT_STARTED
              case AddCallData => s | CALL_DATA_ADDED
              case AddVia => s | VIA_ADDED
              case CompleteCallEvent => BETWEEN_EVENTS
  {
    var v := Verdict(false, s);
    var v1 := if EntryCase(s) == 0 then InnerSwitch(0, c, v) else v;
    var v2 := if EntryCase(s) <= 1 then InnerSwitch(1, c, v1) else v;
    var v3 := if EntryCase(s) <= 2 then InnerSwitch(2, c, v2) else v;
    assert FallThrough(3, c, v3) == InnerSwitch(3, c, v3);
    assert FallThrough(2, c, v2) == FallThrough(3, c, InnerSwitch(2, c, v2));
    assert FallThrough(1, c, v1) == FallThrough(2, c, InnerSwitch(1, c, v1));
    assert FallThrough(0, c, v) == FallThrough(1, c, InnerSwitch(0, c, v));
  }

  /** An event just begun can be completed; call data between events leads to a dead end. */
  lemma CompletedTooEarly()
    ensures BuilderStateIsOk(CALL_EVENT_STARTED, CompleteCallEvent) == Verdict(true, BETWEEN_EVENTS)
    ensures var stray := BuilderStateIsOk(BETWEEN_EVENTS, AddCallData);
      && stray == Verdict(true, BETWEEN_EVENTS | CALL_DATA_ADDED)
      && !BuilderStateIsOk(stray.state, CompleteCallEvent).valid
  {
    RefusedExactly(CALL_EVENT_STARTED, CompleteCallEvent);
    RefusedExactly(BETWEEN_EVENTS | CALL_DATA_ADDED, CompleteCallEvent);
    var v := Verdict(false, BETWEEN_EVENTS);
    assert FallThrough(0, AddCallData, v) == FallThrough(2, AddCallData, Verdict(true, BETWEEN_EVENTS | CALL_DATA_ADDED));
  }

  datatype Kind = ObserverReset | Request | Setup | Failure | End | Transfer

  /** The fields of an event that the observer's guarantees are about. */
  datatype CallEvent = CallEvent(seqNo: nat, kind: Kind, callId: string, branch: string, internal: bool)

  const NO_EVENT := CallEvent(0, ObserverReset, "", "", false)

  /** The database builder. `refused` counts the calls that run into `assert(false)`. */
  class CallStateEventBuilder {
    var buildState: bv8
    var eventComplete: bool
    var event: CallEvent
    var refused: nat

    predicate Idle()
      reads this
    {
      buildState == BETWEEN_EVENTS && !eventComplete
    }

    constructor ()
      ensures buildState == INITIAL && !eventComplete && refused == 0
    {
      buildState, eventComplete, event, refused := INITIAL, false, NO_EVENT, 0;
    }

    /** builderStateIsOk: the cases from the current state's on, in order. */
    method CheckState(c: Call) returns (isValid: bool)
      modifies this`buildState
      ensures Verdict(isValid, buildState) == BuilderStateIsOk(old(buildState), c)
    {
      isValid := false;
      if c.BuilderReset? {
        isValid, buildState := true, BETWEEN_EVENTS;
      } else {
        var k := EntryCase(buildState);
        while k < 4
          invariant k <= 4
          invariant FallThrough(k, c, Verdict(isValid, buildState)) == BuilderStateIsOk(old(buildState), c)
        {
          if k == 0 && c.StartEvent? {
            isValid, buildState := true, CALL_EVENT_STARTED;
          } else if k == 1 && c.AddCallData? {
            isValid, buildState := true, buildState | CALL_DATA_ADDED;
          } else if (k == 1 || k == 2) && c.AddVia? {
            isValid, buildState := true, buildState | VIA_ADDED;
          } else if k == 3 && c.AddVia? {
            isValid := true;
          } else if k == 3 && c.CompleteCallEvent? {
            isValid, buildState := true, BETWEEN_EVENTS;
          }
          k := k + 1;
        }
      }
    }

    method Reset()
      modifies this`event, this`eventComplete
      ensures event == NO_EVENT && !eventComplete
    {
      event, eventComplete := NO_EVENT, false;
    }

    /** observerEvent: complete at once, from any state. */
    method ObserverEvent(seqNo: nat)
      modifies this
      ensures buildState == BETWEEN_EVENTS && eventComplete && refused == old(refused)
      ensures event == CallEvent(seqNo, ObserverReset, "", "", false)
    {
      Reset();
      var ok := CheckState(BuilderReset);
      event, eventComplete := CallEvent(seqNo, ObserverReset, "", "", false), true;
    }

    /** The five methods that begin a call event. */
    method BeginEvent(e: CallEvent)
      modifies this
      ensures var v := BuilderStateIsOk(old(buildState), StartEvent);
              && buildState == v.state && eventComplete == old(eventComplete)
              && event == (if v.valid then e else old(event))
              && refused == old(refused) + if v.valid then 0 else 1
    {
      var ok := CheckState(StartEvent);
      if ok {
        event := e;
      } else {
        refused := refused + 1;
      }
    }

    method AddCallId(callId: string)
      modifies this
      ensures var v := BuilderStateIsOk(old(buildState), AddCallData);
              && buildState == v.state && eventComplete == old(eventComplete)
              && event == (if v.valid then old(event).(callId := callId) else old(event))
              && refused == old(refused) + if v.valid then 0 else 1
    {
      var ok := CheckState(AddCallData);
      if ok {
        event := event.(callId := callId);
      } else {
        refused := refused + 1;
      }
    }

    method AddEventVia()
      modifies this`buildState, this`refused
      ensures var v := BuilderStateIsOk(old(buildState), AddVia);
              buildState == v.state && refused == old(refused) + if v.valid then 0 else 1
    {
      var ok := CheckState(AddVia);
      if !ok {
        refused := refused + 1;
      }
    }

    method CompleteEvent()
      modifies this`buildState, this`eventComplete, this`refused
      ensures var v := BuilderStateIsOk(old(buildState), CompleteCallEvent);
              && buildState == v.state && eventComplete == (old(eventComplete) || v.valid)
              && refused == old(refused) + if v.valid then 0 else 1
    {
      var ok := CheckState(CompleteCallEvent);
      if ok {
        eventComplete := true;
      } else {
        refused := refused + 1;
      }
    }

    /** The element, if it is complete; the builder is then cleared. */
    method FinishElement() returns (r: Option<CallEvent>)
      modifies this`event, this`eventComplete
      ensures r == (if old(eventComplete) then Some(old(event)) else None)
      ensures !eventComplete && (old(eventComplete) ==> event == NO_EVENT)
    {
      r := None;
      if eventComplete {
        r := Some(event);
        Reset();
      }
    }

    /**
     * What the observer does with the builder for every logged message: from an idle builder no
     * call is refused, however many Vias there are, and exactly the begun event comes out.
     */
    method BuildEvent(e: CallEvent, callId: string, vias: nat) returns (r: Option<CallEvent>)
      requires Idle()
      modifies this
      ensures Idle() && refused == old(refused)
      ensures r == Some(e.(callId := callId))
    {
      BeginEvent(e);
      AddCallId(callId);
      var i := 0;
      while i < vias
        invariant i <= vias && refused == old(refused) && !eventComplete && event == e.(callId := callId)
        invariant buildState == CALL_EVENT_STARTED | CALL_DATA_ADDED
                  || buildState == CALL_EVENT_STARTED | CALL_DATA_ADDED | VIA_ADDED
      {
        AddEventVia();
        i := i + 1;
      }
      CompleteEvent();
      r := FinishElement();
    }
  }
}
