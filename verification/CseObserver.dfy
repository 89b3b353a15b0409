/**
 * The proxy's call-state observer: which messages become events, and the map from Call-ID to
 * branch that decides it.
 */
module CseObserver {
  import opened Common
  import opened EventBuilder

  datatype Verb = InviteVerb | ReferVerb | ByeVerb | OtherVerb

  /** What the observer reads of a message. `identity`: it carries an authenticated identity. */
  datatype SipMsg =
    | RequestMsg(verb: Verb, hasToTag: bool, callId: string, branch: string, identity: bool, vias: nat)
    | ResponseMsg(hasCseq: bool, toInvite: bool, status: int, callId: string, branch: string, vias: nat)

  datatype Input =
    | Flush
    | TransportError
    | Observed(msg: SipMsg, now: int)
    | Cleanup(now: int)

  const SIP_2XX := 200
  const SIP_3XX := 300
  const SIP_4XX := 400
  const PROXY_AUTH_REQUIRED := 407
  const MAX_CALL_LENGTH := 8 * 3600

  /** None is "uninteresting". */
  function Classify(m: SipMsg): (k: Option<Kind>) {
    match m
    case RequestMsg(InviteVerb, hasToTag, _, _, _, _) => if hasToTag then None else Some(Request)
    case RequestMsg(ReferVerb, _, _, _, _, _) => Some(Transfer)
    case RequestMsg(ByeVerb, _, _, _, _, _) => Some(End)
    case RequestMsg(OtherVerb, _, _, _, _, _) => None
    case ResponseMsg(hasCseq, toInvite, status, _, _, _) =>
      if !hasCseq || !toInvite then None
      else if status >= SIP_4XX then Some(Failure)
      else if SIP_2XX <= status < SIP_3XX then Some(Setup)
      else None
  }

  /** An entry of the transaction map. */
  datatype Entry = Entry(branch: string, time: int, pai: bool)

  datatype State = State(sequence: nat, calls: map<string, Entry>, log: seq<CallEvent>)

  const INITIAL_STATE := State(0, map[], [CallEvent(0, ObserverReset, "", "", false)])

  /** Is this a response to the transaction recorded for its call? */
  predicate Answers(calls: map<string, Entry>, m: SipMsg) {
    m.callId in calls && calls[m.callId].branch == m.branch
  }

  /** What an interesting message does to the map, and whether it is logged. */
  datatype Decision = Decision(calls: map<string, Entry>, emit: bool)

  function Decide(calls: map<string, Entry>, kind: Kind, m: SipMsg, now: int): (d: Decision)
    requires Classify(m) == Some(kind)
  {
    match kind
    case Request =>
      if m.callId !in calls then Decision(calls[m.callId := Entry(m.branch, now, m.identity)], true)
      else if m.identity && !calls[m.callId].pai then Decision(calls[m.callId := calls[m.callId].(pai := true)], true)
      else Decision(calls, false)
    case Setup =>
      if !Answers(calls, m) then Decision(calls, false)
      else Decision(if m.status > SIP_2XX then calls - {m.callId} else calls, true)
    case Failure =>
      if !Answers(calls, m) then Decision(calls, false)
      else Decision(calls - {m.callId}, m.status != PROXY_AUTH_REQUIRED)
    case End => Decision(calls - {m.callId}, true)
    case Transfer => Decision(calls, true)
    case ObserverReset => Decision(calls, false)
  }

  function EventOf(seqNo: nat, kind: Kind, m: SipMsg): (e: CallEvent)
    requires Classify(m) == Some(kind)
  {
    match kind
    case Request => CallEvent(seqNo, kind, m.callId, m.branch, m.identity)
    case Setup => CallEvent(seqNo, kind, m.callId, m.branch, false)
    case Failure => CallEvent(seqNo, kind, m.callId, m.branch, false)
    case _ => CallEvent(seqNo, kind, m.callId, "", false)
  }

  function Step(st: State, input: Input): (r: State) {
    match input
    case Flush => st
    case TransportError => st
    case Cleanup(now) =>
      st.(calls := map c | c in st.calls && !(now - st.calls[c].time > MAX_CALL_LENGTH) :: st.calls[c])
    case Observed(m, now) =>
      if Classify(m).None? then st
      else
        var kind := Classify(m).value;
        var d := Decide(st.calls, kind, m, now);
        State(st.sequence + 1, d.calls, if d.emit then st.log + [EventOf(st.sequence + 1, kind, m)] else st.log)
  }

  function Run(inputs: seq<Input>): (st: State) {
    if inputs == [] then INITIAL_STATE else Step(Run(inputs[..|inputs| - 1]), inputs[|inputs| - 1])
  }

  // ----- what every run keeps -----

  ghost predicate Closes(e: CallEvent, callId: string) {
    e.callId == callId && (e.kind.End? || e.kind.Failure?)
  }

  ghost predicate Requests(e: CallEvent, callId: string) {
    e.callId == callId && e.kind.Request?
  }

  /** Event `j` asked for this call and branch, and nothing up to `n` closed the call since. */
  ghost predicate OpenSince(log: seq<CallEvent>, callId: string, branch: string, j: nat, n: nat) {
    && j < n <= |log| && Requests(log[j], callId) && log[j].branch == branch
    && forall i :: j < i < n ==> !Closes(log[i], callId)
  }

  ghost predicate Explained(log: seq<CallEvent>, n: nat)
    requires n < |log|
  {
    log[n].kind.Setup? || log[n].kind.Failure? ==>
      exists j: nat :: OpenSince(log, log[n].callId, log[n].branch, j, n)
  }

  /** Some event asked for this call and branch, and the call has not been closed since. */
  ghost predicate IsOpen(log: seq<CallEvent>, callId: string, branch: string) {
    exists j: nat :: OpenSince(log, callId, branch, j, |log|)
  }

  ghost predicate Ordered(st: State) {
    && (forall i, k :: 0 <= i < k < |st.log| ==> st.log[i].seqNo < st.log[k].seqNo)
    && (forall i :: 0 <= i < |st.log| ==> st.log[i].seqNo <= st.sequence)
  }

  ghost predicate Inv(st: State) {
    && Ordered(st)
    && (forall n :: 0 <= n < |st.log| ==> Explained(st.log, n))
    && (forall c :: c in st.calls ==> IsOpen(st.log, c, st.calls[c].branch))
  }

  lemma ExplainedGrows(log: seq<CallEvent>, e: CallEvent, n: nat)
    requires n < |log| && Explained(log, n)
    ensures Explained(log + [e], n)
  {
    var l := log + [e];
    assert forall i :: 0 <= i < |log| ==> l[i] == log[i];
    if log[n].kind.Setup? || log[n].kind.Failure? {
      var j: nat :| OpenSince(log, log[n].callId, log[n].branch, j, n);
      assert OpenSince(l, l[n].callId, l[n].branch, j, n);
    }
  }

  /** An entry that event `e` does not close. */
  ghost predicate LeftOpen(st: State, r: State, e: CallEvent, c: string) {
    c in st.calls && c in r.calls && r.calls[c].branch == st.calls[c].branch && !Closes(e, c)
  }

  lemma LeftOpenIsOpen(st: State, r: State, e: CallEvent, c: string)
    requires Inv(st) && r.log == st.log + [e] && LeftOpen(st, r, e, c)
    ensures IsOpen(r.log, c, r.calls[c].branch)
  {
    assert IsOpen(st.log, c, st.calls[c].branch);
    var j: nat :| OpenSince(st.log, c, st.calls[c].branch, j, |st.log|);
    assert forall i :: 0 <= i < |st.log| ==> r.log[i] == st.log[i];
    assert OpenSince(r.log, c, r.calls[c].branch, j, |r.log|);
  }

  /** An event is appended under a new sequence number; calls it does not close stay open. */
  lemma AppendKeeps(st: State, r: State, e: CallEvent)
    requires Inv(st) && r.log == st.log + [e] && e.seqNo == r.sequence == st.sequence + 1
    requires Explained(r.log, |st.log|)
    requires forall c :: c in r.calls ==> IsOpen(r.log, c, r.calls[c].branch) || LeftOpen(st, r, e, c)
    ensures Inv(r)
  {
    assert forall i :: 0 <= i < |st.log| ==> r.log[i] == st.log[i];
    forall n: nat | n < |r.log|
      ensures Explained(r.log, n)
    {
      if n < |st.log| {
        ExplainedGrows(st.log, e, n);
      }
    }
    forall c | c in r.calls
      ensures IsOpen(r.log, c, r.calls[c].branch)
    {
      if LeftOpen(st, r, e, c) {
        LeftOpenIsOpen(st, r, e, c);
      }
    }
  }

  /** No event: entries may only have been dropped. */
  lemma SilentKeeps(st: State, r: State)
    requires Inv(st) && r.log == st.log && st.sequence <= r.sequence
    requires forall c :: c in r.calls ==> c in st.calls && r.calls[c] == st.calls[c]
    ensures Inv(r)
  {
  }

  /** A response that matches the map is explained by the request event that opened its call. */
  lemma AnswerExplained(st: State, m: SipMsg, e: CallEvent)
    requires Inv(st) && Answers(st.calls, m) && e.callId == m.callId && e.branch == m.branch
    ensures Explained(st.log + [e], |st.log|)
  {
    assert IsOpen(st.log, m.callId, m.branch);
    var j: nat :| OpenSince(st.log, m.callId, m.branch, j, |st.log|);
    var l := st.log + [e];
    assert forall i :: 0 <= i < |st.log| ==> l[i] == st.log[i];
    assert OpenSince(l, m.callId, m.branch, j, |st.log|);
  }

  lemma RequestKeepsInv(st: State, m: SipMsg, now: int)
    requires Inv(st) && Classify(m) == Some(Request)
    ensures Inv(Step(st, Observed(m, now)))
  {
    var r := Step(st, Observed(m, now));
    var e := EventOf(st.sequence + 1, Request, m);
    if m.callId !in st.calls {
      assert OpenSince(r.log, m.callId, m.branch, |st.log|, |r.log|);
      AppendKeeps(st, r, e);
    } else if m.identity && !st.calls[m.callId].pai {
      AppendKeeps(st, r, e);
    } else {
      SilentKeeps(st, r);
    }
  }

  lemma AnswerKeepsInv(st: State, m: SipMsg, now: int)
    requires Inv(st) && (Classify(m) == Some(Setup) || Classify(m) == Some(Failure))
    ensures Inv(Step(st, Observed(m, now)))
  {
    var r := Step(st, Observed(m, now));
    var kind := Classify(m).value;
    if Decide(st.calls, kind, m, now).emit {
      var e := EventOf(st.sequence + 1, kind, m);
      AnswerExplained(st, m, e);
      AppendKeeps(st, r, e);
    } else {
      SilentKeeps(st, r);
    }
  }

  lemma StepKeepsInv(st: State, input: Input)
    requires Inv(st)
    ensures Inv(Step(st, input))
  {
    var r := Step(st, input);
    if input.Observed? && Classify(input.msg).Some? {
      var m := input.msg;
      match Classify(m).value
      case Request => RequestKeepsInv(st, m, input.now);
      case Setup => AnswerKeepsInv(st, m, input.now);
      case Failure => AnswerKeepsInv(st, m, input.now);
      case End => AppendKeeps(st, r, EventOf(st.sequence + 1, End, m));
      case Transfer => AppendKeeps(st, r, EventOf(st.sequence + 1, Transfer, m));
    } else {
      SilentKeeps(st, r);
    }
  }

  lemma {:induction false} RunKeepsInv(inputs: seq<Input>)
    ensures Inv(Run(inputs))
  {
    if inputs != [] {
      RunKeepsInv(inputs[..|inputs| - 1]);
      StepKeepsInv(Run(inputs[..|inputs| - 1]), inputs[|inputs| - 1]);
    }
  }

  /**
   * In every run, a logged call setup or failure was preceded by a call request with the same
   * Call-ID and branch, with no end or failure of that call in between.
   */
  lemma AnswersFollowRequests(inputs: seq<Input>, n: nat)
    requires var log := Run(inputs).log; n < |log| && (log[n].kind.Setup? || log[n].kind.Failure?)
    ensures var log := Run(inputs).log;
            exists j: nat :: OpenSince(log, log[n].callId, log[n].branch, j, n)
  {
    RunKeepsInv(inputs);
    assert Explained(Run(inputs).log, n);
  }

  /** The stay of a call in the map began with event `j`; at most one request event followed. */
  ghost predicate Stay(log: seq<CallEvent>, callId: string, entry: Entry, j: nat) {
    && OpenSince(log, callId, entry.branch, j, |log|)
    && (log[j].internal ==> entry.pai)
    && (forall i :: j < i < |log| && Requests(log[i], callId) ==> log[i].internal && !log[j].internal && entry.pai)
    && (forall i, k :: j < i < |log| && j < k < |log| && Requests(log[i], callId) && Requests(log[k], callId) ==> i == k)
  }

  lemma StayGrows(log: seq<CallEvent>, e: CallEvent, callId: string, entry: Entry, j: nat)
    requires Stay(log, callId, entry, j) && !Closes(e, callId) && !Requests(e, callId)
    ensures Stay(log + [e], callId, entry, j)
  {
    assert (log + [e])[..|log|] == log;
    assert forall i :: 0 <= i < |log| ==> (log + [e])[i] == log[i];
  }

  lemma StayBegins(log: seq<CallEvent>, e: CallEvent, entry: Entry)
    requires e.kind.Request? && e.branch == entry.branch && e.internal == entry.pai
    ensures Stay(log + [e], e.callId, entry, |log|)
  {
  }

  /** The second request event of a stay: the first one had no identity. */
  lemma StaySecondRequest(log: seq<CallEvent>, e: CallEvent, entry: Entry, j: nat)
    requires Stay(log, e.callId, entry, j) && !entry.pai && e.kind.Request? && e.internal
    ensures Stay(log + [e], e.callId, entry.(pai := true), j)
  {
    var l := log + [e];
    assert forall i :: 0 <= i < |log| ==> l[i] == log[i];
  }

  /** The length of the log when the call, now in the map, entered it for its present stay. */
  ghost function Since(inputs: seq<Input>, callId: string): (j: nat)
    requires callId in Run(inputs).calls
    ensures j <= |Run(inputs).log|
  {
    var front := inputs[..|inputs| - 1];
    if callId in Run(front).calls then Since(front, callId) else |Run(front).log|
  }

  /** What one input does to the stay of a call that is in the map before and after it. */
  lemma StayGoesOn(st: State, input: Input, callId: string, j: nat)
    requires callId in st.calls && callId in Step(st, input).calls && Stay(st.log, callId, st.calls[callId], j)
    ensures Stay(Step(st, input).log, callId, Step(st, input).calls[callId], j)
  {
    var r := Step(st, input);
    if r.log != st.log {
      var e := EventOf(st.sequence + 1, Classify(input.msg).value, input.msg);
      if Requests(e, callId) {
        StaySecondRequest(st.log, e, st.calls[callId], j);
      } else {
        StayGrows(st.log, e, callId, st.calls[callId], j);
      }
    }
  }

  /** The stay began with the request event that was logged when the call entered the map. */
  lemma {:induction false} StayBeganOnEntry(inputs: seq<Input>, callId: string)
    requires callId in Run(inputs).calls
    ensures Stay(Run(inputs).log, callId, Run(inputs).calls[callId], Since(inputs, callId))
  {
    var front, input := inputs[..|inputs| - 1], inputs[|inputs| - 1];
    var st, r := Run(front), Run(inputs);
    if callId in st.calls {
      StayBeganOnEntry(front, callId);
      StayGoesOn(st, input, callId, Since(front, callId));
    } else {
      StayBegins(st.log, EventOf(st.sequence + 1, Request, input.msg), r.calls[callId]);
    }
  }

  ghost function RequestsSince(log: seq<CallEvent>, callId: string, j: nat): (r: set<nat>) {
    set i: nat | j <= i < |log| && Requests(log[i], callId)
  }

  lemma StayHasAtMostTwo(log: seq<CallEvent>, callId: string, entry: Entry, j: nat)
    requires Stay(log, callId, entry, j)
    ensures j in RequestsSince(log, callId, j) && |RequestsSince(log, callId, j)| <= 2
  {
    var rs := RequestsSince(log, callId, j);
    var later := rs - {j};
    assert rs == later + {j};
    if i :| i in later {
      assert later == {i};
    }
  }

  /**
   * In every run, from the moment a call entered the map and for as long as it stays there, at
   * most two request events are logged for it: the one that recorded its branch on entry, and
   * one more only if it carries an identity and the first did not.
   */
  lemma AtMostTwoRequestsPerStay(inputs: seq<Input>, callId: string)
    requires callId in Run(inputs).calls
    ensures var log, entry, j := Run(inputs).log, Run(inputs).calls[callId], Since(inputs, callId);
      && j < |log| && Requests(log[j], callId) && log[j].branch == entry.branch
      && |RequestsSince(log, callId, j)| <= 2
      && forall i :: i in RequestsSince(log, callId, j) && i != j ==> log[i].internal && !log[j].internal
  {
    StayBeganOnEntry(inputs, callId);
    StayHasAtMostTwo(Run(inputs).log, callId, Run(inputs).calls[callId], Since(inputs, callId));
  }

  /** In every run the logged sequence numbers strictly increase. */
  lemma SequenceNumbersIncrease(inputs: seq<Input>, i: nat, k: nat)
    requires i < k < |Run(inputs).log|
    ensures Run(inputs).log[i].seqNo < Run(inputs).log[k].seqNo
  {
    RunKeepsInv(inputs);
  }

  /** Each message logs at most one event. */
  lemma AtMostOneEventPerMessage(st: State, input: Input)
    ensures var r := Step(st, input);
            r.log == st.log || exists e :: r.log == st.log + [e] && e.seqNo == r.sequence == st.sequence + 1
  {
    var r := Step(st, input);
    if r.log != st.log {
      assert r.log == st.log + [r.log[|st.log|]];
    }
  }

  // ----- the observer object -----

  class SipXProxyCseObserver {
    const builder: CallStateEventBuilder
    var sequenceNumber: nat
    var callTransMap: map<string, Entry>
    var log: seq<CallEvent>

    ghost function Abstract(): (st: State)
      reads this
    {
      State(sequenceNumber, callTransMap, log)
    }

    constructor ()
      ensures fresh(builder) && builder.Idle() && builder.refused == 0 && Abstract() == INITIAL_STATE
    {
      builder := new CallStateEventBuilder();
      sequenceNumber, callTransMap, log := 0, map[], [];
      new;
      builder.ObserverEvent(sequenceNumber);
      var event := builder.FinishElement();
      log := log + [event.value];
    }

    /** The loop of CleanupTransMap: entries that are too old are dropped, one by one. */
    method CleanupTransMap(now: int)
      modifies this`callTransMap
      ensures Abstract() == Step(old(Abstract()), Cleanup(now))
    {
      var toVisit := callTransMap.Keys;
      while toVisit != {}
        invariant toVisit <= callTransMap.Keys <= old(callTransMap).Keys
        invariant forall c :: c in callTransMap ==> callTransMap[c] == old(callTransMap)[c]
        invariant forall c :: c in old(callTransMap) && c !in toVisit ==>
                    (c in callTransMap <==> !(now - old(callTransMap)[c].time > MAX_CALL_LENGTH))
        decreases toVisit
      {
        var callId :| callId in toVisit;
        if now - callTransMap[callId].time > MAX_CALL_LENGTH {
          callTransMap := callTransMap - {callId};
        }
        toVisit := toVisit - {callId};
      }
    }

    /** Does this message log an event? Updates the map on the way. */
    method UpdateMap(kind: Kind, m: SipMsg, now: int) returns (emit: bool)
      requires Classify(m) == Some(kind)
      modifies this`callTransMap
      ensures Decision(callTransMap, emit) == Decide(old(callTransMap), kind, m, now)
    {
      emit := true;
      match kind {
        case Request =>
          if m.callId !in callTransMap {
            callTransMap := callTransMap[m.callId := Entry(m.branch, now, m.identity)];
          } else if m.identity {
            if !callTransMap[m.callId].pai {
              callTransMap := callTransMap[m.callId := callTransMap[m.callId].(pai := true)];
            } else {
              emit := false;
            }
          } else {
            emit := false;
          }
        case Setup =>
          if m.callId in callTransMap && callTransMap[m.callId].branch == m.branch {
            if m.status > SIP_2XX {
              callTransMap := callTransMap - {m.callId};
            }
          } else {
            emit := false;
          }
        case Failure =>
          if m.callId in callTransMap && callTransMap[m.callId].branch == m.branch {
            callTransMap := callTransMap - {m.callId};
            emit := m.status != PROXY_AUTH_REQUIRED;
          } else {
            emit := false;
          }
        case End =>
          callTransMap := callTransMap - {m.callId};
        case Transfer =>
      }
    }

    /**
     * handleMessage for a SIP message. The builder is idle before and after it, refuses nothing,
     * and hands over the one event there is to log.
     */
    method HandleMessage(m: SipMsg, now: int)
      requires builder.Idle()
      modifies this, builder
      ensures builder.Idle() && builder.refused == old(builder.refused)
      ensures Abstract() == Step(old(Abstract()), Observed(m, now))
    {
      var classified := Classify(m);
      if classified.Some? {
        var kind := classified.value;
        sequenceNumber := sequenceNumber + 1;
        var emit := UpdateMap(kind, m, now);
        if emit {
          var event := builder.BuildEvent(EventOf(sequenceNumber, kind, m).(callId := ""), m.callId, m.vias);
          log := log + [event.value];
        }
      }
    }
  }

  /**
   * The observer object, given any inputs, goes through the run of the model: the builder is idle
   * after each of them and has never refused a call.
   */
  method Observe(inputs: seq<Input>) returns (observer: SipXProxyCseObserver)
    ensures observer.Abstract() == Run(inputs)
    ensures observer.builder.Idle() && observer.builder.refused == 0
  {
    observer := new SipXProxyCseObserver();
    for i := 0 to |inputs|
      invariant fresh(observer) && fresh(observer.builder)
      invariant observer.Abstract() == Run(inputs[..i])
      invariant observer.builder.Idle() && observer.builder.refused == 0
    {
      assert inputs[..i + 1][..i] == inputs[..i];
      match inputs[i] {
        case Flush =>
        case TransportError =>
        case Observed(m, now) => observer.HandleMessage(m, now);
        case Cleanup(now) => observer.CleanupTransMap(now);
      }
    }
    assert inputs[..|inputs|] == inputs;
  }
}
