/**
 * Which response a request gets, in terms of what the redirectors answered, and that nothing
 * ever takes a response back.
 */
module RedirectResponses {
  import opened Common
  import opened RedirectModel
  import opened RedirectProofs
  import opened RedirectCancel

  ghost predicate SomeoneFailed(cfg: seq<Redirector>, answers: seq<LookUp>, req: Request, suspend: Option<Suspend>)
    requires |answers| == |cfg| && Sized(suspend, |cfg|)
  {
    exists j: nat :: j < |cfg| && FailedAt(cfg, answers, req, suspend, j)
  }

  ghost predicate SomeonePends(cfg: seq<Redirector>, answers: seq<LookUp>, req: Request, suspend: Option<Suspend>)
    requires |answers| == |cfg| && Sized(suspend, |cfg|)
  {
    exists j: nat :: j < |cfg| && Asked(cfg, answers, req, suspend, j) && answers[j].status.SearchPending?
  }

  /** How many contacts the last redirector to touch the list left in it. */
  ghost function ContactsLeft(cfg: seq<Redirector>, answers: seq<LookUp>, req: Request, suspend: Option<Suspend>): (n: nat)
    requires |answers| == |cfg| && Sized(suspend, |cfg|)
  {
    var j := LastLeft(cfg, answers, req, suspend, |cfg|);
    if j >= 0 then answers[j].contacts else 0
  }

  lemma {:induction false} WillSuspendIffPended(cfg: seq<Redirector>, answers: seq<LookUp>, req: Request, suspend: Option<Suspend>, k: nat)
    requires |answers| == |cfg| && k <= |cfg| && Sized(suspend, |cfg|)
    ensures var sc := Scanned(cfg, answers, req, suspend, k); sc.willSuspend <==> sc.pended != {}
  {
    if k > 0 {
      WillSuspendIffPended(cfg, answers, req, suspend, k - 1);
    }
  }

  /** A pass has everything the answers say, read off its final state. */
  lemma PassSummary(cfg: seq<Redirector>, answers: seq<LookUp>, req: Request, suspend: Option<Suspend>)
    requires |answers| == |cfg| && Sized(suspend, |cfg|)
    ensures var sc := Scanned(cfg, answers, req, suspend, |cfg|);
      && (sc.error.Some? <==> SomeoneFailed(cfg, answers, req, suspend))
      && (forall j: nat :: j < |cfg| && FailedAt(cfg, answers, req, suspend, j) ==> sc.error == Some(answers[j].status.code))
      && (sc.willSuspend <==> SomeonePends(cfg, answers, req, suspend))
      && sc.contacts == ContactsLeft(cfg, answers, req, suspend)
  {
    LevelIsHighestAuthority(cfg, answers, req, suspend, |cfg|);
    ContactsOfLastChange(cfg, answers, req, suspend, |cfg|);
    PendedIsWhoAnsweredPending(cfg, answers, req, suspend, |cfg|);
    WillSuspendIffPended(cfg, answers, req, suspend, |cfg|);
    forall j: nat | j < |cfg| && FailedAt(cfg, answers, req, suspend, j)
      ensures Scanned(cfg, answers, req, suspend, |cfg|).error == Some(answers[j].status.code)
    {
      ErrorOfFailure(cfg, answers, req, suspend, |cfg|, j);
    }
    var pended := Scanned(cfg, answers, req, suspend, |cfg|).pended;
    if j: nat :| j < |cfg| && Asked(cfg, answers, req, suspend, j) && answers[j].status.SearchPending? {
      assert j in pended;
    }
  }

  /**
   * The response to a request. If a redirector that was asked failed, a request other than ACK
   * gets its error. Else, if one that was asked is still searching, nothing is sent. Else a
   * request other than ACK gets a 302 with the contacts that are in the list, or a 404 if there
   * are none, and an ACK is forwarded if there is exactly one.
   */
  lemma ResponseOfPass(cfg: seq<Redirector>, st: State, req: Request, seqNo: nat, suspend: Option<Suspend>, answers: seq<LookUp>)
    requires |answers| == |cfg| && Sized(suspend, |cfg|) && req.id < |st.outputs|
    ensures var before, after := st.outputs, Process(cfg, st, req, seqNo, suspend, answers).outputs;
      var n := ContactsLeft(cfg, answers, req, suspend);
      && |after| == |before|
      && (forall id: nat :: id < |before| && id != req.id ==> after[id] == before[id])
      && (forall j: nat :: j < |cfg| && FailedAt(cfg, answers, req, suspend, j) ==>
            after[req.id] == before[req.id] + if req.verb.Ack? then [] else [Failed(answers[j].status.code)])
      && (!SomeoneFailed(cfg, answers, req, suspend) && SomeonePends(cfg, answers, req, suspend) ==> after[req.id] == before[req.id])
      && (!SomeoneFailed(cfg, answers, req, suspend) && !SomeonePends(cfg, answers, req, suspend) ==>
            after[req.id] == before[req.id] +
              if req.verb.Ack? then (if n == 1 then [ForwardedAck] else [])
              else if n > 0 then [Moved(n)] else [NotFound])
  {
    PassSummary(cfg, answers, req, suspend);
    forall j: nat | j < |cfg| && FailedAt(cfg, answers, req, suspend, j)
      ensures SomeoneFailed(cfg, answers, req, suspend)
    {
    }
    assert st.outputs[req.id] + [] == st.outputs[req.id];
  }

  /** So it is for a request that arrives, and nobody else's outputs change. */
  lemma ArrivalIsAnswered(cfg: seq<Redirector>, st: State, ev: Event)
    requires Shaped(cfg, st) && Enabled(cfg, st, ev) && ev.Arrive?
    ensures var r, id := Handle(cfg, st, ev), |st.received|;
      var req := Request(id, ev.verb, ev.session, ev.cseq);
      var n := ContactsLeft(cfg, ev.answers, req, None);
      && r.received == st.received + [req] && |r.outputs| == id + 1 && r.outputs[..id] == st.outputs
      && (forall j: nat :: j < |cfg| && FailedAt(cfg, ev.answers, req, None, j) ==>
            r.outputs[id] == if ev.verb.Ack? then [] else [Failed(ev.answers[j].status.code)])
      && (!SomeoneFailed(cfg, ev.answers, req, None) ==>
            r.outputs[id] ==
              if SomeonePends(cfg, ev.answers, req, None) then []
              else if ev.verb.Ack? then (if n == 1 then [ForwardedAck] else [])
              else if n > 0 then [Moved(n)] else [NotFound])
  {
    var req := Request(|st.received|, ev.verb, ev.session, ev.cseq);
    var st1 := st.(received := st.received + [req], outputs := st.outputs + [[]]);
    ResponseOfPass(cfg, st1, req, st.nextSeqNo, None, ev.answers);
  }

  // ----- private storage -----

  ghost function StorageBefore(suspend: Option<Suspend>, i: nat): (b: bool)
  {
    suspend.Some? && i < |suspend.value.slots| && suspend.value.slots[i].storage
  }

  /**
   * A pass has a suspend object exactly when there was one, or a redirector that was asked is
   * searching or left private storage.
   */
  lemma {:induction false} SuspendObjectIffNeeded(cfg: seq<Redirector>, answers: seq<LookUp>, req: Request, suspend: Option<Suspend>, k: nat)
    requires |answers| == |cfg| && k <= |cfg| && Sized(suspend, |cfg|)
    ensures Scanned(cfg, answers, req, suspend, k).suspend.Some? <==>
      suspend.Some? || exists j: nat :: j < k && NeedsObject(cfg, answers, req, suspend, j)
  {
    if k > 0 {
      SuspendObjectIffNeeded(cfg, answers, req, suspend, k - 1);
      assert NeedsObject(cfg, answers, req, suspend, k - 1) ==
        (Consulted(cfg[k - 1], Scanned(cfg, answers, req, suspend, k - 1)) && (answers[k - 1].status.SearchPending? || answers[k - 1].storage));
    }
  }

  ghost predicate NeedsObject(cfg: seq<Redirector>, answers: seq<LookUp>, req: Request, suspend: Option<Suspend>, j: nat)
    requires |answers| == |cfg| && j < |cfg| && Sized(suspend, |cfg|)
  {
    Asked(cfg, answers, req, suspend, j) && (answers[j].status.SearchPending? || answers[j].storage)
  }

  /** The suspend object keeps for each redirector the private storage it left. */
  lemma {:induction false} StorageIsKept(cfg: seq<Redirector>, answers: seq<LookUp>, req: Request, suspend: Option<Suspend>, k: nat, i: nat)
    requires |answers| == |cfg| && k <= |cfg| && i < |cfg| && Sized(suspend, |cfg|)
    ensures var s := Scanned(cfg, answers, req, suspend, k).suspend;
      var kept := if i < k && Asked(cfg, answers, req, suspend, i) then answers[i].storage else StorageBefore(suspend, i);
      if s.Some? then s.value.slots[i].storage == kept else !kept
  {
    if k > 0 {
      StorageIsKept(cfg, answers, req, suspend, k - 1, i);
      StorageOfOne(cfg[k - 1], answers[k - 1], k - 1, |cfg|, req, Scanned(cfg, answers, req, suspend, k - 1), i);
    }
  }

  lemma StorageOfOne(d: Redirector, a: LookUp, k: nat, n: nat, req: Request, sc: Scan, i: nat)
    requires k < n && i < n && WellFormed(sc, n)
    ensures StorageBefore(ScanOne(d, a, k, n, req, sc).suspend, i)
         == if i == k && Consulted(d, sc) then a.storage else StorageBefore(sc.suspend, i)
  {
  }

  // ----- nothing is taken back -----

  lemma {:induction false} DropSendsNothing(cfg: seq<Redirector>, st: State, order: seq<nat>)
    requires Shaped(cfg, st)
    ensures DropEach(cfg, st, order).outputs == st.outputs && DropEach(cfg, st, order).received == st.received
  {
    if order != [] {
      DropSendsNothing(cfg, st, order[..|order| - 1]);
    }
  }

  /** A shutdown answers nobody. */
  lemma ShutdownAnswersNobody(cfg: seq<Redirector>, st: State, ev: Event)
    requires Shaped(cfg, st) && Enabled(cfg, st, ev) && ev.Shutdown?
    ensures Handle(cfg, st, ev).outputs == st.outputs && Handle(cfg, st, ev).received == st.received
  {
    DropSendsNothing(cfg, st, ev.order);
  }

  /** Each request's outputs only grow, and received requests stay as they are. */
  ghost predicate Extends(st: State, r: State) {
    && |st.outputs| <= |r.outputs| && st.received <= r.received
    && forall id: nat :: id < |st.outputs| ==> st.outputs[id] <= r.outputs[id]
  }

  lemma PassExtends(cfg: seq<Redirector>, st: State, req: Request, seqNo: nat, suspend: Option<Suspend>, answers: seq<LookUp>)
    requires |answers| == |cfg| && Sized(suspend, |cfg|) && req.id < |st.outputs|
    ensures Extends(st, Process(cfg, st, req, seqNo, suspend, answers))
  {
  }

  lemma {:induction false} CancelExtends(cfg: seq<Redirector>, st: State, order: seq<nat>, session: Session, cseq: int)
    requires Shaped(cfg, st)
    ensures Extends(st, CancelEach(cfg, st, order, session, cseq))
  {
    if order != [] {
      CancelExtends(cfg, st, order[..|order| - 1], session, cseq);
    }
  }

  lemma HandleExtends(cfg: seq<Redirector>, st: State, ev: Event)
    requires Shaped(cfg, st) && Enabled(cfg, st, ev)
    ensures Extends(st, Handle(cfg, st, ev))
  {
    match ev
    case Arrive(_, _, _, _) => ArrivalIsAnswered(cfg, st, ev);
    case CancelRequest(session, cseq, order) => CancelExtends(cfg, st, order, session, cseq);
    case Resume(seqNo, redirectorNo, answers) =>
      if seqNo in st.suspended {
        var t := Acknowledge(st.suspended[seqNo], redirectorNo);
        PassExtends(cfg, st.(suspended := st.suspended[seqNo := t]), t.message, seqNo, Some(t), answers);
      }
    case Shutdown(_) => ShutdownAnswersNobody(cfg, st, ev);
  }

  lemma {:induction false} RunExtends(cfg: seq<Redirector>, evs: seq<Event>, states: seq<State>, t: nat, u: nat)
    requires IsRun(cfg, evs, states) && t <= u <= |evs|
    ensures Extends(states[t], states[u])
  {
    if t < u {
      RunExtends(cfg, evs, states, t, u - 1);
      HandleExtends(cfg, states[u - 1], evs[u - 1]);
    }
  }

  /** In every run, a response once sent stays the response to that request. */
  lemma ResponsesAreFinal(cfg: seq<Redirector>, evs: seq<Event>, states: seq<State>, t: nat, u: nat, id: nat)
    requires IsRun(cfg, evs, states) && t <= u <= |evs|
    requires id < |states[t].outputs| && states[t].outputs[id] != []
    ensures id < |states[u].outputs| && states[u].outputs[id] == states[t].outputs[id]
  {
    RunExtends(cfg, evs, states, t, u);
    RunKeepsInv(cfg, evs, states, u);
    assert OutputsOk(states[u], id);
  }
}
