/**
 * The redirect server and its suspend objects as they are coded: objects updated in place,
 * loops over the redirectors and over the table. Each method is tied to the step function
 * of `RedirectModel`.
 */
module RedirectServer {
  import opened Common
  import opened RedirectModel
  import opened RedirectProofs

  /** Information kept for a suspended request, with one slot per redirector. */
  class RedirectSuspend {
    const message: Request
    const redirectors: array<Slot>
    var suspendCount: int

    ghost function Value(): (s: Suspend)
      reads this, redirectors
    {
      Suspend(message, suspendCount, redirectors[..])
    }

    constructor (message: Request, n: nat)
      ensures fresh(redirectors) && redirectors.Length == n && Value() == NewSuspend(message, n)
    {
      this.message := message;
      suspendCount := 0;
      redirectors := new Slot[n](_ => Slot(true, true, true));
      new;
      for i := 0 to n
        invariant redirectors.Length == n && fresh(redirectors)
        invariant forall j :: 0 <= j < i ==> redirectors[j] == Slot(false, false, false)
        invariant suspendCount == 0 && this.message == message
      {
        redirectors[i] := Slot(false, false, false);
      }
      assert redirectors[..] == NewSuspend(message, n).slots;
    }

    method SetStorage(i: nat, storage: bool)
      requires i < redirectors.Length
      modifies redirectors
      ensures Value() == old(Value()).(slots := old(redirectors[..])[i := old(redirectors[i]).(storage := storage)])
    {
      redirectors[i] := redirectors[i].(storage := storage);
      assert redirectors[..] == old(redirectors[..])[i := redirectors[i]];
    }

    method Await(i: nat)
      requires i < redirectors.Length
      modifies this, redirectors
      ensures Value() == MarkPending(old(Value()), i)
    {
      redirectors[i] := redirectors[i].(suspended := true, needsCancel := true);
      suspendCount := suspendCount + 1;
      assert redirectors[..] == old(redirectors[..])[i := redirectors[i]];
    }

    method Release(i: nat)
      requires i < redirectors.Length && redirectors[i].suspended
      modifies this, redirectors
      ensures Value() == Acknowledge(old(Value()), i)
    {
      redirectors[i] := redirectors[i].(suspended := false);
      suspendCount := suspendCount - 1;
      assert redirectors[..] == old(redirectors[..])[i := redirectors[i]];
    }
  }

  /** An error ends the pass: later redirectors are not asked and change nothing. */
  lemma {:induction false} ErrorEndsPass(cfg: seq<Redirector>, answers: seq<LookUp>, req: Request, suspend: Option<Suspend>, i: nat, k: nat)
    requires |answers| == |cfg| && i <= k <= |cfg| && Sized(suspend, |cfg|)
    requires Scanned(cfg, answers, req, suspend, i).error.Some?
    ensures Scanned(cfg, answers, req, suspend, k) == Scanned(cfg, answers, req, suspend, i)
  {
    if i < k {
      ErrorEndsPass(cfg, answers, req, suspend, i, k - 1);
    }
  }

  /** The suspend object of a pass, if it has one, is in the table while the pass runs. */
  ghost function Entered(st: State, seqNo: nat, sc: Scan): (r: State) {
    if sc.suspend.Some? then st.(suspended := st.suspended[seqNo := sc.suspend.value]) else st
  }

  lemma ConcludeForgets(cfg: seq<Redirector>, st: State, req: Request, seqNo: nat, sc: Scan)
    requires req.id < |st.outputs| && Sized(sc.suspend, |cfg|)
    ensures Conclude(cfg, Entered(st, seqNo, sc), req, seqNo, sc) == Conclude(cfg, st, req, seqNo, sc)
  {
    if sc.suspend.Some? {
      assert st.suspended[seqNo := sc.suspend.value] - {seqNo} == st.suspended - {seqNo};
    }
  }

  lemma VisitOneMore(order: seq<nat>, all: set<nat>, toVisit: set<nat>, k: nat)
    requires toVisit <= all && Enumerates(order, all - toVisit) && k in toVisit
    ensures Enumerates(order + [k], all - (toVisit - {k}))
    ensures (order + [k])[..|order|] == order
  {
  }

  class SipRedirectServer {
    const cfg: seq<Redirector>
    var running: bool
    var suspendList: map<nat, RedirectSuspend>
    var nextSeqNo: nat
    // What the stack has delivered and what has been handed back to it and to the redirectors.
    var received: seq<Request>
    var outputs: seq<seq<Output>>
    var cancelled: multiset<(nat, nat)>
    ghost var pended: set<(nat, nat)>

    ghost function Repr(): (r: set<object>)
      reads this, suspendList.Values
    {
      {this} + suspendList.Values + set k | k in suspendList :: suspendList[k].redirectors
    }

    /** Every entry has its own object and its own array, of the right size. */
    ghost predicate Valid()
      reads this, Repr()
    {
      && |outputs| == |received|
      && (forall k :: k in suspendList ==> k < nextSeqNo)
      && (forall k :: k in suspendList ==>
            suspendList[k].redirectors.Length == |cfg| && suspendList[k].message.id < |outputs|)
      && forall k, l :: k in suspendList && l in suspendList && k != l ==>
           suspendList[k] != suspendList[l] && suspendList[k].redirectors != suspendList[l].redirectors
    }

    ghost function List(): (m: map<nat, Suspend>)
      reads this, Repr()
    {
      map k | k in suspendList :: suspendList[k].Value()
    }

    ghost function Abstract(): (st: State)
      reads this, Repr()
    {
      State(running, List(), nextSeqNo, received, outputs, cancelled, pended)
    }

    /** Whoever is in the list was there before, or is new. */
    twostate predicate Renewed()
      reads this
    {
      forall k :: k in suspendList ==>
        || (k in old(suspendList) && suspendList[k] == old(suspendList[k]))
        || (fresh(suspendList[k]) && fresh(suspendList[k].redirectors))
    }

    constructor (cfg: seq<Redirector>)
      ensures Valid() && this.cfg == cfg && Abstract() == INITIAL_STATE && suspendList == map[]
    {
      this.cfg := cfg;
      running, suspendList, nextSeqNo := true, map[], 0;
      received, outputs, cancelled, pended := [], [], multiset{}, {};
    }

    /** The loop of cancelRedirect over the redirectors. */
    method CallCancel(seqNo: nat, suspendObject: RedirectSuspend)
      requires suspendObject.redirectors.Length == |cfg|
      modifies this`cancelled
      ensures cancelled == old(cancelled) + multiset(CancelCalls(cfg, seqNo, suspendObject.redirectors[..]))
    {
      ghost var calls := CancelCalls(cfg, seqNo, suspendObject.redirectors[..]);
      ghost var done: set<(nat, nat)> := {};
      for i := 0 to |cfg|
        invariant forall c :: c in done <==> c in calls && c.1 < i
        invariant cancelled == old(cancelled) + multiset(done)
      {
        if cfg[i].active && suspendObject.redirectors[i].needsCancel {
          assert (seqNo, i) in calls && (seqNo, i) !in done;
          done := done + {(seqNo, i)};
          cancelled := cancelled + multiset{(seqNo, i)};
        }
      }
      assert done == calls;
    }

    method CancelRedirect(seqNo: nat, suspendObject: RedirectSuspend)
      requires Valid() && seqNo in suspendList && suspendList[seqNo] == suspendObject
      modifies this`suspendList, this`cancelled
      ensures Valid() && suspendList == old(suspendList) - {seqNo}
      ensures Abstract() == Drop(cfg, old(Abstract()), seqNo, suspendObject.redirectors[..])
    {
      CallCancel(seqNo, suspendObject);
      suspendList := suspendList - {seqNo};
      assert List() == old(List()) - {seqNo};
    }

    /** What `suspendObject` stands for in the model. */
    static ghost function ValueOf(s: RedirectSuspend?): (r: Option<Suspend>)
      reads s, if s == null then {} else {s.redirectors}
    {
      if s == null then None else Some(s.Value())
    }

    /** One iteration of the loop over the redirectors, up to the dispatch on the status. */
    method RecordLookUp(req: Request, seqNo: nat, i: nat, a: LookUp, suspendObject: RedirectSuspend?) returns (s: RedirectSuspend?)
      requires i < |cfg| && (suspendObject != null ==> suspendObject.redirectors.Length == |cfg|)
      modifies this`suspendList, this`nextSeqNo
      modifies if suspendObject == null then {} else {suspendObject.redirectors}
      ensures Sized(old(ValueOf(suspendObject)), |cfg|)
      ensures ValueOf(s) == Stored(old(ValueOf(suspendObject)), a, i, |cfg|, req)
      ensures suspendObject != null ==> s == suspendObject
      ensures suspendObject == null && s != null ==> fresh(s) && fresh(s.redirectors) && s.message == req
      ensures if suspendObject == null && s != null
              then suspendList == old(suspendList)[seqNo := s] && nextSeqNo == (if seqNo == old(nextSeqNo) then old(nextSeqNo) + 1 else old(nextSeqNo))
              else suspendList == old(suspendList) && nextSeqNo == old(nextSeqNo)
    {
      s := suspendObject;
      if s == null && (a.status.SearchPending? || a.storage) {
        s := new RedirectSuspend(req, |cfg|);
        suspendList := suspendList[seqNo := s];
        if seqNo == nextSeqNo {
          nextSeqNo := nextSeqNo + 1;
        }
      }
      if s != null {
        s.SetStorage(i, a.storage);
      }
    }

    /** The loop of processRedirect over the redirectors. */
    method LookUpAll(req: Request, seqNo: nat, suspendObject: RedirectSuspend?, answers: seq<LookUp>)
      returns (s: RedirectSuspend?, willSuspend: bool, willError: bool, errorCode: int, contacts: nat)
      requires |answers| == |cfg| && (suspendObject != null ==> suspendObject.redirectors.Length == |cfg|)
      modifies this`suspendList, this`nextSeqNo, this`pended
      modifies if suspendObject == null then {} else {suspendObject, suspendObject.redirectors}
      ensures Sized(old(ValueOf(suspendObject)), |cfg|)
      ensures var sc := Scanned(cfg, answers, req, old(ValueOf(suspendObject)), |cfg|);
              && ValueOf(s) == sc.suspend && willSuspend == sc.willSuspend && contacts == sc.contacts
              && sc.error == (if willError then Some(errorCode) else None)
              && pended == old(pended) + set i | i in sc.pended :: (seqNo, i)
      ensures suspendObject != null ==> s == suspendObject
      ensures suspendObject == null && s != null ==> fresh(s) && fresh(s.redirectors) && s.message == req
      ensures if suspendObject == null && s != null
              then suspendList == old(suspendList)[seqNo := s] && nextSeqNo == (if seqNo == old(nextSeqNo) then old(nextSeqNo) + 1 else old(nextSeqNo))
              else suspendList == old(suspendList) && nextSeqNo == old(nextSeqNo)
    {
      ghost var start := ValueOf(suspendObject);
      s, willSuspend, willError, errorCode, contacts := suspendObject, false, false, 0, 0;
      var level := LOWEST_AUTHORITY_LEVEL;
      var i := 0;
      while i < |cfg| && !willError
        invariant i <= |cfg|
        invariant Scanned(cfg, answers, req, start, i) ==
                  Scan(ValueOf(s), willSuspend, if willError then Some(errorCode) else None, level, contacts,
                       Scanned(cfg, answers, req, start, i).pended)
        invariant pended == old(pended) + set j | j in Scanned(cfg, answers, req, start, i).pended :: (seqNo, j)
        invariant suspendObject != null ==> s == suspendObject
        invariant suspendObject == null && s != null ==> fresh(s) && fresh(s.redirectors) && s.message == req
        invariant if suspendObject == null && s != null
                  then suspendList == old(suspendList)[seqNo := s] && nextSeqNo == (if seqNo == old(nextSeqNo) then old(nextSeqNo) + 1 else old(nextSeqNo))
                  else suspendList == old(suspendList) && nextSeqNo == old(nextSeqNo)
        decreases |cfg| - i, !willError
      {
        ghost var sc := Scanned(cfg, answers, req, start, i);
        if cfg[i].active && cfg[i].authority >= level {
          var a := answers[i];
          s := RecordLookUp(req, seqNo, i, a, s);
          if a.modified {
            contacts := a.contacts;
          }
          match a.status {
            case Success =>
              if a.modified {
                level := cfg[i].authority;
              }
            case Error(code) =>
              willError, errorCode := true, code;
            case SearchPending =>
              willSuspend := true;
              s.Await(i);
              pended := pended + {(seqNo, i)};
            case InvalidStatus =>
          }
        }
        i := i + 1;
      }
      if willError {
        ErrorEndsPass(cfg, answers, req, start, i, |cfg|);
      }
    }

    method Send(id: nat, out: Output)
      requires id < |outputs|
      modifies this`outputs
      ensures outputs == old(outputs)[id := old(outputs)[id] + [out]]
    {
      outputs := outputs[id := outputs[id] + [out]];
    }

    /** The response, or the forwarded ACK, of a finished pass. */
    method Respond(req: Request, willError: bool, errorCode: int, contacts: nat, ghost sc: Scan)
      requires req.id < |outputs|
      requires sc.contacts == contacts && sc.error == (if willError then Some(errorCode) else None)
      modifies this`outputs
      ensures var out := Outcome(req, sc);
              outputs == if out.Some? then old(outputs)[req.id := old(outputs)[req.id] + [out.value]] else old(outputs)
    {
      if req.verb.Ack? {
        if !willError && contacts == 1 {
          Send(req.id, ForwardedAck);
        }
      } else if willError {
        Send(req.id, Failed(errorCode));
      } else if contacts > 0 {
        Send(req.id, Moved(contacts));
      } else {
        Send(req.id, NotFound);
      }
    }

    /** The end of processRedirect, once the redirectors have done all they can. */
    method Finish(req: Request, seqNo: nat, s: RedirectSuspend?, willError: bool, errorCode: int, contacts: nat, ghost sc: Scan)
      requires Valid() && req.id < |outputs|
      requires Sized(sc.suspend, |cfg|) && ValueOf(s) == sc.suspend
      requires sc.contacts == contacts && sc.error == (if willError then Some(errorCode) else None)
      requires s != null ==> seqNo in suspendList && suspendList[seqNo] == s
      modifies this`outputs, this`suspendList, this`cancelled
      ensures Valid() && Renewed()
      ensures Abstract() == Conclude(cfg, old(Abstract()), req, seqNo, sc)
    {
      Respond(req, willError, errorCode, contacts, sc);
      assert List() == old(List());
      if s != null {
        CancelRedirect(seqNo, s);
      }
    }

    /** Entering or changing the object of `seqNo` touched no other entry. */
    twostate predicate OnlyEntry(seqNo: nat, new s: RedirectSuspend?)
      reads this, Repr()
    {
      && old(Valid()) && outputs == old(outputs) && received == old(received) && old(nextSeqNo) <= nextSeqNo
      && (if s == null then seqNo !in suspendList && suspendList == old(suspendList)
          else suspendList == old(suspendList)[seqNo := s] && s.redirectors.Length == |cfg|
               && s.message.id < |outputs| && seqNo < nextSeqNo)
      && forall k :: k in suspendList && k != seqNo ==>
           && suspendList[k].Value() == old(suspendList[k].Value())
           && (s != null ==> suspendList[k] != s && suspendList[k].redirectors != s.redirectors)
    }

    twostate lemma TableUpdated(seqNo: nat, new s: RedirectSuspend?)
      requires OnlyEntry(seqNo, s)
      ensures Valid()
      ensures List() == if s == null then old(List()) else old(List())[seqNo := s.Value()]
    {
      assert s != null ==> seqNo in suspendList && suspendList[seqNo] == s;
    }

    /** The pass itself, with its effect on the table. */
    method Consult(req: Request, seqNo: nat, suspendObject: RedirectSuspend?, answers: seq<LookUp>)
      returns (s: RedirectSuspend?, willSuspend: bool, willError: bool, errorCode: int, contacts: nat)
      requires Valid() && |answers| == |cfg| && req.id < |outputs|
      requires if suspendObject == null then seqNo == nextSeqNo
               else seqNo in suspendList && suspendList[seqNo] == suspendObject && suspendObject.message == req
      modifies this`suspendList, this`nextSeqNo, this`pended
      modifies if suspendObject == null then {} else {suspendObject, suspendObject.redirectors}
      ensures Valid() && Renewed() && Sized(old(ValueOf(suspendObject)), |cfg|)
      ensures var sc := Scanned(cfg, answers, req, old(ValueOf(suspendObject)), |cfg|);
              && ValueOf(s) == sc.suspend && willSuspend == sc.willSuspend && contacts == sc.contacts
              && sc.error == (if willError then Some(errorCode) else None)
              && Abstract() == Entered(Tally(old(Abstract()), seqNo, suspendObject == null && s != null, sc), seqNo, sc)
      ensures s != null ==> seqNo in suspendList && suspendList[seqNo] == s
    {
      s, willSuspend, willError, errorCode, contacts := LookUpAll(req, seqNo, suspendObject, answers);
      TableUpdated(seqNo, s);
    }

    method ProcessRedirect(req: Request, seqNo: nat, suspendObject: RedirectSuspend?, answers: seq<LookUp>)
      requires Valid() && |answers| == |cfg| && req.id < |outputs|
      requires if suspendObject == null then seqNo == nextSeqNo
               else seqNo in suspendList && suspendList[seqNo] == suspendObject && suspendObject.message == req
      modifies this
      modifies if suspendObject == null then {} else {suspendObject, suspendObject.redirectors}
      ensures Valid() && Renewed() && Sized(old(ValueOf(suspendObject)), |cfg|)
      ensures Abstract() == Process(cfg, old(Abstract()), req, seqNo, old(ValueOf(suspendObject)), answers)
    {
      ghost var start, st := ValueOf(suspendObject), Abstract();
      ghost var sc := Scanned(cfg, answers, req, start, |cfg|);
      var s, willSuspend, willError, errorCode, contacts := Consult(req, seqNo, suspendObject, answers);
      if willError || !willSuspend {
        Finish(req, seqNo, s, willError, errorCode, contacts, sc);
        ConcludeForgets(cfg, Tally(st, seqNo, start.None? && sc.suspend.Some?, sc), req, seqNo, sc);
      }
    }

    /** A request other than CANCEL. */
    method HandleRequest(verb: Verb, session: Session, cseq: int, answers: seq<LookUp>)
      requires Valid() && running && |answers| == |cfg|
      modifies this
      ensures Valid() && Renewed() && Shaped(cfg, old(Abstract()))
      ensures Abstract() == Handle(cfg, old(Abstract()), Arrive(verb, session, cseq, answers))
    {
      var req := Request(|received|, verb, session, cseq);
      received, outputs := received + [req], outputs + [[]];
      assert List() == old(List());
      ProcessRedirect(req, nextSeqNo, null, answers);
    }

    /** CANCEL: every suspended INVITE of that transaction is answered 487 and dropped. */
    method HandleCancel(session: Session, cseq: int) returns (ghost order: seq<nat>)
      requires Valid() && running
      modifies this
      ensures Valid() && Renewed() && Shaped(cfg, old(Abstract()))
      ensures Enumerates(order, old(suspendList).Keys)
      ensures Abstract() == Handle(cfg, old(Abstract()), CancelRequest(session, cseq, order))
    {
      var toVisit := suspendList.Keys;
      ghost var all := toVisit;
      order := [];
      while toVisit != {}
        invariant Valid() && Renewed() && running
        invariant forall k :: k in toVisit ==> k in suspendList
        invariant toVisit <= all && Enumerates(order, all - toVisit)
        invariant Abstract() == CancelEach(cfg, old(Abstract()), order, session, cseq)
        decreases toVisit
      {
        var k :| k in toVisit;
        CancelIfMeant(k, session, cseq);
        VisitOneMore(order, all, toVisit, k);
        order := order + [k];
        toVisit := toVisit - {k};
      }
    }

    method CancelIfMeant(k: nat, session: Session, cseq: int)
      requires Valid() && k in suspendList
      modifies this`outputs, this`suspendList, this`cancelled
      ensures Valid() && Renewed() && Shaped(cfg, old(Abstract()))
      ensures Abstract() == CancelOne(cfg, old(Abstract()), k, session, cseq)
      ensures old(suspendList).Keys - {k} <= suspendList.Keys
    {
      var suspendObject := suspendList[k];
      if IsInviteFor(suspendObject.message, session, cseq) {
        Send(suspendObject.message.id, Terminated);
        assert List() == old(List());
        CancelRedirect(k, suspendObject);
      }
    }

    /** A redirector is willing to resume; stale, repeated and out-of-range messages are ignored. */
    method HandleResume(seqNo: nat, redirectorNo: int, answers: seq<LookUp>)
      requires Valid() && running && |answers| == |cfg|
      modifies Repr()
      ensures Valid() && Renewed() && Shaped(cfg, old(Abstract()))
      ensures Abstract() == Handle(cfg, old(Abstract()), RedirectModel.Resume(seqNo, redirectorNo, answers))
    {
      if seqNo !in suspendList {
        return;
      }
      var suspendObject := suspendList[seqNo];
      if redirectorNo < 0 || redirectorNo >= |cfg| {
        return;
      }
      if !suspendObject.redirectors[redirectorNo].suspended {
        return;
      }
      suspendObject.Release(redirectorNo);
      TableUpdated(seqNo, suspendObject);
      assert Abstract() == old(Abstract()).(suspended := old(List())[seqNo := Acknowledge(old(suspendObject.Value()), redirectorNo)]);
      if suspendObject.suspendCount == 0 {
        ProcessRedirect(suspendObject.message, seqNo, suspendObject, answers);
      }
    }

    /** Shutdown: every suspended request is dropped, unanswered. */
    method HandleShutdown() returns (ghost order: seq<nat>)
      requires Valid() && running
      modifies this
      ensures Valid() && Renewed() && Shaped(cfg, old(Abstract()))
      ensures Enumerates(order, old(suspendList).Keys)
      ensures Abstract() == Handle(cfg, old(Abstract()), Shutdown(order))
    {
      var toVisit := suspendList.Keys;
      ghost var all := toVisit;
      order := [];
      while toVisit != {}
        invariant Valid() && Renewed() && running
        invariant suspendList.Keys == toVisit
        invariant toVisit <= all && Enumerates(order, all - toVisit)
        invariant Abstract() == DropEach(cfg, old(Abstract()), order)
        decreases toVisit
      {
        var k :| k in toVisit;
        CancelRedirect(k, suspendList[k]);
        VisitOneMore(order, all, toVisit, k);
        order := order + [k];
        toVisit := toVisit - {k};
      }
      running := false;
      assert List() == map[];
    }
  }

  // ----- the object over a whole run -----

  /** What arrives in the server's queue. */
  datatype Message =
    | SipRequest(verb: Verb, session: Session, cseq: int, answers: seq<LookUp>)
    | SipCancel(session: Session, cseq: int)
    | RedirectResume(seqNo: nat, redirectorNo: int, answers: seq<LookUp>)
    | OsShutdown

  predicate Fits(cfg: seq<Redirector>, m: Message) {
    m.SipRequest? || m.RedirectResume? ==> |m.answers| == |cfg|
  }

  /** An event of the model: the message, and the order in which the table was walked for it. */
  predicate IsEventOf(ev: Event, m: Message) {
    match m
    case SipRequest(verb, session, cseq, answers) => ev == Arrive(verb, session, cseq, answers)
    case SipCancel(session, cseq) => ev.CancelRequest? && ev.session == session && ev.cseq == cseq
    case RedirectResume(seqNo, redirectorNo, answers) => ev == Resume(seqNo, redirectorNo, answers)
    case OsShutdown => ev.Shutdown?
  }

  /** One message, as handleMessage dispatches it. */
  method HandleMessage(server: SipRedirectServer, m: Message) returns (ghost ev: Event)
    requires server.Valid() && server.running && Fits(server.cfg, m)
    modifies server.Repr()
    ensures server.Valid() && server.Renewed() && Shaped(server.cfg, old(server.Abstract()))
    ensures IsEventOf(ev, m) && Enabled(server.cfg, old(server.Abstract()), ev)
    ensures server.Abstract() == Handle(server.cfg, old(server.Abstract()), ev)
  {
    match m {
      case SipRequest(verb, session, cseq, answers) =>
        ev := Arrive(verb, session, cseq, answers);
        server.HandleRequest(verb, session, cseq, answers);
      case SipCancel(session, cseq) =>
        ghost var order := server.HandleCancel(session, cseq);
        ev := CancelRequest(session, cseq, order);
      case RedirectResume(seqNo, redirectorNo, answers) =>
        ev := Resume(seqNo, redirectorNo, answers);
        server.HandleResume(seqNo, redirectorNo, answers);
      case OsShutdown =>
        ghost var order := server.HandleShutdown();
        ev := Shutdown(order);
    }
  }

  lemma RunGrows(cfg: seq<Redirector>, evs: seq<Event>, states: seq<State>, ev: Event, r: State)
    requires IsRun(cfg, evs, states) && Shaped(cfg, states[|evs|]) && Enabled(cfg, states[|evs|], ev)
    requires r == Handle(cfg, states[|evs|], ev)
    ensures IsRun(cfg, evs + [ev], states + [r])
  {
    var es, ss := evs + [ev], states + [r];
    forall t: nat | t < |es|
      ensures Shaped(cfg, ss[t]) && Enabled(cfg, ss[t], es[t]) && ss[t + 1] == Handle(cfg, ss[t], es[t])
    {
      assert ss[t] == states[t] && (t < |evs| ==> es[t] == evs[t] && ss[t + 1] == states[t + 1]);
    }
  }

  /**
   * The server object, given any messages, goes through a run of the model: so everything proved
   * of runs holds of it after every message. It stops at a shutdown.
   */
  method Serve(cfg: seq<Redirector>, messages: seq<Message>) returns (server: SipRedirectServer, ghost evs: seq<Event>, ghost states: seq<State>)
    requires forall i :: 0 <= i < |messages| ==> Fits(cfg, messages[i])
    ensures server.cfg == cfg && server.Valid()
    ensures IsRun(cfg, evs, states) && server.Abstract() == states[|evs|]
    ensures |evs| <= |messages| && (forall i :: 0 <= i < |evs| ==> IsEventOf(evs[i], messages[i]))
    ensures |evs| < |messages| ==> !server.running
  {
    server := new SipRedirectServer(cfg);
    evs, states := [], [INITIAL_STATE];
    var i := 0;
    while i < |messages| && server.running
      invariant i == |evs| <= |messages| && fresh(server) && server.cfg == cfg && server.Valid()
      invariant forall k :: k in server.suspendList ==> fresh(server.suspendList[k]) && fresh(server.suspendList[k].redirectors)
      invariant IsRun(cfg, evs, states) && server.Abstract() == states[|evs|]
      invariant forall j :: 0 <= j < |evs| ==> IsEventOf(evs[j], messages[j])
      decreases |messages| - i
    {
      ghost var ev := HandleMessage(server, messages[i]);
      RunGrows(cfg, evs, states, ev, server.Abstract());
      evs, states := evs + [ev], states + [server.Abstract()];
      i := i + 1;
    }
  }
}
