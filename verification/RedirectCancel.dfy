/**
 * What a CANCEL does, as section 9.2 of RFC 3261 asks: every INVITE it applies to
 * that is still waiting is answered 487 and forgotten, and nothing else changes.
 */
module RedirectCancel {
  import opened Common
  import opened RedirectModel
  import opened RedirectProofs

  ghost predicate Meant(st: State, k: nat, session: Session, cseq: int) {
    k in st.suspended && IsInviteFor(st.suspended[k].message, session, cseq)
  }

  ghost predicate OneEntryEach(st: State) {
    forall k, l :: k in st.suspended && l in st.suspended && k != l ==>
      st.suspended[k].message.id != st.suspended[l].message.id
  }

  /** Of the entries in `order`, exactly those meant are gone. */
  ghost predicate Forgets(st: State, r: State, order: seq<nat>, session: Session, cseq: int) {
    && (forall k :: k in r.suspended <==> k in st.suspended && !(k in order && Meant(st, k, session, cseq)))
    && (forall k :: k in r.suspended ==> r.suspended[k] == st.suspended[k])
  }

  ghost predicate Names(st: State, order: seq<nat>, session: Session, cseq: int, id: nat) {
    exists k :: k in order && Meant(st, k, session, cseq) && st.suspended[k].message.id == id
  }

  /** Exactly the requests named are answered 487, on top of what was sent for them before. */
  ghost predicate Terminates(st: State, r: State, order: seq<nat>, session: Session, cseq: int) {
    && |r.outputs| == |st.outputs|
    && forall id: nat :: id < |st.outputs| ==>
         r.outputs[id] == st.outputs[id] + if Names(st, order, session, cseq, id) then [Terminated] else []
  }

  lemma NamesOneMore(st: State, order: seq<nat>, k: nat, session: Session, cseq: int, id: nat)
    ensures Names(st, order + [k], session, cseq, id) <==>
      Names(st, order, session, cseq, id) || (Meant(st, k, session, cseq) && st.suspended[k].message.id == id)
  {
    if Names(st, order, session, cseq, id) {
      var l :| l in order && Meant(st, l, session, cseq) && st.suspended[l].message.id == id;
      assert l in order + [k];
    }
    if Meant(st, k, session, cseq) && st.suspended[k].message.id == id {
      assert k in order + [k];
    }
  }

  /** Visiting one more entry. */
  lemma VisitTerminates(cfg: seq<Redirector>, st: State, mid: State, order: seq<nat>, k: nat, session: Session, cseq: int)
    requires Shaped(cfg, st) && Shaped(cfg, mid) && OneEntryEach(st)
    requires k in st.suspended && k !in order
    requires Forgets(st, mid, order, session, cseq) && Terminates(st, mid, order, session, cseq)
    ensures Terminates(st, CancelOne(cfg, mid, k, session, cseq), order + [k], session, cseq)
  {
    var r := CancelOne(cfg, mid, k, session, cseq);
    var own := st.suspended[k].message.id;
    assert mid.suspended[k] == st.suspended[k];
    assert !Names(st, order, session, cseq, own);
    forall id: nat | id < |st.outputs|
      ensures r.outputs[id] == st.outputs[id] + if Names(st, order + [k], session, cseq, id) then [Terminated] else []
    {
      NamesOneMore(st, order, k, session, cseq, id);
    }
  }

  lemma VisitForgets(cfg: seq<Redirector>, st: State, mid: State, order: seq<nat>, k: nat, session: Session, cseq: int)
    requires Shaped(cfg, mid) && Forgets(st, mid, order, session, cseq)
    ensures Forgets(st, CancelOne(cfg, mid, k, session, cseq), order + [k], session, cseq)
  {
  }

  lemma {:induction false} CancelEachExact(cfg: seq<Redirector>, st: State, order: seq<nat>, session: Session, cseq: int)
    requires Shaped(cfg, st) && OneEntryEach(st)
    requires forall i, j :: 0 <= i < j < |order| ==> order[i] != order[j]
    requires forall k :: k in order ==> k in st.suspended
    ensures var r := CancelEach(cfg, st, order, session, cseq);
      && Forgets(st, r, order, session, cseq) && Terminates(st, r, order, session, cseq)
      && r.received == st.received && r.running == st.running
  {
    if order != [] {
      var init, k := order[..|order| - 1], order[|order| - 1];
      assert order == init + [k];
      CancelEachExact(cfg, st, init, session, cseq);
      var mid := CancelEach(cfg, st, init, session, cseq);
      VisitForgets(cfg, st, mid, init, k, session, cseq);
      VisitTerminates(cfg, st, mid, init, k, session, cseq);
    }
  }

  /**
   * A CANCEL applies to an INVITE with its Call-ID, CSeq number and From side: the same From tag,
   * or no tag on both and the same user, host, transport and port, 5060 when none is given. The
   * To tags are compared only if both have one.
   */
  predicate Applies(invite: Request, session: Session, cseq: int) {
    var a, b := invite.session, session;
    && invite.verb == Invite && invite.cseq == cseq
    && a.callId == b.callId
    && (a.toTag != "" && b.toTag != "" ==> a.toTag == b.toTag)
    && a.fromTag == b.fromTag
    && (a.fromTag == "" ==>
          && a.from.user == b.from.user && a.from.host == b.from.host && a.from.transport == b.from.transport
          && EffectivePort(a.from) == EffectivePort(b.from))
  }

  function EffectivePort(a: Address): (port: nat) {
    if a.port.Some? then a.port.value else 5060
  }

  lemma AppliesIsInviteFor(invite: Request, session: Session, cseq: int)
    ensures IsInviteFor(invite, session, cseq) <==> Applies(invite, session, cseq)
  {
  }

  /**
   * In every run, a CANCEL answers 487 to each waiting INVITE it applies to, which then no longer
   * waits; every other request keeps its outputs and waits or not as before.
   */
  lemma CancelTerminatesExactly(cfg: seq<Redirector>, evs: seq<Event>, states: seq<State>, t: nat, id: nat)
    requires IsRun(cfg, evs, states) && t < |evs| && evs[t].CancelRequest? && id < |states[t].received|
    ensures |states[t].outputs| == |states[t].received| == |states[t + 1].received| == |states[t + 1].outputs|
    ensures if Waiting(states[t], id) && Applies(states[t].received[id], evs[t].session, evs[t].cseq)
            then states[t + 1].outputs[id] == [Terminated] && !Waiting(states[t + 1], id)
            else states[t + 1].outputs[id] == states[t].outputs[id] && (Waiting(states[t + 1], id) <==> Waiting(states[t], id))
  {
    var st, r, session, cseq := states[t], states[t + 1], evs[t].session, evs[t].cseq;
    RunKeepsInv(cfg, evs, states, t);
    assert OutputsOk(st, id);
    AppliesIsInviteFor(st.received[id], session, cseq);
    CancelEachExact(cfg, st, evs[t].order, session, cseq);
    if Waiting(st, id) {
      var k :| k in st.suspended && st.suspended[k].message.id == id;
      assert EntryOk(cfg, st, k);
      assert k in evs[t].order;
      if Meant(st, k, session, cseq) {
        assert Names(st, evs[t].order, session, cseq, id);
      } else {
        assert k in r.suspended;
        assert !Names(st, evs[t].order, session, cseq, id);
      }
    }
  }
}
