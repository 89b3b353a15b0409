/**
 * Exactly which messages the observer logs, as what, and what they do to its map, from the
 * fields of the message.
 */
module CseEvents {
  import opened Common
  import opened EventBuilder
  import opened CseObserver

  ghost predicate SameCalls(a: map<string, Entry>, b: map<string, Entry>) {
    forall c :: (c in a <==> c in b) && (c in a ==> a[c] == b[c])
  }

  /** `b` is `a` without this call. */
  ghost predicate Dropped(a: map<string, Entry>, b: map<string, Entry>, callId: string) {
    callId !in b && forall c :: c != callId ==> (c in a <==> c in b) && (c in a ==> a[c] == b[c])
  }

  /** `b` is `a` with this entry for the call. */
  ghost predicate Entered(a: map<string, Entry>, b: map<string, Entry>, callId: string, entry: Entry) {
    callId in b && b[callId] == entry && forall c :: c != callId ==> (c in a <==> c in b) && (c in a ==> a[c] == b[c])
  }

  /** Every BYE logs the end of its call and forgets the call. */
  lemma ByeEndsItsCall(st: State, m: SipMsg, now: int)
    requires m.RequestMsg? && m.verb.ByeVerb?
    ensures var r := Step(st, Observed(m, now));
      && r.log == st.log + [CallEvent(st.sequence + 1, End, m.callId, "", false)]
      && Dropped(st.calls, r.calls, m.callId)
  {
  }

  /** Every REFER logs a transfer. */
  lemma ReferIsATransfer(st: State, m: SipMsg, now: int)
    requires m.RequestMsg? && m.verb.ReferVerb?
    ensures var r := Step(st, Observed(m, now));
      && r.log == st.log + [CallEvent(st.sequence + 1, Transfer, m.callId, "", false)]
      && SameCalls(st.calls, r.calls)
  {
  }

  /**
   * An INVITE outside a dialog logs a request if its call is not in the map, and then enters it
   * there, or if it brings the first identity to a call that is, and then only marks that.
   */
  lemma InviteIsLoggedOnce(st: State, m: SipMsg, now: int)
    requires m.RequestMsg? && m.verb.InviteVerb? && !m.hasToTag
    ensures var r := Step(st, Observed(m, now));
      var e := CallEvent(st.sequence + 1, Request, m.callId, m.branch, m.identity);
      if m.callId !in st.calls
      then r.log == st.log + [e] && Entered(st.calls, r.calls, m.callId, Entry(m.branch, now, m.identity))
      else if m.identity && !st.calls[m.callId].pai
      then r.log == st.log + [e]
           && Entered(st.calls, r.calls, m.callId, Entry(st.calls[m.callId].branch, st.calls[m.callId].time, true))
      else r.log == st.log && SameCalls(st.calls, r.calls)
  {
  }

  ghost predicate MatchesMap(st: State, m: SipMsg) {
    m.callId in st.calls && st.calls[m.callId].branch == m.branch
  }

  /**
   * A 2xx to an INVITE logs a setup if and only if the map has its call with its branch; the call
   * is then forgotten unless the status is 200 itself, which may come again.
   */
  lemma SuccessIsASetup(st: State, m: SipMsg, now: int)
    requires m.ResponseMsg? && m.hasCseq && m.toInvite && 200 <= m.status < 300
    ensures var r := Step(st, Observed(m, now));
      if MatchesMap(st, m)
      then && r.log == st.log + [CallEvent(st.sequence + 1, Setup, m.callId, m.branch, false)]
           && (if m.status == 200 then SameCalls(st.calls, r.calls) else Dropped(st.calls, r.calls, m.callId))
      else r.log == st.log && SameCalls(st.calls, r.calls)
  {
  }

  /**
   * A status of 400 or more to an INVITE, whose call is in the map with its branch, ends the stay
   * of the call there and logs a failure, unless it is the 407 after which the caller tries again.
   */
  lemma ErrorIsAFailure(st: State, m: SipMsg, now: int)
    requires m.ResponseMsg? && m.hasCseq && m.toInvite && m.status >= 400
    ensures var r := Step(st, Observed(m, now));
      if MatchesMap(st, m)
      then && r.log == (if m.status == 407 then st.log else st.log + [CallEvent(st.sequence + 1, Failure, m.callId, m.branch, false)])
           && Dropped(st.calls, r.calls, m.callId)
      else r.log == st.log && SameCalls(st.calls, r.calls)
  {
  }

  /** Is this one of the messages the lemmas above are about? */
  predicate Interesting(m: SipMsg) {
    if m.RequestMsg? then m.verb.ByeVerb? || m.verb.ReferVerb? || (m.verb.InviteVerb? && !m.hasToTag)
    else m.hasCseq && m.toInvite && (200 <= m.status < 300 || m.status >= 400)
  }

  /** Nothing else logs, changes the map or takes a sequence number. */
  lemma NothingElseCounts(st: State, input: Input)
    ensures input.Observed? ==> Step(st, input).sequence == st.sequence + if Interesting(input.msg) then 1 else 0
    ensures input.Observed? && !Interesting(input.msg) ==> Step(st, input) == st
    ensures input.Flush? || input.TransportError? ==> Step(st, input) == st
    ensures input.Cleanup? ==> Step(st, input).log == st.log && Step(st, input).sequence == st.sequence
  {
  }

  /** A cleanup keeps exactly the calls that entered the map at most eight hours ago. */
  lemma CleanupKeepsEightHours(st: State, now: int)
    ensures var r := Step(st, Cleanup(now));
      && (forall c :: c in r.calls <==> c in st.calls && now - st.calls[c].time <= 8 * 60 * 60)
      && (forall c :: c in r.calls ==> r.calls[c] == st.calls[c])
  {
  }

  /** After any run, a new call that is requested, answered with 200 and ended logs just that. */
  lemma {:induction false} CallFromRequestToEnd(inputs: seq<Input>, invite: SipMsg, ok: SipMsg, bye: SipMsg, t0: int, t1: int, t2: int)
    requires invite.RequestMsg? && invite.verb.InviteVerb? && !invite.hasToTag && invite.callId !in Run(inputs).calls
    requires ok.ResponseMsg? && ok.hasCseq && ok.toInvite && ok.status == 200
    requires bye.RequestMsg? && bye.verb.ByeVerb?
    requires invite.callId == ok.callId == bye.callId && invite.branch == ok.branch
    ensures var st := Run(inputs);
      var r := Run(inputs + [Observed(invite, t0), Observed(ok, t1), Observed(bye, t2)]);
      && r.log == st.log + [CallEvent(st.sequence + 1, Request, invite.callId, invite.branch, invite.identity),
                            CallEvent(st.sequence + 2, Setup, invite.callId, invite.branch, false),
                            CallEvent(st.sequence + 3, End, invite.callId, "", false)]
      && invite.callId !in r.calls
  {
    var a, b, c := Observed(invite, t0), Observed(ok, t1), Observed(bye, t2);
    var one, two, three := inputs + [a], inputs + [a, b], inputs + [a, b, c];
    assert one[..|inputs|] == inputs && two[..|inputs| + 1] == one && three[..|inputs| + 2] == two;
    InviteIsLoggedOnce(Run(inputs), invite, t0);
    SuccessIsASetup(Run(one), ok, t1);
    ByeEndsItsCall(Run(two), bye, t2);
  }
}
