/**
 * What every run of the redirect server keeps: each request is waiting or answered exactly
 * once, suspend counts agree with the flags, cancel() reaches exactly the redirectors that
 * asked for a suspension, and resumes may come in any order and any number of times.
 */
module RedirectProofs {
  import opened Common
  import opened RedirectModel

  // ----- the invariant -----

  ghost function SuspendedSlots(slots: seq<Slot>): (r: set<nat>) {
    set i: nat | i < |slots| && slots[i].suspended
  }

  ghost predicate Waiting(st: State, id: nat) {
    exists k :: k in st.suspended && st.suspended[k].message.id == id
  }

  /** The flags of a suspend object agree with its count and with what was returned. */
  ghost predicate FlagsAgree(cfg: seq<Redirector>, st: State, k: nat, s: Suspend) {
    && |s.slots| == |cfg|
    && s.count == |SuspendedSlots(s.slots)|
    && forall i: nat :: i < |cfg| ==>
         && (s.slots[i].suspended ==> s.slots[i].needsCancel)
         && (s.slots[i].needsCancel <==> (k, i) in st.pended)
  }

  ghost predicate EntryOk(cfg: seq<Redirector>, st: State, k: nat)
    requires k in st.suspended
  {
    var s := st.suspended[k];
    && k < st.nextSeqNo
    && s.message.id < |st.received| && s.message == st.received[s.message.id]
    && FlagsAgree(cfg, st, k, s)
  }

  /** What has been sent for request `id`, given whether it is still waiting. */
  ghost predicate OutputsOk(st: State, id: nat)
    requires id < |st.received| == |st.outputs|
  {
    var outs := st.outputs[id];
    && |outs| <= 1
    && (Waiting(st, id) ==> outs == [])
    && (st.received[id].verb.Ack? ==> outs == [] || outs == [ForwardedAck])
    && (!st.received[id].verb.Ack? ==> ForwardedAck !in outs)
    && (st.running && !Waiting(st, id) && !st.received[id].verb.Ack? ==> |outs| == 1)
  }

  ghost predicate CancelsOk(st: State, k: nat) {
    forall i: nat :: st.cancelled[(k, i)] == if (k, i) in st.pended && k !in st.suspended then 1 else 0
  }

  ghost predicate PendedOk(cfg: seq<Redirector>, st: State) {
    forall k: nat, i: nat :: (k, i) in st.pended ==> k < st.nextSeqNo && i < |cfg| && cfg[i].active
  }

  ghost predicate Numbered(st: State) {
    && |st.outputs| == |st.received|
    && forall id: nat :: id < |st.received| ==> st.received[id].id == id
  }

  /** The invariant with request `id`, processed under `seqNo`, left out. */
  ghost predicate InvExcept(cfg: seq<Redirector>, st: State, seqNo: nat, id: nat) {
    && Numbered(st)
    && PendedOk(cfg, st)
    && (forall k :: k in st.suspended && k != seqNo ==>
          EntryOk(cfg, st, k) && st.suspended[k].count > 0 && st.suspended[k].message.id != id)
    && (forall k, l :: k in st.suspended && l in st.suspended && k != l && k != seqNo && l != seqNo ==>
          st.suspended[k].message.id != st.suspended[l].message.id)
    && (forall j: nat :: j < |st.received| && j != id ==> OutputsOk(st, j))
    && (forall k: nat :: k != seqNo ==> CancelsOk(st, k))
  }

  ghost predicate Inv(cfg: seq<Redirector>, st: State) {
    && Numbered(st)
    && PendedOk(cfg, st)
    && (forall k :: k in st.suspended ==> EntryOk(cfg, st, k) && st.suspended[k].count > 0)
    && (forall k, l :: k in st.suspended && l in st.suspended && k != l ==>
          st.suspended[k].message.id != st.suspended[l].message.id)
    && (forall id: nat :: id < |st.received| ==> OutputsOk(st, id))
    && (forall k: nat :: CancelsOk(st, k))
  }

  // ----- one pass over the redirectors -----

  ghost predicate NeededCancel(suspend: Option<Suspend>, i: nat) {
    suspend.Some? && i < |suspend.value.slots| && suspend.value.slots[i].needsCancel
  }

  /** A suspend object records exactly the redirectors `pended` in this round. */
  ghost predicate Records(s: Suspend, req: Request, suspend: Option<Suspend>, pended: set<nat>) {
    && s.message == req
    && SuspendedSlots(s.slots) == pended
    && s.count == |pended|
    && forall i: nat :: i < |s.slots| ==> (s.slots[i].needsCancel <==> NeededCancel(suspend, i) || i in pended)
  }

  /** Its suspend object records exactly the redirectors that returned SEARCH_PENDING. */
  ghost predicate ScanOk(cfg: seq<Redirector>, req: Request, suspend: Option<Suspend>, sc: Scan, k: nat)
    requires WellFormed(sc, |cfg|)
  {
    && (forall i :: i in sc.pended ==> i < k && i < |cfg| && cfg[i].active)
    && (sc.willSuspend <==> sc.pended != {})
    && (suspend.Some? ==> sc.suspend.Some?)
    && (sc.suspend.Some? ==> Records(sc.suspend.value, req, suspend, sc.pended))
  }

  ghost predicate FreshRound(cfg: seq<Redirector>, req: Request, suspend: Option<Suspend>) {
    suspend.Some? ==>
      && suspend.value.message == req && |suspend.value.slots| == |cfg|
      && suspend.value.count == 0 && SuspendedSlots(suspend.value.slots) == {}
  }

  lemma StoredRecords(a: LookUp, i: nat, n: nat, req: Request, suspend: Option<Suspend>,
                      sofar: Option<Suspend>, pended: set<nat>)
    requires i < n && Sized(sofar, n) && (suspend.Some? ==> sofar.Some?)
    requires if sofar.Some? then Records(sofar.value, req, suspend, pended) else pended == {}
    ensures var r := Stored(sofar, a, i, n, req);
            r.Some? ==> Records(r.value, req, suspend, pended)
  {
    var r := Stored(sofar, a, i, n, req);
    if r.Some? {
      var s := if sofar.Some? then sofar.value else NewSuspend(req, n);
      assert Records(s, req, suspend, pended);
      assert SuspendedSlots(r.value.slots) == SuspendedSlots(s.slots);
    }
  }

  lemma MarkPendingRecords(s: Suspend, i: nat, req: Request, suspend: Option<Suspend>, pended: set<nat>)
    requires i < |s.slots| && Records(s, req, suspend, pended) && i !in pended
    ensures Records(MarkPending(s, i), req, suspend, pended + {i})
  {
    assert SuspendedSlots(MarkPending(s, i).slots) == SuspendedSlots(s.slots) + {i};
  }

  lemma PendingRecords(cfg: seq<Redirector>, i: nat, req: Request, suspend: Option<Suspend>, sc: Scan, stored: Suspend, r: Scan)
    requires i < |cfg| && cfg[i].active && WellFormed(sc, |cfg|) && ScanOk(cfg, req, suspend, sc, i)
    requires |stored.slots| == |cfg| && Records(stored, req, suspend, sc.pended)
    requires r.suspend == Some(MarkPending(stored, i)) && r.pended == sc.pended + {i} && r.willSuspend
    requires WellFormed(r, |cfg|)
    ensures ScanOk(cfg, req, suspend, r, i + 1)
  {
    MarkPendingRecords(stored, i, req, suspend, sc.pended);
  }

  lemma ScanOneRecordsPending(cfg: seq<Redirector>, a: LookUp, i: nat, req: Request, suspend: Option<Suspend>, sc: Scan)
    requires i < |cfg| && WellFormed(sc, |cfg|) && ScanOk(cfg, req, suspend, sc, i)
    ensures ScanOk(cfg, req, suspend, ScanOne(cfg[i], a, i, |cfg|, req, sc), i + 1)
  {
    if Consulted(cfg[i], sc) {
      var r := ScanOne(cfg[i], a, i, |cfg|, req, sc);
      var stored := Stored(sc.suspend, a, i, |cfg|, req);
      StoredRecords(a, i, |cfg|, req, suspend, sc.suspend, sc.pended);
      if a.status.SearchPending? {
        PendingRecords(cfg, i, req, suspend, sc, stored.value, r);
      } else {
        assert r.suspend == stored && r.pended == sc.pended && r.willSuspend == sc.willSuspend;
      }
    }
  }

  lemma {:induction false} ScanRecordsPending(cfg: seq<Redirector>, answers: seq<LookUp>, req: Request,
                                              suspend: Option<Suspend>, k: nat)
    requires |answers| == |cfg| && k <= |cfg| && FreshRound(cfg, req, suspend)
    ensures ScanOk(cfg, req, suspend, Scanned(cfg, answers, req, suspend, k), k)
  {
    if k > 0 {
      ScanRecordsPending(cfg, answers, req, suspend, k - 1);
      ScanOneRecordsPending(cfg, answers[k - 1], k - 1, req, suspend, Scanned(cfg, answers, req, suspend, k - 1));
    }
  }

  /** Is redirector `i` asked to look the request up in this pass? */
  ghost predicate Asked(cfg: seq<Redirector>, answers: seq<LookUp>, req: Request, suspend: Option<Suspend>, i: nat)
    requires |answers| == |cfg| && i < |cfg| && Sized(suspend, |cfg|)
  {
    Consulted(cfg[i], Scanned(cfg, answers, req, suspend, i))
  }

  /** The pending set of a pass is exactly who was asked and answered SEARCH_PENDING. */
  lemma {:induction false} PendedIsWhoAnsweredPending(cfg: seq<Redirector>, answers: seq<LookUp>, req: Request,
                                                      suspend: Option<Suspend>, k: nat)
    requires |answers| == |cfg| && k <= |cfg| && Sized(suspend, |cfg|)
    ensures Scanned(cfg, answers, req, suspend, k).pended ==
            set i: nat | i < k && Asked(cfg, answers, req, suspend, i) && answers[i].status.SearchPending?
  {
    if k > 0 {
      PendedIsWhoAnsweredPending(cfg, answers, req, suspend, k - 1);
      var sc := Scanned(cfg, answers, req, suspend, k - 1);
      assert Asked(cfg, answers, req, suspend, k - 1) == Consulted(cfg[k - 1], sc);
    }
  }

  ghost predicate ChangedList(cfg: seq<Redirector>, answers: seq<LookUp>, req: Request, suspend: Option<Suspend>, j: nat)
    requires |answers| == |cfg| && j < |cfg| && Sized(suspend, |cfg|)
  {
    Asked(cfg, answers, req, suspend, j) && answers[j].status.Success? && answers[j].modified
  }

  ghost predicate FailedAt(cfg: seq<Redirector>, answers: seq<LookUp>, req: Request, suspend: Option<Suspend>, j: nat)
    requires |answers| == |cfg| && j < |cfg| && Sized(suspend, |cfg|)
  {
    Asked(cfg, answers, req, suspend, j) && answers[j].status.Error?
  }

  /** The level of a pass is the highest authority that changed the contact list so far. */
  lemma {:induction false} LevelIsHighestAuthority(cfg: seq<Redirector>, answers: seq<LookUp>, req: Request,
                                                   suspend: Option<Suspend>, k: nat)
    requires |answers| == |cfg| && k <= |cfg| && Sized(suspend, |cfg|)
    ensures var sc := Scanned(cfg, answers, req, suspend, k);
      && LOWEST_AUTHORITY_LEVEL <= sc.level
      && (forall j: nat :: j < k && ChangedList(cfg, answers, req, suspend, j) ==> cfg[j].authority <= sc.level)
      && (sc.level == LOWEST_AUTHORITY_LEVEL
          || exists j: nat :: j < k && ChangedList(cfg, answers, req, suspend, j) && cfg[j].authority == sc.level)
      && (sc.error.Some? <==> exists j: nat :: j < k && FailedAt(cfg, answers, req, suspend, j))
  {
    if k > 0 {
      LevelIsHighestAuthority(cfg, answers, req, suspend, k - 1);
      var sc := Scanned(cfg, answers, req, suspend, k - 1);
      assert Asked(cfg, answers, req, suspend, k - 1) == Consulted(cfg[k - 1], sc);
      var r := Scanned(cfg, answers, req, suspend, k);
      if ChangedList(cfg, answers, req, suspend, k - 1) {
        assert r.level == cfg[k - 1].authority && r.error == sc.error;
      } else {
        assert r.level == sc.level;
        if FailedAt(cfg, answers, req, suspend, k - 1) {
          assert r.error.Some?;
        } else {
          assert r.error == sc.error;
        }
      }
    }
  }

  /**
   * A redirector is asked exactly when it is active, no earlier one failed, and its authority
   * is not below that of any earlier redirector that changed the contact list.
   */
  lemma AskedByAuthority(cfg: seq<Redirector>, answers: seq<LookUp>, req: Request, suspend: Option<Suspend>, i: nat)
    requires |answers| == |cfg| && i < |cfg| && Sized(suspend, |cfg|)
    ensures Asked(cfg, answers, req, suspend, i) <==>
      && cfg[i].active && LOWEST_AUTHORITY_LEVEL <= cfg[i].authority
      && forall j: nat :: j < i ==>
           && !FailedAt(cfg, answers, req, suspend, j)
           && (ChangedList(cfg, answers, req, suspend, j) ==> cfg[j].authority <= cfg[i].authority)
  {
    LevelIsHighestAuthority(cfg, answers, req, suspend, i);
  }

  ghost predicate LeftList(cfg: seq<Redirector>, answers: seq<LookUp>, req: Request, suspend: Option<Suspend>, j: nat)
    requires |answers| == |cfg| && j < |cfg| && Sized(suspend, |cfg|)
  {
    Asked(cfg, answers, req, suspend, j) && answers[j].modified
  }

  /** The last of the first `k` redirectors that touched the contact list, or -1. */
  ghost function LastLeft(cfg: seq<Redirector>, answers: seq<LookUp>, req: Request, suspend: Option<Suspend>, k: nat): (j: int)
    requires |answers| == |cfg| && k <= |cfg| && Sized(suspend, |cfg|)
    ensures -1 <= j < k
    ensures j >= 0 ==> LeftList(cfg, answers, req, suspend, j)
    ensures forall l: nat :: j < l < k ==> !LeftList(cfg, answers, req, suspend, l)
  {
    if k == 0 then -1 else if LeftList(cfg, answers, req, suspend, k - 1) then k - 1 else LastLeft(cfg, answers, req, suspend, k - 1)
  }

  /** The contacts are those the last redirector that touched the list left there, none if nobody did. */
  lemma {:induction false} ContactsOfLastChange(cfg: seq<Redirector>, answers: seq<LookUp>, req: Request,
                                                suspend: Option<Suspend>, k: nat)
    requires |answers| == |cfg| && k <= |cfg| && Sized(suspend, |cfg|)
    ensures var j := LastLeft(cfg, answers, req, suspend, k);
      Scanned(cfg, answers, req, suspend, k).contacts == if j >= 0 then answers[j].contacts else 0
  {
    if k > 0 {
      ContactsOfLastChange(cfg, answers, req, suspend, k - 1);
      var sc := Scanned(cfg, answers, req, suspend, k - 1);
      assert Asked(cfg, answers, req, suspend, k - 1) == Consulted(cfg[k - 1], sc);
    }
  }

  /** The error is that of the redirector that failed. */
  lemma {:induction false} ErrorOfFailure(cfg: seq<Redirector>, answers: seq<LookUp>, req: Request,
                                          suspend: Option<Suspend>, k: nat, j: nat)
    requires |answers| == |cfg| && j < k <= |cfg| && Sized(suspend, |cfg|) && FailedAt(cfg, answers, req, suspend, j)
    ensures Scanned(cfg, answers, req, suspend, k).error == Some(answers[j].status.code)
  {
    if j < k - 1 {
      ErrorOfFailure(cfg, answers, req, suspend, k - 1, j);
    }
  }

  // ----- processing one request -----

  /**
   * Request `req` is about to be processed under `seqNo`: nothing was sent for it yet, and its
   * suspend object, if it has one, starts a round with no redirector suspended.
   */
  ghost predicate Ready(cfg: seq<Redirector>, st: State, req: Request, seqNo: nat, suspend: Option<Suspend>) {
    && st.running
    && InvExcept(cfg, st, seqNo, req.id)
    && req.id < |st.received| && req == st.received[req.id] && st.outputs[req.id] == []
    && FreshRound(cfg, req, suspend)
    && (forall i: nat :: st.cancelled[(seqNo, i)] == 0)
    && (forall i: nat :: (seqNo, i) in st.pended <==> NeededCancel(suspend, i))
    && if suspend.None? then seqNo == st.nextSeqNo && seqNo !in st.suspended
       else seqNo < st.nextSeqNo && seqNo in st.suspended
  }

  lemma EntryFramed(cfg: seq<Redirector>, st: State, st': State, k: nat)
    requires k in st.suspended && EntryOk(cfg, st, k)
    requires k in st'.suspended && st'.suspended[k] == st.suspended[k]
    requires st.nextSeqNo <= st'.nextSeqNo && st'.received == st.received
    requires forall i: nat :: (k, i) in st'.pended <==> (k, i) in st.pended
    ensures EntryOk(cfg, st', k)
  {
  }

  lemma OutputsFramed(st: State, st': State, id: nat)
    requires id < |st.received| == |st.outputs| && OutputsOk(st, id)
    requires st'.received == st.received && |st'.outputs| == |st.outputs|
    requires st'.outputs[id] == st.outputs[id] && st'.running == st.running
    requires Waiting(st', id) <==> Waiting(st, id)
    ensures OutputsOk(st', id)
  {
  }

  /** The same waiting requests, apart from `id`, when the tables differ only at `seqNo`. */
  lemma WaitingFramed(st: State, st': State, seqNo: nat, id: nat)
    requires forall k :: k != seqNo ==> (k in st.suspended <==> k in st'.suspended)
    requires forall k :: k != seqNo && k in st.suspended ==> st'.suspended[k] == st.suspended[k]
    requires seqNo in st.suspended ==> st.suspended[seqNo].message.id == id
    requires seqNo in st'.suspended ==> st'.suspended[seqNo].message.id == id
    ensures forall j: nat :: j != id ==> (Waiting(st', j) <==> Waiting(st, j))
  {
    forall j: nat | j != id
      ensures Waiting(st', j) <==> Waiting(st, j)
    {
      if Waiting(st, j) {
        var k :| k in st.suspended && st.suspended[k].message.id == j;
        assert k in st'.suspended && st'.suspended[k].message.id == j;
      }
      if Waiting(st', j) {
        var k :| k in st'.suspended && st'.suspended[k].message.id == j;
        assert k in st.suspended && st.suspended[k].message.id == j;
      }
    }
  }

  /** A step that only concerns request `id` under sequence number `seqNo`. */
  ghost predicate OnlyTouches(st: State, st': State, seqNo: nat, id: nat) {
    && st'.running == st.running && st'.received == st.received
    && |st'.outputs| == |st.outputs| && st.nextSeqNo <= st'.nextSeqNo
    && (forall j: nat :: j < |st.outputs| && j != id ==> st'.outputs[j] == st.outputs[j])
    && (forall k :: k != seqNo ==> (k in st.suspended <==> k in st'.suspended))
    && (forall k :: k != seqNo && k in st.suspended ==> st'.suspended[k] == st.suspended[k])
    && (forall k: nat, i: nat :: k != seqNo ==> ((k, i) in st'.pended <==> (k, i) in st.pended))
    && (forall k: nat, i: nat :: k != seqNo ==> st'.cancelled[(k, i)] == st.cancelled[(k, i)])
    && (seqNo in st.suspended ==> st.suspended[seqNo].message.id == id)
    && (seqNo in st'.suspended ==> st'.suspended[seqNo].message.id == id)
  }

  lemma RestFramed(cfg: seq<Redirector>, st: State, st': State, seqNo: nat, id: nat)
    requires InvExcept(cfg, st, seqNo, id) && OnlyTouches(st, st', seqNo, id) && PendedOk(cfg, st')
    ensures InvExcept(cfg, st', seqNo, id)
  {
    WaitingFramed(st, st', seqNo, id);
    forall k | k in st'.suspended && k != seqNo
      ensures EntryOk(cfg, st', k) && st'.suspended[k].count > 0 && st'.suspended[k].message.id != id
    {
      EntryFramed(cfg, st, st', k);
    }
    forall j: nat | j < |st'.received| && j != id
      ensures OutputsOk(st', j)
    {
      OutputsFramed(st, st', j);
    }
    forall k: nat | k != seqNo
      ensures CancelsOk(st', k)
    {
      assert CancelsOk(st, k);
    }
  }

  lemma Whole(cfg: seq<Redirector>, st: State, seqNo: nat, id: nat)
    requires InvExcept(cfg, st, seqNo, id)
    requires seqNo in st.suspended ==>
               EntryOk(cfg, st, seqNo) && st.suspended[seqNo].count > 0 && st.suspended[seqNo].message.id == id
    requires id < |st.received| && OutputsOk(st, id)
    requires CancelsOk(st, seqNo)
    ensures Inv(cfg, st)
  {
  }

  lemma NotWaiting(cfg: seq<Redirector>, st: State, seqNo: nat, id: nat)
    requires InvExcept(cfg, st, seqNo, id) && seqNo !in st.suspended
    ensures !Waiting(st, id)
  {
  }

  /** After the bookkeeping of a pass the table still differs from a good one only at `seqNo`. */
  ghost predicate Tallied(cfg: seq<Redirector>, st: State, req: Request, seqNo: nat, suspend: Option<Suspend>, sc: Scan)
    requires WellFormed(sc, |cfg|)
  {
    && st.running
    && InvExcept(cfg, st, seqNo, req.id)
    && req.id < |st.received| && req == st.received[req.id] && st.outputs[req.id] == []
    && (forall i: nat :: st.cancelled[(seqNo, i)] == 0)
    && (forall i: nat :: (seqNo, i) in st.pended <==> NeededCancel(suspend, i) || i in sc.pended)
    && (seqNo in st.suspended ==> sc.suspend.Some? && st.suspended[seqNo].message.id == req.id)
    && (sc.suspend.Some? ==> seqNo < st.nextSeqNo)
    && (sc.suspend.None? ==> suspend.None? && sc.pended == {})
    && (suspend.Some? ==> |suspend.value.slots| == |cfg|)
    && ScanOk(cfg, req, suspend, sc, |cfg|)
  }

  lemma TallyPrepares(cfg: seq<Redirector>, st: State, req: Request, seqNo: nat, suspend: Option<Suspend>, sc: Scan)
    requires Ready(cfg, st, req, seqNo, suspend) && WellFormed(sc, |cfg|) && ScanOk(cfg, req, suspend, sc, |cfg|)
    requires suspend.Some? ==> st.suspended[seqNo] == suspend.value
    ensures var st1 := Tally(st, seqNo, suspend.None? && sc.suspend.Some?, sc);
            Tallied(cfg, st1, req, seqNo, suspend, sc) && OnlyTouches(st, st1, seqNo, req.id)
  {
    var st1 := Tally(st, seqNo, suspend.None? && sc.suspend.Some?, sc);
    assert forall k: nat, i: nat :: (k, i) in st1.pended <==> (k, i) in st.pended || (k == seqNo && i in sc.pended);
    assert sc.suspend.None? ==> sc.pended == {};
    RestFramed(cfg, st, st1, seqNo, req.id);
  }

  /** cancel() goes to exactly the active redirectors whose slot asks for it, once each. */
  lemma CancelCallsExact(cfg: seq<Redirector>, seqNo: nat, slots: seq<Slot>, k: nat, i: nat)
    requires |slots| == |cfg|
    ensures multiset(CancelCalls(cfg, seqNo, slots))[(k, i)] ==
            if k == seqNo && i < |cfg| && cfg[i].active && slots[i].needsCancel then 1 else 0
  {
  }

  lemma DropTouches(cfg: seq<Redirector>, st: State, seqNo: nat, slots: seq<Slot>, id: nat)
    requires |slots| == |cfg|
    requires seqNo in st.suspended ==> st.suspended[seqNo].message.id == id
    ensures OnlyTouches(st, Drop(cfg, st, seqNo, slots), seqNo, id)
  {
    forall k: nat, i: nat | k != seqNo
      ensures Drop(cfg, st, seqNo, slots).cancelled[(k, i)] == st.cancelled[(k, i)]
    {
      CancelCallsExact(cfg, seqNo, slots, k, i);
    }
  }

  lemma ConcludeTouches(cfg: seq<Redirector>, st: State, req: Request, seqNo: nat, suspend: Option<Suspend>, sc: Scan)
    requires WellFormed(sc, |cfg|) && Tallied(cfg, st, req, seqNo, suspend, sc)
    ensures var r := Conclude(cfg, st, req, seqNo, sc);
            && OnlyTouches(st, r, seqNo, req.id)
            && r.suspended == st.suspended - {seqNo} && r.pended == st.pended && r.nextSeqNo == st.nextSeqNo
            && r.outputs[req.id] == if Outcome(req, sc).Some? then [Outcome(req, sc).value] else []
  {
    var out := Outcome(req, sc);
    var st1 := if out.Some? then Send(st, req.id, out.value) else st;
    if sc.suspend.Some? {
      DropTouches(cfg, st1, seqNo, sc.suspend.value.slots, req.id);
    }
  }

  lemma ConcludeCancels(cfg: seq<Redirector>, st: State, req: Request, seqNo: nat, suspend: Option<Suspend>, sc: Scan)
    requires WellFormed(sc, |cfg|) && Tallied(cfg, st, req, seqNo, suspend, sc)
    ensures CancelsOk(Conclude(cfg, st, req, seqNo, sc), seqNo)
  {
    var r := Conclude(cfg, st, req, seqNo, sc);
    if sc.suspend.Some? {
      var slots := sc.suspend.value.slots;
      forall i: nat
        ensures r.cancelled[(seqNo, i)] == if (seqNo, i) in r.pended then 1 else 0
      {
        CancelCallsExact(cfg, seqNo, slots, seqNo, i);
        assert i < |cfg| ==> (slots[i].needsCancel <==> (seqNo, i) in st.pended);
      }
    }
  }

  lemma ConcludeKeepsInv(cfg: seq<Redirector>, st: State, req: Request, seqNo: nat, suspend: Option<Suspend>, sc: Scan)
    requires WellFormed(sc, |cfg|) && Tallied(cfg, st, req, seqNo, suspend, sc)
    ensures Inv(cfg, Conclude(cfg, st, req, seqNo, sc))
  {
    var r := Conclude(cfg, st, req, seqNo, sc);
    ConcludeTouches(cfg, st, req, seqNo, suspend, sc);
    ConcludeCancels(cfg, st, req, seqNo, suspend, sc);
    RestFramed(cfg, st, r, seqNo, req.id);
    NotWaiting(cfg, r, seqNo, req.id);
    Whole(cfg, r, seqNo, req.id);
  }

  lemma SuspendKeepsInv(cfg: seq<Redirector>, st: State, req: Request, seqNo: nat, suspend: Option<Suspend>, sc: Scan)
    requires WellFormed(sc, |cfg|) && Tallied(cfg, st, req, seqNo, suspend, sc) && sc.willSuspend
    ensures var r := st.(suspended := st.suspended[seqNo := sc.suspend.value]);
            Inv(cfg, r) && OnlyTouches(st, r, seqNo, req.id)
  {
    var r := st.(suspended := st.suspended[seqNo := sc.suspend.value]);
    RestFramed(cfg, st, r, seqNo, req.id);
    assert Waiting(r, req.id) by { assert seqNo in r.suspended; }
    assert CancelsOk(r, seqNo);
    assert EntryOk(cfg, r, seqNo);
    Whole(cfg, r, seqNo, req.id);
  }

  lemma ProcessKeepsInv(cfg: seq<Redirector>, st: State, req: Request, seqNo: nat,
                        suspend: Option<Suspend>, answers: seq<LookUp>)
    requires |answers| == |cfg| && Ready(cfg, st, req, seqNo, suspend)
    requires suspend.Some? ==> st.suspended[seqNo] == suspend.value
    ensures var r := Process(cfg, st, req, seqNo, suspend, answers);
            Inv(cfg, r) && OnlyTouches(st, r, seqNo, req.id)
  {
    var sc := Scanned(cfg, answers, req, suspend, |cfg|);
    ScanRecordsPending(cfg, answers, req, suspend, |cfg|);
    TallyPrepares(cfg, st, req, seqNo, suspend, sc);
    var st1 := Tally(st, seqNo, suspend.None? && sc.suspend.Some?, sc);
    if sc.error.Some? || !sc.willSuspend {
      ConcludeTouches(cfg, st1, req, seqNo, suspend, sc);
      ConcludeKeepsInv(cfg, st1, req, seqNo, suspend, sc);
    } else {
      SuspendKeepsInv(cfg, st1, req, seqNo, suspend, sc);
    }
  }

  // ----- every message keeps the invariant -----

  lemma InvShaped(cfg: seq<Redirector>, st: State)
    requires Inv(cfg, st)
    ensures Shaped(cfg, st)
  {
    forall k | k in st.suspended
      ensures |st.suspended[k].slots| == |cfg| && st.suspended[k].message.id < |st.outputs|
    {
      assert EntryOk(cfg, st, k);
    }
  }

  lemma ArriveKeepsInv(cfg: seq<Redirector>, st: State, ev: Event)
    requires ev.Arrive? && Inv(cfg, st) && Shaped(cfg, st) && Enabled(cfg, st, ev)
    ensures Inv(cfg, Handle(cfg, st, ev))
    ensures forall k :: k in st.suspended ==>
              k in Handle(cfg, st, ev).suspended && Handle(cfg, st, ev).suspended[k] == st.suspended[k]
  {
    var req := Request(|st.received|, ev.verb, ev.session, ev.cseq);
    var st1 := st.(received := st.received + [req], outputs := st.outputs + [[]]);
    forall k | k in st1.suspended
      ensures EntryOk(cfg, st1, k) && k != st.nextSeqNo
    {
      assert EntryOk(cfg, st, k);
    }
    forall id: nat | id < |st.received|
      ensures OutputsOk(st1, id)
    {
      assert OutputsOk(st, id);
      assert Waiting(st1, id) <==> Waiting(st, id);
    }
    forall k: nat
      ensures CancelsOk(st1, k)
    {
      assert CancelsOk(st, k);
    }
    assert forall i: nat :: (st.nextSeqNo, i) !in st.pended;
    assert forall i: nat :: st.cancelled[(st.nextSeqNo, i)] == 0 by { assert CancelsOk(st, st.nextSeqNo); }
    assert Ready(cfg, st1, req, st.nextSeqNo, None);
    ProcessKeepsInv(cfg, st1, req, st.nextSeqNo, None, ev.answers);
  }

  lemma CancelOneKeepsInv(cfg: seq<Redirector>, st: State, k: nat, session: Session, cseq: int)
    requires Inv(cfg, st) && Shaped(cfg, st) && st.running
    ensures var r := CancelOne(cfg, st, k, session, cseq); Inv(cfg, r) && r.running
  {
    if k in st.suspended && IsInviteFor(st.suspended[k].message, session, cseq) {
      var s := st.suspended[k];
      var id := s.message.id;
      assert EntryOk(cfg, st, k);
      assert OutputsOk(st, id) && Waiting(st, id);
      var st1 := Send(st, id, Terminated);
      var r := CancelOne(cfg, st, k, session, cseq);
      DropTouches(cfg, st1, k, s.slots, id);
      assert InvExcept(cfg, st, k, id);
      RestFramed(cfg, st, r, k, id);
      NotWaiting(cfg, r, k, id);
      DropAccounts(cfg, st, k);
      Whole(cfg, r, k, id);
    }
  }

  /** Dropping a suspended request settles its account with the redirectors. */
  lemma DropAccounts(cfg: seq<Redirector>, st: State, k: nat)
    requires Inv(cfg, st) && k in st.suspended && |st.suspended[k].slots| == |cfg|
    ensures CancelsOk(Drop(cfg, st, k, st.suspended[k].slots), k)
  {
    var slots := st.suspended[k].slots;
    var r := Drop(cfg, st, k, slots);
    assert EntryOk(cfg, st, k) && CancelsOk(st, k);
    forall i: nat
      ensures r.cancelled[(k, i)] == if (k, i) in r.pended then 1 else 0
    {
      CancelCallsExact(cfg, k, slots, k, i);
    }
  }

  lemma {:induction false} CancelEachKeepsInv(cfg: seq<Redirector>, st: State, order: seq<nat>, session: Session, cseq: int)
    requires Inv(cfg, st) && Shaped(cfg, st) && st.running
    ensures var r := CancelEach(cfg, st, order, session, cseq); Inv(cfg, r) && r.running
  {
    if order != [] {
      var init := order[..|order| - 1];
      CancelEachKeepsInv(cfg, st, init, session, cseq);
      CancelOneKeepsInv(cfg, CancelEach(cfg, st, init, session, cseq), order[|order| - 1], session, cseq);
    }
  }

  lemma AcknowledgeClears(s: Suspend, r: int)
    requires 0 <= r < |s.slots| && s.slots[r].suspended
    ensures SuspendedSlots(Acknowledge(s, r).slots) == SuspendedSlots(s.slots) - {r}
  {
  }

  lemma AcknowledgeAgrees(cfg: seq<Redirector>, st: State, k: nat, s: Suspend, r: int)
    requires FlagsAgree(cfg, st, k, s)
    ensures FlagsAgree(cfg, st, k, Acknowledge(s, r))
  {
    if 0 <= r < |s.slots| && s.slots[r].suspended {
      AcknowledgeClears(s, r);
    }
  }

  lemma ResumeKeepsInv(cfg: seq<Redirector>, st: State, ev: Event)
    requires ev.Resume? && Inv(cfg, st) && Shaped(cfg, st) && Enabled(cfg, st, ev)
    ensures Inv(cfg, Handle(cfg, st, ev))
    ensures forall k :: k in st.suspended && k != ev.seqNo ==>
              k in Handle(cfg, st, ev).suspended && Handle(cfg, st, ev).suspended[k] == st.suspended[k]
  {
    var k := ev.seqNo;
    if k in st.suspended && 0 <= ev.redirectorNo < |cfg| && st.suspended[k].slots[ev.redirectorNo].suspended {
      var s := st.suspended[k];
      var id := s.message.id;
      assert EntryOk(cfg, st, k) && CancelsOk(st, k);
      assert OutputsOk(st, id) && Waiting(st, id);
      var t := Acknowledge(s, ev.redirectorNo);
      AcknowledgeAgrees(cfg, st, k, s, ev.redirectorNo);
      var st1 := st.(suspended := st.suspended[k := t]);
      assert InvExcept(cfg, st, k, id);
      RestFramed(cfg, st, st1, k, id);
      if t.count == 0 {
        assert Ready(cfg, st1, t.message, k, Some(t));
        ProcessKeepsInv(cfg, st1, t.message, k, Some(t), ev.answers);
      } else {
        assert EntryOk(cfg, st1, k);
        assert Waiting(st1, id) by { assert k in st1.suspended; }
        Whole(cfg, st1, k, id);
      }
    }
  }

  /** With the server down, a dropped request need not have been answered. */
  lemma DropKeepsInv(cfg: seq<Redirector>, st: State, k: nat)
    requires Inv(cfg, st) && Shaped(cfg, st) && !st.running && k in st.suspended
    ensures Inv(cfg, Drop(cfg, st, k, st.suspended[k].slots))
  {
    var s := st.suspended[k];
    var id := s.message.id;
    assert EntryOk(cfg, st, k);
    assert OutputsOk(st, id) && Waiting(st, id);
    var r := Drop(cfg, st, k, s.slots);
    DropTouches(cfg, st, k, s.slots, id);
    assert InvExcept(cfg, st, k, id);
    RestFramed(cfg, st, r, k, id);
    NotWaiting(cfg, r, k, id);
    DropAccounts(cfg, st, k);
    Whole(cfg, r, k, id);
  }

  lemma {:induction false} DropEachKeepsInv(cfg: seq<Redirector>, st: State, order: seq<nat>)
    requires Inv(cfg, st) && Shaped(cfg, st) && !st.running
    ensures var r := DropEach(cfg, st, order);
            && Inv(cfg, r) && !r.running
            && r.suspended.Keys == st.suspended.Keys - (set k | k in order)
  {
    if order != [] {
      var init, k := order[..|order| - 1], order[|order| - 1];
      DropEachKeepsInv(cfg, st, init);
      assert order == init + [k];
      var r := DropEach(cfg, st, init);
      if k in r.suspended {
        DropKeepsInv(cfg, r, k);
      }
    }
  }

  lemma {:induction false} DropEachWhileStopping(cfg: seq<Redirector>, st: State, order: seq<nat>)
    requires Shaped(cfg, st)
    ensures Shaped(cfg, st.(running := false))
    ensures DropEach(cfg, st, order).(running := false) == DropEach(cfg, st.(running := false), order)
  {
    if order != [] {
      DropEachWhileStopping(cfg, st, order[..|order| - 1]);
    }
  }

  lemma ShutdownKeepsInv(cfg: seq<Redirector>, st: State, ev: Event)
    requires ev.Shutdown? && Inv(cfg, st) && Shaped(cfg, st) && Enabled(cfg, st, ev)
    ensures var r := Handle(cfg, st, ev); Inv(cfg, r) && !r.running && r.suspended == map[]
  {
    var stopping := st.(running := false);
    forall id: nat | id < |st.received|
      ensures OutputsOk(stopping, id)
    {
      assert OutputsOk(st, id);
      assert Waiting(stopping, id) <==> Waiting(st, id);
    }
    forall k | k in st.suspended
      ensures EntryOk(cfg, stopping, k)
    {
      assert EntryOk(cfg, st, k);
    }
    forall k: nat
      ensures CancelsOk(stopping, k)
    {
      assert CancelsOk(st, k);
    }
    DropEachWhileStopping(cfg, st, ev.order);
    DropEachKeepsInv(cfg, stopping, ev.order);
    assert DropEach(cfg, stopping, ev.order).suspended.Keys == {};
  }

  lemma HandleKeepsInv(cfg: seq<Redirector>, st: State, ev: Event)
    requires Inv(cfg, st) && Shaped(cfg, st) && Enabled(cfg, st, ev)
    ensures Inv(cfg, Handle(cfg, st, ev))
    ensures Handle(cfg, st, ev).running <==> !ev.Shutdown?
  {
    match ev
    case Arrive(_, _, _, _) => ArriveKeepsInv(cfg, st, ev);
    case CancelRequest(session, cseq, order) => CancelEachKeepsInv(cfg, st, order, session, cseq);
    case Resume(_, _, _) => ResumeKeepsInv(cfg, st, ev);
    case Shutdown(_) => ShutdownKeepsInv(cfg, st, ev);
  }

  // ----- whole runs -----

  /** `states` is what the server goes through while it handles `evs`. */
  ghost predicate IsRun(cfg: seq<Redirector>, evs: seq<Event>, states: seq<State>) {
    && |states| == |evs| + 1
    && states[0] == INITIAL_STATE
    && forall t: nat :: t < |evs| ==>
         Shaped(cfg, states[t]) && Enabled(cfg, states[t], evs[t]) && states[t + 1] == Handle(cfg, states[t], evs[t])
  }

  lemma {:induction false} RunKeepsInv(cfg: seq<Redirector>, evs: seq<Event>, states: seq<State>, t: nat)
    requires IsRun(cfg, evs, states) && t <= |evs|
    ensures Inv(cfg, states[t]) && Shaped(cfg, states[t])
    ensures !states[t].running ==> t > 0 && evs[t - 1].Shutdown? && states[t].suspended == map[]
  {
    if t == 0 {
      InvShaped(cfg, INITIAL_STATE);
    } else {
      RunKeepsInv(cfg, evs, states, t - 1);
      HandleKeepsInv(cfg, states[t - 1], evs[t - 1]);
      InvShaped(cfg, states[t]);
      if evs[t - 1].Shutdown? {
        ShutdownKeepsInv(cfg, states[t - 1], evs[t - 1]);
      }
    }
  }

  /**
   * At every moment of every run, until shutdown, a request other than an ACK is either in the
   * suspend list or has been sent exactly one final response, and never both; an ACK is never
   * responded to and is forwarded at most once.
   */
  lemma EveryRequestWaitsOrIsAnsweredOnce(cfg: seq<Redirector>, evs: seq<Event>, states: seq<State>, t: nat, id: nat)
    requires IsRun(cfg, evs, states) && t <= |evs| && states[t].running && id < |states[t].received|
    ensures |states[t].outputs| == |states[t].received|
    ensures !states[t].received[id].verb.Ack? ==>
              && (Waiting(states[t], id) <==> states[t].outputs[id] == [])
              && (!Waiting(states[t], id) <==> |states[t].outputs[id]| == 1)
              && ForwardedAck !in states[t].outputs[id]
    ensures states[t].received[id].verb.Ack? ==> states[t].outputs[id] == [] || states[t].outputs[id] == [ForwardedAck]
  {
    RunKeepsInv(cfg, evs, states, t);
    assert OutputsOk(states[t], id);
  }

  /**
   * Between messages of every run, a suspended request has some redirector suspended, its count
   * is how many, and the number the next request would get is not taken.
   */
  lemma SuspendCountsAreExact(cfg: seq<Redirector>, evs: seq<Event>, states: seq<State>, t: nat)
    requires IsRun(cfg, evs, states) && t <= |evs|
    ensures forall k :: k in states[t].suspended ==>
              k < states[t].nextSeqNo && states[t].suspended[k].count == |SuspendedSlots(states[t].suspended[k].slots)| >= 1
    ensures states[t].nextSeqNo !in states[t].suspended
  {
    RunKeepsInv(cfg, evs, states, t);
    forall k | k in states[t].suspended
      ensures k < states[t].nextSeqNo && states[t].suspended[k].count == |SuspendedSlots(states[t].suspended[k].slots)| >= 1
    {
      assert EntryOk(cfg, states[t], k);
    }
  }

  /**
   * Once a sequence number is out of the suspend list -- answered, cancelled or shut down --
   * cancel() has been called exactly once on exactly the active redirectors that ever returned
   * SEARCH_PENDING for it; while it is in the list nobody has been told anything.
   */
  lemma CancelReachesExactlyTheSuspenders(cfg: seq<Redirector>, evs: seq<Event>, states: seq<State>, t: nat, k: nat, i: nat)
    requires IsRun(cfg, evs, states) && t <= |evs|
    ensures k in states[t].suspended ==> states[t].cancelled[(k, i)] == 0
    ensures k !in states[t].suspended ==> states[t].cancelled[(k, i)] == if (k, i) in states[t].pended then 1 else 0
    ensures (k, i) in states[t].pended ==> i < |cfg| && cfg[i].active
  {
    RunKeepsInv(cfg, evs, states, t);
    assert CancelsOk(states[t], k);
  }

  // ----- resumes -----

  /** The redirectors that resumed request `k` between two moments of a run. */
  ghost function Resumed(evs: seq<Event>, from: nat, to: nat, k: nat): (r: set<int>)
    requires from <= to <= |evs|
  {
    set t | from <= t < to && evs[t].Resume? && evs[t].seqNo == k :: evs[t].redirectorNo
  }

  /** A suspend object of which the redirectors `rs` have withdrawn. */
  ghost function Withdrawn(s: Suspend, rs: set<int>): (t: Suspend)
    ensures |t.slots| == |s.slots|
  {
    var slots := seq(|s.slots|, i requires 0 <= i < |s.slots| =>
                       s.slots[i].(suspended := s.slots[i].suspended && i !in rs));
    Suspend(s.message, |SuspendedSlots(slots)|, slots)
  }

  /** Neither a CANCEL of this request nor the end of the server. */
  predicate Spares(req: Request, ev: Event) {
    !ev.Shutdown? && (ev.CancelRequest? ==> !IsInviteFor(req, ev.session, ev.cseq))
  }

  lemma WithdrawnLeaves(s: Suspend, rs: set<int>)
    ensures forall i: nat :: i in SuspendedSlots(Withdrawn(s, rs).slots) <==> i in SuspendedSlots(s.slots) && i !in rs
  {
  }

  /** Another withdrawal, even a repeated or a meaningless one. */
  lemma WithdrawOneMore(s: Suspend, rs: set<int>, r: int)
    ensures Acknowledge(Withdrawn(s, rs), r) == Withdrawn(s, rs + {r})
  {
    var w, x := Withdrawn(s, rs), Withdrawn(s, rs + {r});
    if 0 <= r < |s.slots| && w.slots[r].suspended {
      AcknowledgeClears(w, r);
      assert Acknowledge(w, r).slots == x.slots;
      assert SuspendedSlots(x.slots) == SuspendedSlots(w.slots) - {r};
    } else {
      assert w.slots == x.slots;
    }
  }

  lemma {:induction false} CancelEachSpares(cfg: seq<Redirector>, st: State, order: seq<nat>, session: Session, cseq: int, k: nat)
    requires Shaped(cfg, st) && k in st.suspended && !IsInviteFor(st.suspended[k].message, session, cseq)
    ensures var r := CancelEach(cfg, st, order, session, cseq); k in r.suspended && r.suspended[k] == st.suspended[k]
  {
    if order != [] {
      CancelEachSpares(cfg, st, order[..|order| - 1], session, cseq, k);
    }
  }

  lemma NothingWithdrawn(s: Suspend)
    requires s.count == |SuspendedSlots(s.slots)|
    ensures Withdrawn(s, {}) == s
  {
    assert Withdrawn(s, {}).slots == s.slots;
  }

  /** A resume that is not the last one only withdraws its redirector. */
  lemma ResumeAcknowledges(cfg: seq<Redirector>, st: State, ev: Event)
    requires ev.Resume? && Shaped(cfg, st) && Enabled(cfg, st, ev) && ev.seqNo in st.suspended
    requires Acknowledge(st.suspended[ev.seqNo], ev.redirectorNo).count > 0
    ensures var r := Handle(cfg, st, ev);
      ev.seqNo in r.suspended && r.suspended[ev.seqNo] == Acknowledge(st.suspended[ev.seqNo], ev.redirectorNo)
  {
  }

  lemma StepSpares(cfg: seq<Redirector>, st: State, ev: Event, k: nat)
    requires Inv(cfg, st) && Shaped(cfg, st) && Enabled(cfg, st, ev) && k in st.suspended
    requires Spares(st.suspended[k].message, ev) && !(ev.Resume? && ev.seqNo == k)
    ensures var r := Handle(cfg, st, ev); k in r.suspended && r.suspended[k] == st.suspended[k]
  {
    match ev
    case Arrive(_, _, _, _) => ArriveKeepsInv(cfg, st, ev);
    case CancelRequest(session, cseq, order) => CancelEachSpares(cfg, st, order, session, cseq, k);
    case Resume(_, _, _) => ResumeKeepsInv(cfg, st, ev);
  }

  /**
   * However resumes for a suspended request are ordered, repeated, stale or out of range, and
   * whatever else happens in between, as long as some suspended redirector has not resumed the
   * request stays in the list, and its suspend object depends only on who has resumed.
   */
  lemma {:induction false} ResumesInAnyOrder(cfg: seq<Redirector>, evs: seq<Event>, states: seq<State>, t0: nat, t1: nat, k: nat)
    requires IsRun(cfg, evs, states) && t0 <= t1 <= |evs| && k in states[t0].suspended
    requires forall t :: t0 <= t < t1 ==> Spares(states[t0].suspended[k].message, evs[t])
    requires exists i :: i in SuspendedSlots(states[t0].suspended[k].slots) && i !in Resumed(evs, t0, t1, k)
    ensures k in states[t1].suspended
    ensures states[t1].suspended[k] == Withdrawn(states[t0].suspended[k], Resumed(evs, t0, t1, k))
  {
    var s := states[t0].suspended[k];
    if t0 == t1 {
      RunKeepsInv(cfg, evs, states, t0);
      assert EntryOk(cfg, states[t0], k);
      assert Resumed(evs, t0, t1, k) == {};
      NothingWithdrawn(s);
    } else {
      var i :| i in SuspendedSlots(s.slots) && i !in Resumed(evs, t0, t1, k);
      var t := t1 - 1;
      var ev, st := evs[t], states[t];
      var before := Resumed(evs, t0, t, k);
      assert before <= Resumed(evs, t0, t1, k);
      ResumesInAnyOrder(cfg, evs, states, t0, t, k);
      RunKeepsInv(cfg, evs, states, t);
      if ev.Resume? && ev.seqNo == k {
        assert Resumed(evs, t0, t1, k) == before + {ev.redirectorNo};
        WithdrawOneMore(s, before, ev.redirectorNo);
        WithdrawnLeaves(s, before + {ev.redirectorNo});
        assert i in SuspendedSlots(Withdrawn(s, before + {ev.redirectorNo}).slots);
        ResumeAcknowledges(cfg, st, ev);
      } else {
        assert Resumed(evs, t0, t1, k) == before;
        StepSpares(cfg, st, ev, k);
      }
    }
  }

  /**
   * The request is reprocessed at the moment the last suspended redirector resumes, with no
   * redirector left suspended and every other flag as it was.
   */
  lemma LastResumeReprocesses(cfg: seq<Redirector>, evs: seq<Event>, states: seq<State>, t0: nat, t1: nat, k: nat)
    requires IsRun(cfg, evs, states) && t0 <= t1 < |evs| && k in states[t0].suspended
    requires forall t :: t0 <= t < t1 ==> Spares(states[t0].suspended[k].message, evs[t])
    requires exists i :: i in SuspendedSlots(states[t0].suspended[k].slots) && i !in Resumed(evs, t0, t1, k)
    requires evs[t1].Resume? && evs[t1].seqNo == k
    requires forall i :: i in SuspendedSlots(states[t0].suspended[k].slots) ==> i in Resumed(evs, t0, t1 + 1, k)
    ensures var s := states[t0].suspended[k];
            var t := Withdrawn(s, Resumed(evs, t0, t1 + 1, k));
            && |evs[t1].answers| == |cfg| == |t.slots| && t.message.id < |states[t1].outputs|
            && SuspendedSlots(t.slots) == {}
            && states[t1 + 1] == Process(cfg, states[t1].(suspended := states[t1].suspended[k := t]), t.message, k, Some(t), evs[t1].answers)
  {
    var s := states[t0].suspended[k];
    var before, r := Resumed(evs, t0, t1, k), evs[t1].redirectorNo;
    ResumesInAnyOrder(cfg, evs, states, t0, t1, k);
    RunKeepsInv(cfg, evs, states, t1);
    assert Resumed(evs, t0, t1 + 1, k) == before + {r};
    var i :| i in SuspendedSlots(s.slots) && i !in before;
    assert i == r;
    WithdrawOneMore(s, before, r);
    WithdrawnLeaves(s, before);
    WithdrawnLeaves(s, before + {r});
    assert SuspendedSlots(Withdrawn(s, before + {r}).slots) == {};
  }
}
