/**
 * The redirect server as a step function: what one pass over the redirectors does to a
 * request, and what each queued message does to the whole server.
 *
 * What the redirectors return is an input (`LookUp`), and so is the order in which the hash
 * table of suspended requests is walked. Requests are numbered in order of arrival; that
 * number is only used to say which request an output belongs to.
 */
module RedirectModel {
  import opened Common

  /** Methods the server tells apart. CANCEL is a message of its own, see `Event`. */
  datatype Verb = Invite | Ack | OtherMethod

  /** What identifies the From side when neither message has a From tag. */
  datatype Address = Address(user: string, host: string, port: Option<nat>, transport: string)

  /** Call-ID, From and To of a message. A missing tag is an empty one. */
  datatype Session = Session(callId: string, fromTag: string, from: Address, toTag: string)

  const SIP_PORT: nat := 5060

  predicate SamePort(a: Option<nat>, b: Option<nat>) {
    a == b || (a == None && b == Some(SIP_PORT)) || (a == Some(SIP_PORT) && b == None)
  }

  predicate SameAddress(a: Address, b: Address) {
    a.host == b.host && SamePort(a.port, b.port) && a.transport == b.transport && a.user == b.user
  }

  /** isSameSession: a missing To tag goes with any, so this is not an equivalence. */
  predicate SameSession(a: Session, b: Session) {
    && a.callId == b.callId
    && (if a.fromTag == "" && b.fromTag == "" then SameAddress(a.from, b.from) else a.fromTag == b.fromTag)
    && (a.toTag == "" || b.toTag == "" || a.toTag == b.toTag)
  }

  datatype Request = Request(id: nat, verb: Verb, session: Session, cseq: int)

  /** A configured redirector: did it initialize, and its authority level. */
  datatype Redirector = Redirector(active: bool, authority: int)

  datatype Status = Success | Error(code: int) | SearchPending | InvalidStatus

  /**
   * What one call of a redirector's lookUp leaves behind: its status, whether its private
   * storage pointer is set, whether it modified the contact list, and the list's new size.
   */
  datatype LookUp = LookUp(status: Status, storage: bool, modified: bool, contacts: nat)

  /** What the server sends for a request: a final response, or the forwarded ACK. */
  datatype Output = Moved(contacts: nat) | NotFound | Failed(code: int) | Terminated | ForwardedAck

  datatype Slot = Slot(suspended: bool, needsCancel: bool, storage: bool)

  /** The contents of a suspend object. */
  datatype Suspend = Suspend(message: Request, count: int, slots: seq<Slot>)

  const LOWEST_AUTHORITY_LEVEL := 0

  // ----- one pass over the redirectors -----

  /** Progress of a pass. `pended` collects the redirectors that returned SEARCH_PENDING. */
  datatype Scan = Scan(suspend: Option<Suspend>, willSuspend: bool, error: Option<int>,
                       level: int, contacts: nat, pended: set<nat>)

  function NewSuspend(req: Request, n: nat): (s: Suspend)
  {
    Suspend(req, 0, seq(n, _ => Slot(false, false, false)))
  }

  predicate Consulted(d: Redirector, sc: Scan) {
    sc.error.None? && d.active && d.authority >= sc.level
  }

  ghost predicate Sized(suspend: Option<Suspend>, n: nat) {
    suspend.Some? ==> |suspend.value.slots| == n
  }

  ghost predicate WellFormed(sc: Scan, n: nat) {
    Sized(sc.suspend, n) && (sc.willSuspend ==> sc.suspend.Some?)
  }

  /** The suspend object once lookUp has run: created if it is needed now, storage recorded. */
  function Stored(suspend: Option<Suspend>, a: LookUp, i: nat, n: nat, req: Request): (r: Option<Suspend>)
    requires i < n && Sized(suspend, n)
    ensures Sized(r, n) && (a.status.SearchPending? ==> r.Some?)
  {
    if suspend.None? && !a.status.SearchPending? && !a.storage then None
    else
      var s := if suspend.Some? then suspend.value else NewSuspend(req, n);
      Some(s.(slots := s.slots[i := s.slots[i].(storage := a.storage)]))
  }

  function MarkPending(s: Suspend, i: nat): (r: Suspend)
    requires i < |s.slots|
    ensures |r.slots| == |s.slots|
  {
    s.(count := s.count + 1,
       slots := s.slots[i := s.slots[i].(suspended := true, needsCancel := true)])
  }

  /** The effect of redirector `i` answering `a`, if it is consulted at all. */
  function ScanOne(d: Redirector, a: LookUp, i: nat, n: nat, req: Request, sc: Scan): (r: Scan)
    requires i < n && WellFormed(sc, n)
    ensures WellFormed(r, n)
  {
    if !Consulted(d, sc) then sc
    else
      var stored := Stored(sc.suspend, a, i, n, req);
      var sc1 := sc.(suspend := stored, contacts := if a.modified then a.contacts else sc.contacts);
      match a.status
      case Success => sc1.(level := if a.modified then d.authority else sc.level)
      case Error(code) => sc1.(error := Some(code))
      case SearchPending =>
        sc1.(willSuspend := true, pended := sc.pended + {i}, suspend := Some(MarkPending(stored.value, i)))
      case InvalidStatus => sc1
  }

  /** The pass after its first `k` redirectors. */
  function Scanned(cfg: seq<Redirector>, answers: seq<LookUp>, req: Request, suspend: Option<Suspend>, k: nat): (sc: Scan)
    requires |answers| == |cfg| && k <= |cfg| && Sized(suspend, |cfg|)
    ensures WellFormed(sc, |cfg|)
  {
    if k == 0 then Scan(suspend, false, None, LOWEST_AUTHORITY_LEVEL, 0, {})
    else ScanOne(cfg[k - 1], answers[k - 1], k - 1, |cfg|, req, Scanned(cfg, answers, req, suspend, k - 1))
  }

  // ----- the server -----

  datatype State = State(
    running: bool,
    suspended: map<nat, Suspend>,
    nextSeqNo: nat,
    received: seq<Request>,           // requests other than CANCEL, in order of arrival
    outputs: seq<seq<Output>>,        // what was sent for each of them
    cancelled: multiset<(nat, nat)>,  // calls of cancel(seqNo) on redirector i
    pended: set<(nat, nat)>           // (seqNo, i) that returned SEARCH_PENDING in some round
  )

  const INITIAL_STATE := State(true, map[], 0, [], [], multiset{}, {})

  datatype Event =
    | Arrive(verb: Verb, session: Session, cseq: int, answers: seq<LookUp>)
    | CancelRequest(session: Session, cseq: int, order: seq<nat>)
    | Resume(seqNo: nat, redirectorNo: int, answers: seq<LookUp>)
    | Shutdown(order: seq<nat>)

  /** Does a CANCEL with this session and CSeq number apply to the request? */
  predicate IsInviteFor(req: Request, session: Session, cseq: int) {
    req.verb.Invite? && SameSession(req.session, session) && req.cseq == cseq
  }

  ghost predicate Shaped(cfg: seq<Redirector>, st: State) {
    && |st.outputs| == |st.received|
    && forall k :: k in st.suspended ==>
         |st.suspended[k].slots| == |cfg| && st.suspended[k].message.id < |st.outputs|
  }

  function CancelCalls(cfg: seq<Redirector>, seqNo: nat, slots: seq<Slot>): (calls: set<(nat, nat)>)
    requires |slots| == |cfg|
  {
    set i: nat | i < |cfg| && cfg[i].active && slots[i].needsCancel :: (seqNo, i)
  }

  /** cancelRedirect: tell the redirectors that need it, drop the suspend object. */
  function Drop(cfg: seq<Redirector>, st: State, seqNo: nat, slots: seq<Slot>): (r: State)
    requires |slots| == |cfg|
  {
    st.(suspended := st.suspended - {seqNo},
        cancelled := st.cancelled + multiset(CancelCalls(cfg, seqNo, slots)))
  }

  function Send(st: State, id: nat, out: Output): (r: State)
    requires id < |st.outputs|
  {
    st.(outputs := st.outputs[id := st.outputs[id] + [out]])
  }

  /** The output of a finished pass, if there is one: an ACK may be dropped. */
  function Outcome(req: Request, sc: Scan): (out: Option<Output>) {
    if req.verb.Ack? then
      if sc.error.None? && sc.contacts == 1 then Some(ForwardedAck) else None
    else if sc.error.Some? then Some(Failed(sc.error.value))
    else if sc.contacts > 0 then Some(Moved(sc.contacts))
    else Some(NotFound)
  }

  function Conclude(cfg: seq<Redirector>, st: State, req: Request, seqNo: nat, sc: Scan): (r: State)
    requires req.id < |st.outputs| && Sized(sc.suspend, |cfg|)
  {
    var out := Outcome(req, sc);
    var st1 := if out.Some? then Send(st, req.id, out.value) else st;
    if sc.suspend.Some? then Drop(cfg, st1, seqNo, sc.suspend.value.slots) else st1
  }

  /** The bookkeeping of a pass: a new suspend object takes the sequence number. */
  function Tally(st: State, seqNo: nat, created: bool, sc: Scan): (r: State) {
    st.(nextSeqNo := if created && seqNo == st.nextSeqNo then st.nextSeqNo + 1 else st.nextSeqNo,
        pended := st.pended + set i | i in sc.pended :: (seqNo, i))
  }

  /** processRedirect. */
  function Process(cfg: seq<Redirector>, st: State, req: Request, seqNo: nat,
                   suspend: Option<Suspend>, answers: seq<LookUp>): (r: State)
    requires |answers| == |cfg| && Sized(suspend, |cfg|) && req.id < |st.outputs|
  {
    var sc := Scanned(cfg, answers, req, suspend, |cfg|);
    var st1 := Tally(st, seqNo, suspend.None? && sc.suspend.Some?, sc);
    if sc.error.Some? || !sc.willSuspend then Conclude(cfg, st1, req, seqNo, sc)
    else st1.(suspended := st1.suspended[seqNo := sc.suspend.value])
  }

  /** One suspended request meeting a CANCEL: answered 487 and dropped if it is the one meant. */
  function CancelOne(cfg: seq<Redirector>, st: State, k: nat, session: Session, cseq: int): (r: State)
    requires Shaped(cfg, st)
    ensures Shaped(cfg, r)
  {
    if k in st.suspended && IsInviteFor(st.suspended[k].message, session, cseq) then
      Drop(cfg, Send(st, st.suspended[k].message.id, Terminated), k, st.suspended[k].slots)
    else st
  }

  function CancelEach(cfg: seq<Redirector>, st: State, order: seq<nat>, session: Session, cseq: int): (r: State)
    requires Shaped(cfg, st)
    ensures Shaped(cfg, r)
  {
    if order == [] then st
    else CancelOne(cfg, CancelEach(cfg, st, order[..|order| - 1], session, cseq), order[|order| - 1], session, cseq)
  }

  function DropEach(cfg: seq<Redirector>, st: State, order: seq<nat>): (r: State)
    requires Shaped(cfg, st)
    ensures Shaped(cfg, r)
  {
    if order == [] then st
    else
      var st1 := DropEach(cfg, st, order[..|order| - 1]);
      var k := order[|order| - 1];
      if k in st1.suspended then Drop(cfg, st1, k, st1.suspended[k].slots) else st1
  }

  /** Redirector `r` withdraws its suspension of a request; anything else is ignored. */
  function Acknowledge(s: Suspend, r: int): (t: Suspend)
    ensures |t.slots| == |s.slots| && t.message == s.message
  {
    if 0 <= r < |s.slots| && s.slots[r].suspended then
      s.(count := s.count - 1, slots := s.slots[r := s.slots[r].(suspended := false)])
    else s
  }

  ghost predicate Enumerates(order: seq<nat>, keys: set<nat>) {
    && (forall k :: k in order <==> k in keys)
    && forall i, j :: 0 <= i < j < |order| ==> order[i] != order[j]
  }

  /** The server is up, and the inputs fit its configuration and its table. */
  ghost predicate Enabled(cfg: seq<Redirector>, st: State, ev: Event) {
    && st.running
    && match ev
       case Arrive(_, _, _, answers) => |answers| == |cfg|
       case CancelRequest(_, _, order) => Enumerates(order, st.suspended.Keys)
       case Resume(_, _, answers) => |answers| == |cfg|
       case Shutdown(order) => Enumerates(order, st.suspended.Keys)
  }

  /** handleMessage. */
  ghost function Handle(cfg: seq<Redirector>, st: State, ev: Event): (r: State)
    requires Shaped(cfg, st) && Enabled(cfg, st, ev)
  {
    match ev
    case Arrive(verb, session, cseq, answers) =>
      var req := Request(|st.received|, verb, session, cseq);
      var st1 := st.(received := st.received + [req], outputs := st.outputs + [[]]);
      Process(cfg, st1, req, st.nextSeqNo, None, answers)
    case CancelRequest(session, cseq, order) =>
      CancelEach(cfg, st, order, session, cseq)
    case Resume(seqNo, redirectorNo, answers) =>
      if seqNo !in st.suspended then st
      else
        var s := st.suspended[seqNo];
        if !(0 <= redirectorNo < |cfg|) || !s.slots[redirectorNo].suspended then st
        else
          var t := Acknowledge(s, redirectorNo);
          var st1 := st.(suspended := st.suspended[seqNo := t]);
          if t.count == 0 then Process(cfg, st1, t.message, seqNo, Some(t), answers) else st1
    case Shutdown(order) =>
      DropEach(cfg, st, order).(running := false)
  }
}
