/**
 * The registrar's update of the binding table: every contact is checked first, and only when
 * all of them pass is the table written. The table is as RegDB.cpp keeps it: one row per
 * identity and contact, and nothing is ever out of sequence.
 *
 * The value of rand() and the current time are inputs.
 */
module RegistrarModel {
  import opened Common

  datatype Status = Success | Query | InvalidRequest | LessThanMinExpires | OutOfOrder

  datatype Expires = Absent | Number(n: int) | Malformed

  /** A Contact entry: `*`, a URI that is not sip or sips, or one that is. */
  datatype Contact = Star | NotSip | Sip(uri: string, expires: Expires)

  datatype Register = Register(identity: string, callId: string, cseq: int, expiresHeader: Option<int>, contacts: seq<Contact>)

  datatype Intervals = Intervals(min: int, max: int)

  datatype Row = Row(callId: string, cseq: int, expirationTime: int)

  /** Keyed by identity and contact. */
  type Table = map<(string, string), Row>

  /** A validated contact with the expiry it is allowed to ask for. */
  datatype Registration = Registration(uri: string, expires: int)

  // ----- first pass -----

  datatype Pass = Pass(status: Status, removeAll: bool, isUnregister: bool, longest: int, registrations: seq<Registration>)

  const START := Pass(Success, false, false, -1, [])

  function CommonExpires(iv: Intervals, msg: Register): (e: int) {
    if msg.expiresHeader.Some? then msg.expiresHeader.value else iv.max
  }

  function CheckSip(iv: Intervals, uri: string, expires: int, p: Pass): (r: Pass) {
    if expires != 0 && expires < iv.min then p.(status := LessThanMinExpires)
    else
      var e := if expires != 0 && expires > iv.max then iv.max else expires;
      p.(isUnregister := p.isUnregister || expires == 0,
         longest := if e > p.longest then e else p.longest,
         registrations := p.registrations + [Registration(uri, e)])
  }

  function CheckContact(iv: Intervals, common: int, c: Contact, p: Pass): (r: Pass) {
    if p.status != Success then p
    else
      match c
      case Star => p.(isUnregister := true, removeAll := true)
      case NotSip => p
      case Sip(uri, Absent) => CheckSip(iv, uri, common, p)
      case Sip(uri, Number(n)) => CheckSip(iv, uri, n, p)
      case Sip(uri, Malformed) => p.(status := InvalidRequest)
  }

  /** The pass over the first `k` contacts. */
  function Checked(iv: Intervals, msg: Register, k: nat): (p: Pass)
    requires k <= |msg.contacts|
  {
    if k == 0 then START
    else CheckContact(iv, CommonExpires(iv, msg), msg.contacts[k - 1], Checked(iv, msg, k - 1))
  }

  // ----- second pass -----

  /** Where the random spread starts: twice the minimum if that leaves room, else the minimum. */
  function SpreadFloor(iv: Intervals, longest: int): (floor: int) {
    if longest > iv.min * 2 then iv.min * 2 else iv.min
  }

  /** The maximum lifetime of this set: a random point from the floor up to the longest request. */
  function Spread(iv: Intervals, longest: int, rand: nat): (s: int)
    ensures var floor := SpreadFloor(iv, longest);
      if longest > floor then floor <= s < longest else s == iv.min
  {
    var floor := SpreadFloor(iv, longest);
    if longest <= floor then iv.min else floor + rand % (longest - floor)
  }

  function Granted(expires: int, spread: int): (g: int) {
    if expires == 0 then 0 else if expires < spread then expires else spread
  }

  function RowFor(msg: Register, r: Registration, spread: int, now: int): (row: Row) {
    Row(msg.callId, msg.cseq, if r.expires == 0 then 0 else Granted(r.expires, spread) + now)
  }

  /** updateBinding for the first `k` registrations. */
  function Written(t: Table, msg: Register, regs: seq<Registration>, spread: int, now: int, k: nat): (r: Table)
    requires k <= |regs|
  {
    if k == 0 then t
    else Written(t, msg, regs, spread, now, k - 1)[(msg.identity, regs[k - 1].uri) := RowFor(msg, regs[k - 1], spread, now)]
  }

  predicate IsOld(msg: Register, key: (string, string), row: Row) {
    key.0 == msg.identity && row.callId == msg.callId && row.cseq < msg.cseq
  }

  /** expireOldBindings. */
  function WithoutOld(t: Table, msg: Register): (r: Table) {
    map key | key in t && !IsOld(msg, key, t[key]) :: t[key]
  }

  /** expireAllBindings. */
  function WithoutIdentity(t: Table, identity: string): (r: Table) {
    map key | key in t && key.0 != identity :: t[key]
  }

  /** The status, the table, and the duration handed to the plugins. */
  datatype Result = Result(status: Status, table: Table, spread: int)

  /** applyRegisterToDirectory. */
  function Apply(iv: Intervals, t: Table, msg: Register, now: int, rand: nat): (r: Result) {
    var p := Checked(iv, msg, |msg.contacts|);
    if p.status != Success then Result(p.status, t, 0)
    else if msg.contacts == [] then Result(Query, t, 0)
    else if p.removeAll then
      if msg.expiresHeader == Some(0) && |msg.contacts| == 1 then Result(Success, WithoutIdentity(t, msg.identity), 0)
      else Result(InvalidRequest, t, 0)
    else if p.registrations == [] then Result(Query, t, 0)
    else
      var spread := Spread(iv, p.longest, rand);
      Result(Success, WithoutOld(Written(t, msg, p.registrations, spread, now, |p.registrations|), msg), spread)
  }
}
