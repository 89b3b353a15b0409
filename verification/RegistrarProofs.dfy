/**
 * What the registrar promises and where it falls short of it: bounded lifetimes, a table that
 * only a successful REGISTER changes, and the exact condition under which the bindings of a
 * call are those of its last REGISTER.
 */
module RegistrarProofs {
  import opened Common
  import opened RegistrarModel

  // ----- what the first pass collects -----

  /** The expiry a contact asks for. */
  function Asked(iv: Intervals, msg: Register, c: Contact): (e: int)
    requires c.Sip? && !c.expires.Malformed?
  {
    if c.expires.Number? then c.expires.n
    else if msg.expiresHeader.Some? then msg.expiresHeader.value
    else iv.max
  }

  function Capped(iv: Intervals, e: int): (r: int) {
    if e != 0 && e > iv.max then iv.max else e
  }

  predicate Acceptable(iv: Intervals, msg: Register, c: Contact) {
    c.Sip? ==> !c.expires.Malformed? && (Asked(iv, msg, c) == 0 || iv.min <= Asked(iv, msg, c))
  }

  predicate Removes(iv: Intervals, msg: Register, c: Contact) {
    c.Star? || (c.Sip? && !c.expires.Malformed? && Asked(iv, msg, c) == 0)
  }

  /** The sip and sips contacts of the message, in order, as they will be registered. */
  function Wanted(iv: Intervals, msg: Register, k: nat): (regs: seq<Registration>)
    requires k <= |msg.contacts|
    requires forall i :: 0 <= i < k ==> Acceptable(iv, msg, msg.contacts[i])
  {
    if k == 0 then []
    else
      var c := msg.contacts[k - 1];
      assert Acceptable(iv, msg, c);
      if c.Sip? then Wanted(iv, msg, k - 1) + [Registration(c.uri, Capped(iv, Asked(iv, msg, c)))]
      else Wanted(iv, msg, k - 1)
  }

  ghost predicate IsLongest(regs: seq<Registration>, longest: int) {
    && (forall i :: 0 <= i < |regs| ==> regs[i].expires <= longest)
    && if regs == [] then longest == -1 else exists i :: 0 <= i < |regs| && regs[i].expires == longest
  }

  ghost predicate InBounds(iv: Intervals, regs: seq<Registration>) {
    forall i :: 0 <= i < |regs| ==> regs[i].expires == 0 || iv.min <= regs[i].expires <= iv.max
  }

  lemma LongestGrows(regs: seq<Registration>, longest: int, r: Registration)
    requires IsLongest(regs, longest) && r.expires >= 0
    ensures IsLongest(regs + [r], if r.expires > longest then r.expires else longest)
  {
    var all := regs + [r];
    assert all[|regs|] == r;
    if r.expires <= longest {
      var i :| 0 <= i < |regs| && regs[i].expires == longest;
      assert all[i] == regs[i];
    }
  }

  /** The pass over `k` contacts, when it has not failed. */
  ghost predicate Collected(iv: Intervals, msg: Register, p: Pass, k: nat)
    requires k <= |msg.contacts|
    requires forall i :: 0 <= i < k ==> Acceptable(iv, msg, msg.contacts[i])
  {
    && (p.removeAll <==> exists i :: 0 <= i < k && msg.contacts[i] == Star)
    && (p.isUnregister <==> exists i :: 0 <= i < k && Removes(iv, msg, msg.contacts[i]))
    && p.registrations == Wanted(iv, msg, k) && InBounds(iv, p.registrations) && IsLongest(p.registrations, p.longest)
  }

  lemma ContactChecked(iv: Intervals, msg: Register, c: Contact, p: Pass)
    requires p.status == Success && 0 < iv.min <= iv.max
    ensures var r := CheckContact(iv, CommonExpires(iv, msg), c, p);
      && (r.status == Success <==> Acceptable(iv, msg, c))
      && (r.status == Success ==>
            && (r.removeAll <==> p.removeAll || c == Star)
            && (r.isUnregister <==> p.isUnregister || Removes(iv, msg, c))
            && (if c.Sip? then
                  var reg := Registration(c.uri, Capped(iv, Asked(iv, msg, c)));
                  && r.registrations == p.registrations + [reg]
                  && r.longest == (if reg.expires > p.longest then reg.expires else p.longest)
                else r.registrations == p.registrations && r.longest == p.longest))
  {
  }

  lemma PassStep(iv: Intervals, msg: Register, k: nat)
    requires 0 < k <= |msg.contacts| && 0 < iv.min <= iv.max
    requires forall i :: 0 <= i < k ==> Acceptable(iv, msg, msg.contacts[i])
    requires Checked(iv, msg, k - 1).status == Success && Collected(iv, msg, Checked(iv, msg, k - 1), k - 1)
    ensures Checked(iv, msg, k).status == Success && Collected(iv, msg, Checked(iv, msg, k), k)
  {
    var p, c := Checked(iv, msg, k - 1), msg.contacts[k - 1];
    ContactChecked(iv, msg, c, p);
    if c.Sip? {
      LongestGrows(p.registrations, p.longest, Registration(c.uri, Capped(iv, Asked(iv, msg, c))));
    }
  }

  /** The pass succeeds exactly when every contact is acceptable, and collects all of them. */
  lemma {:induction false} PassCollects(iv: Intervals, msg: Register, k: nat)
    requires k <= |msg.contacts| && 0 < iv.min <= iv.max
    ensures var p := Checked(iv, msg, k);
      && (p.status == Success <==> forall i :: 0 <= i < k ==> Acceptable(iv, msg, msg.contacts[i]))
      && (p.status == Success ==> Collected(iv, msg, p, k))
  {
    if k > 0 {
      PassCollects(iv, msg, k - 1);
      var p, c := Checked(iv, msg, k - 1), msg.contacts[k - 1];
      if p.status == Success {
        ContactChecked(iv, msg, c, p);
        if Acceptable(iv, msg, c) {
          PassStep(iv, msg, k);
        }
      }
    }
  }

  // ----- lifetimes -----

  /** For any rand(), the spread is a lifetime between the minimum and the longest asked for. */
  lemma SpreadBounds(iv: Intervals, longest: int, rand: nat)
    requires 0 < iv.min <= iv.max && (longest <= 0 || iv.min <= longest <= iv.max)
    ensures var s := Spread(iv, longest, rand);
            iv.min <= s && (longest >= iv.min ==> s <= longest)
  {
  }

  /** What the lifetimes granted to the registrations are bounded by. */
  lemma GrantedBounds(iv: Intervals, t: Table, msg: Register, now: int, rand: nat)
    requires 0 < iv.min <= iv.max
    requires Apply(iv, t, msg, now, rand).status == Success && Star !in msg.contacts
    ensures var regs := Checked(iv, msg, |msg.contacts|).registrations;
            var s := Apply(iv, t, msg, now, rand).spread;
      && (forall i :: 0 <= i < |regs| ==>
            var g := Granted(regs[i].expires, s);
            if regs[i].expires == 0 then g == 0 else iv.min <= g <= regs[i].expires <= iv.max)
      && ((exists i :: 0 <= i < |regs| && regs[i].expires != 0) ==>
            && (forall i :: 0 <= i < |regs| ==> Granted(regs[i].expires, s) <= s)
            && exists i :: 0 <= i < |regs| && Granted(regs[i].expires, s) == s)
  {
    PassCollects(iv, msg, |msg.contacts|);
    var p := Checked(iv, msg, |msg.contacts|);
    SpreadBounds(iv, p.longest, rand);
    var i :| 0 <= i < |p.registrations| && p.registrations[i].expires == p.longest;
    assert p.longest > 0 ==> Granted(p.registrations[i].expires, Spread(iv, p.longest, rand)) == Spread(iv, p.longest, rand);
  }

  /** Every value from the floor up to the longest request is the spread for some rand(). */
  lemma SpreadReachesAll(iv: Intervals, longest: int, v: int)
    requires longest > iv.min && (if longest > iv.min * 2 then iv.min * 2 else iv.min) <= v < longest
    ensures exists rand: nat :: Spread(iv, longest, rand) == v
  {
    var floor := if longest > iv.min * 2 then iv.min * 2 else iv.min;
    SmallRemainder(v - floor, longest - floor);
    assert Spread(iv, longest, v - floor) == v;
  }

  lemma SmallRemainder(a: nat, b: nat)
    requires a < b
    ensures a % b == a
  {
  }

  /** The registered expiry is what the contact asked for, capped at the maximum. */
  lemma {:induction false} WantedIsAsked(iv: Intervals, msg: Register, k: nat, r: Registration)
    requires k <= |msg.contacts| && forall i :: 0 <= i < k ==> Acceptable(iv, msg, msg.contacts[i])
    ensures r in Wanted(iv, msg, k) <==>
            exists i :: 0 <= i < k && msg.contacts[i].Sip? && !msg.contacts[i].expires.Malformed?
                        && r == Registration(msg.contacts[i].uri, Capped(iv, Asked(iv, msg, msg.contacts[i])))
  {
    if k > 0 {
      WantedIsAsked(iv, msg, k - 1, r);
      assert Acceptable(iv, msg, msg.contacts[k - 1]);
    }
  }

  // ----- when the table changes -----

  /** What the first contact that is not acceptable makes of the whole message. */
  function Blame(c: Contact): (s: Status) {
    if c.Sip? && c.expires.Malformed? then InvalidRequest else LessThanMinExpires
  }

  ghost predicate FirstBad(iv: Intervals, msg: Register, i: nat) {
    && i < |msg.contacts| && !Acceptable(iv, msg, msg.contacts[i])
    && forall j :: 0 <= j < i ==> Acceptable(iv, msg, msg.contacts[j])
  }

  lemma {:induction false} FirstBadDecides(iv: Intervals, msg: Register, i: nat, k: nat)
    requires 0 < iv.min <= iv.max && FirstBad(iv, msg, i) && i < k <= |msg.contacts|
    ensures Checked(iv, msg, k).status == Blame(msg.contacts[i])
  {
    if k == i + 1 {
      PassCollects(iv, msg, i);
    } else {
      FirstBadDecides(iv, msg, i, k - 1);
    }
  }

  lemma {:induction false} FindFirstBad(iv: Intervals, msg: Register, i: nat) returns (first: nat)
    requires i < |msg.contacts| && !Acceptable(iv, msg, msg.contacts[i])
    ensures FirstBad(iv, msg, first)
  {
    if j: nat :| j < i && !Acceptable(iv, msg, msg.contacts[j]) {
      first := FindFirstBad(iv, msg, j);
    } else {
      first := i;
    }
  }

  lemma {:induction false} NoSipNothingWanted(iv: Intervals, msg: Register, k: nat)
    requires k <= |msg.contacts| && forall i :: 0 <= i < k ==> Acceptable(iv, msg, msg.contacts[i])
    ensures Wanted(iv, msg, k) == [] <==> forall i :: 0 <= i < k ==> !msg.contacts[i].Sip?
  {
    if k > 0 {
      NoSipNothingWanted(iv, msg, k - 1);
    }
  }

  /**
   * The status of every REGISTER: the first contact with a malformed expiry, or one that is not
   * zero and below the minimum, decides; else a message without contacts is a query; else a `*`
   * is accepted only alone and with an Expires header of zero; else the message is accepted if
   * it has a sip or sips contact, whether it registers or removes it, and is a query otherwise.
   */
  lemma StatusExactly(iv: Intervals, t: Table, msg: Register, now: int, rand: nat)
    requires 0 < iv.min <= iv.max
    ensures forall i: nat :: FirstBad(iv, msg, i) ==> Apply(iv, t, msg, now, rand).status == Blame(msg.contacts[i])
    ensures (forall i :: 0 <= i < |msg.contacts| ==> Acceptable(iv, msg, msg.contacts[i])) ==>
      Apply(iv, t, msg, now, rand).status ==
        if msg.contacts == [] then Query
        else if Star in msg.contacts then (if msg.contacts == [Star] && msg.expiresHeader == Some(0) then Success else InvalidRequest)
        else if exists i :: 0 <= i < |msg.contacts| && msg.contacts[i].Sip? then Success
        else Query
  {
    PassCollects(iv, msg, |msg.contacts|);
    forall i: nat | FirstBad(iv, msg, i)
      ensures Apply(iv, t, msg, now, rand).status == Blame(msg.contacts[i])
    {
      FirstBadDecides(iv, msg, i, |msg.contacts|);
    }
    if forall i :: 0 <= i < |msg.contacts| ==> Acceptable(iv, msg, msg.contacts[i]) {
      NoSipNothingWanted(iv, msg, |msg.contacts|);
      assert |msg.contacts| == 1 ==> msg.contacts == [msg.contacts[0]];
    }
  }

  /** One of the two always applies, so no status is left open, and OutOfOrder is never one. */
  lemma NeverOutOfOrder(iv: Intervals, t: Table, msg: Register, now: int, rand: nat)
    requires 0 < iv.min <= iv.max
    ensures Apply(iv, t, msg, now, rand).status != OutOfOrder
    ensures (exists i: nat :: FirstBad(iv, msg, i)) || forall i :: 0 <= i < |msg.contacts| ==> Acceptable(iv, msg, msg.contacts[i])
  {
    StatusExactly(iv, t, msg, now, rand);
    if i: nat :| i < |msg.contacts| && !Acceptable(iv, msg, msg.contacts[i]) {
      var first := FindFirstBad(iv, msg, i);
    }
  }

  /** Only a successful REGISTER changes the table. */
  lemma TableChangesOnlyOnSuccess(iv: Intervals, t: Table, msg: Register, now: int, rand: nat)
    ensures Apply(iv, t, msg, now, rand).status != Success ==> Apply(iv, t, msg, now, rand).table == t
  {
  }

  /**
   * A message with a `*` either is the one form that is allowed, `*` alone with an Expires
   * header of zero, and then drops every binding of the identity and no other, or it fails.
   */
  lemma {:induction false} StarDropsAllOrFails(iv: Intervals, t: Table, msg: Register, now: int, rand: nat)
    requires 0 < iv.min <= iv.max && Star in msg.contacts
    ensures var r := Apply(iv, t, msg, now, rand);
            if msg.contacts == [Star] && msg.expiresHeader == Some(0)
            then && r.status == Success
                 && (forall key :: key in r.table <==> key in t && key.0 != msg.identity)
                 && (forall key :: key in r.table ==> r.table[key] == t[key])
            else r.status != Success && r.table == t
  {
    PassCollects(iv, msg, |msg.contacts|);
    assert |msg.contacts| == 1 ==> msg.contacts == [msg.contacts[0]];
  }

  // ----- the table after a REGISTER -----

  ghost predicate DistinctUris(regs: seq<Registration>) {
    forall i, j :: 0 <= i < j < |regs| ==> regs[i].uri != regs[j].uri
  }

  ghost predicate Mentions(regs: seq<Registration>, uri: string) {
    exists i :: 0 <= i < |regs| && regs[i].uri == uri
  }

  /** A contact of the message has the row the message asks for. */
  lemma {:induction false} WrittenFor(t: Table, msg: Register, regs: seq<Registration>, spread: int, now: int, k: nat, i: nat)
    requires i < k <= |regs| && DistinctUris(regs)
    ensures var w, key := Written(t, msg, regs, spread, now, k), (msg.identity, regs[i].uri);
      key in w && w[key] == RowFor(msg, regs[i], spread, now)
  {
    if i < k - 1 {
      WrittenFor(t, msg, regs, spread, now, k - 1, i);
      assert regs[i].uri != regs[k - 1].uri;
    }
  }

  /** Rows of other contacts, and of other identities, are as before. */
  lemma {:induction false} WrittenElsewhere(t: Table, msg: Register, regs: seq<Registration>, spread: int, now: int, k: nat, key: (string, string))
    requires k <= |regs| && !(key.0 == msg.identity && Mentions(regs[..k], key.1))
    ensures var w := Written(t, msg, regs, spread, now, k); (key in w <==> key in t) && (key in t ==> w[key] == t[key])
  {
    if k > 0 {
      MentionsUpTo(regs, k - 1);
      WrittenElsewhere(t, msg, regs, spread, now, k - 1, key);
    }
  }

  lemma MentionsUpTo(regs: seq<Registration>, k: nat)
    requires k < |regs|
    ensures forall uri :: Mentions(regs[..k + 1], uri) <==> Mentions(regs[..k], uri) || uri == regs[k].uri
  {
    assert regs[..k + 1] == regs[..k] + [regs[k]];
    forall uri
      ensures Mentions(regs[..k + 1], uri) <==> Mentions(regs[..k], uri) || uri == regs[k].uri
    {
      MentionsOneMore(regs[..k], regs[k], uri);
    }
  }

  lemma MentionsOneMore(regs: seq<Registration>, r: Registration, uri: string)
    ensures Mentions(regs + [r], uri) <==> Mentions(regs, uri) || uri == r.uri
  {
    var all := regs + [r];
    assert all[|regs|] == r && forall i :: 0 <= i < |regs| ==> all[i] == regs[i];
  }

  /** The rows after an accepted REGISTER with ordinary contacts. */
  lemma AcceptedRows(iv: Intervals, t: Table, msg: Register, now: int, rand: nat, uri: string)
    requires Apply(iv, t, msg, now, rand).status == Success && !Checked(iv, msg, |msg.contacts|).removeAll
    requires DistinctUris(Checked(iv, msg, |msg.contacts|).registrations)
    ensures var regs := Checked(iv, msg, |msg.contacts|).registrations;
            var r := Apply(iv, t, msg, now, rand);
            var key := (msg.identity, uri);
      && (forall i :: 0 <= i < |regs| && regs[i].uri == uri ==> key in r.table && r.table[key] == RowFor(msg, regs[i], r.spread, now))
      && (!Mentions(regs, uri) ==>
            && (key in r.table <==> key in t && !IsOld(msg, key, t[key]))
            && (key in r.table ==> r.table[key] == t[key]))
  {
    var regs := Checked(iv, msg, |msg.contacts|).registrations;
    var spread := Apply(iv, t, msg, now, rand).spread;
    assert regs[..|regs|] == regs;
    if Mentions(regs, uri) {
      forall i | 0 <= i < |regs| && regs[i].uri == uri
        ensures var key := (msg.identity, uri);
          var w := Written(t, msg, regs, spread, now, |regs|); key in w && w[key] == RowFor(msg, regs[i], spread, now)
      {
        WrittenFor(t, msg, regs, spread, now, |regs|, i);
      }
    } else {
      WrittenElsewhere(t, msg, regs, spread, now, |regs|, (msg.identity, uri));
    }
  }

  /** The smaller of two. */
  function Min(a: int, b: int): (m: int) { if a < b then a else b }

  /** The row a contact of the message gets: what it asked for, capped, and cut at the spread. */
  lemma StoredRow(iv: Intervals, t: Table, msg: Register, now: int, rand: nat, i: nat)
    requires 0 < iv.min <= iv.max
    requires Apply(iv, t, msg, now, rand).status == Success && Star !in msg.contacts
    requires DistinctUris(Checked(iv, msg, |msg.contacts|).registrations)
    requires i < |msg.contacts| && msg.contacts[i].Sip?
    ensures var c, r := msg.contacts[i], Apply(iv, t, msg, now, rand);
      && !c.expires.Malformed? && (msg.identity, c.uri) in r.table
      && var asked := Asked(iv, msg, c);
         r.table[(msg.identity, c.uri)] ==
           Row(msg.callId, msg.cseq, if asked == 0 then 0 else now + Min(Min(asked, iv.max), r.spread))
  {
    PassCollects(iv, msg, |msg.contacts|);
    var c, regs := msg.contacts[i], Checked(iv, msg, |msg.contacts|).registrations;
    assert Acceptable(iv, msg, c);
    var reg := Registration(c.uri, Capped(iv, Asked(iv, msg, c)));
    WantedIsAsked(iv, msg, |msg.contacts|, reg);
    var j :| 0 <= j < |regs| && regs[j] == reg;
    AcceptedRows(iv, t, msg, now, rand, c.uri);
  }

  /** The lifetime from now on that the table holds for this contact of the message. */
  ghost function Lifetime(t: Table, msg: Register, i: nat, now: int): (n: int)
    requires i < |msg.contacts| && msg.contacts[i].Sip? && (msg.identity, msg.contacts[i].uri) in t
  {
    t[(msg.identity, msg.contacts[i].uri)].expirationTime - now
  }

  /** This contact of the message asks to be registered for some time. */
  ghost predicate AsksForTime(iv: Intervals, msg: Register, i: nat) {
    i < |msg.contacts| && msg.contacts[i].Sip? && !msg.contacts[i].expires.Malformed? && Asked(iv, msg, msg.contacts[i]) != 0
  }

  /**
   * What the table holds after an accepted REGISTER with distinct contacts, for every value of
   * rand(): a contact that asked for nothing is stored as expired, any other gets at least the
   * minimum and at most what it asked for and the maximum.
   */
  lemma LifetimesAreBounded(iv: Intervals, t: Table, msg: Register, now: int, rand: nat, i: nat)
    requires 0 < iv.min <= iv.max
    requires Apply(iv, t, msg, now, rand).status == Success && Star !in msg.contacts
    requires DistinctUris(Checked(iv, msg, |msg.contacts|).registrations)
    requires i < |msg.contacts| && msg.contacts[i].Sip?
    ensures var c, r := msg.contacts[i], Apply(iv, t, msg, now, rand);
      && !c.expires.Malformed? && (msg.identity, c.uri) in r.table
      && if AsksForTime(iv, msg, i)
         then iv.min <= Lifetime(r.table, msg, i, now) <= Min(Asked(iv, msg, c), iv.max) && Lifetime(r.table, msg, i, now) <= r.spread
         else r.table[(msg.identity, c.uri)].expirationTime == 0
  {
    PassCollects(iv, msg, |msg.contacts|);
    assert Acceptable(iv, msg, msg.contacts[i]);
    StoredRow(iv, t, msg, now, rand, i);
    if AsksForTime(iv, msg, i) {
      WantedBounds(iv, msg, i);
      SpreadBounds(iv, Checked(iv, msg, |msg.contacts|).longest, rand);
    }
  }

  lemma WantedBounds(iv: Intervals, msg: Register, i: nat)
    requires 0 < iv.min <= iv.max && Checked(iv, msg, |msg.contacts|).status == Success && AsksForTime(iv, msg, i)
    ensures iv.min <= Min(Asked(iv, msg, msg.contacts[i]), iv.max) <= Checked(iv, msg, |msg.contacts|).longest <= iv.max
  {
    PassCollects(iv, msg, |msg.contacts|);
    var c, p := msg.contacts[i], Checked(iv, msg, |msg.contacts|);
    assert Acceptable(iv, msg, c);
    var reg := Registration(c.uri, Capped(iv, Asked(iv, msg, c)));
    WantedIsAsked(iv, msg, |msg.contacts|, reg);
    var j :| 0 <= j < |p.registrations| && p.registrations[j] == reg;
  }

  /** The duration handed to the plugins is the longest lifetime stored, if anything asked for time. */
  lemma LongestStoredIsTold(iv: Intervals, t: Table, msg: Register, now: int, rand: nat, i: nat) returns (k: nat)
    requires 0 < iv.min <= iv.max && AsksForTime(iv, msg, i)
    requires Apply(iv, t, msg, now, rand).status == Success && Star !in msg.contacts
    requires DistinctUris(Checked(iv, msg, |msg.contacts|).registrations)
    ensures var r := Apply(iv, t, msg, now, rand);
      && AsksForTime(iv, msg, k) && (msg.identity, msg.contacts[k].uri) in r.table
      && Lifetime(r.table, msg, k, now) == r.spread
  {
    PassCollects(iv, msg, |msg.contacts|);
    var p := Checked(iv, msg, |msg.contacts|);
    WantedBounds(iv, msg, i);
    var j :| 0 <= j < |p.registrations| && p.registrations[j].expires == p.longest;
    assert p.registrations[j] in p.registrations;
    WantedIsAsked(iv, msg, |msg.contacts|, p.registrations[j]);
    k :| 0 <= k < |msg.contacts| && msg.contacts[k].Sip? && !msg.contacts[k].expires.Malformed?
         && p.registrations[j] == Registration(msg.contacts[k].uri, Capped(iv, Asked(iv, msg, msg.contacts[k])));
    StoredRow(iv, t, msg, now, rand, k);
    SpreadBounds(iv, p.longest, rand);
  }

  ghost predicate BoundUnder(t: Table, identity: string, callId: string, now: int, uri: string) {
    var key := (identity, uri);
    key in t && t[key].callId == callId && t[key].expirationTime > now
  }

  /** The message registers this contact for some time. */
  ghost predicate Registers(regs: seq<Registration>, uri: string) {
    exists i :: 0 <= i < |regs| && regs[i].uri == uri && regs[i].expires != 0
  }

  /** The unexpired bindings of this identity and Call-ID are exactly the message's contacts. */
  ghost predicate ExactlyTheMessage(iv: Intervals, t: Table, msg: Register, now: int, rand: nat) {
    forall uri :: BoundUnder(Apply(iv, t, msg, now, rand).table, msg.identity, msg.callId, now, uri) <==>
                  Registers(Checked(iv, msg, |msg.contacts|).registrations, uri)
  }

  /** A live binding of this call that the message does not mention and is not older than it. */
  ghost predicate LeftBehind(iv: Intervals, t: Table, msg: Register, now: int, uri: string) {
    && BoundUnder(t, msg.identity, msg.callId, now, uri)
    && !Mentions(Checked(iv, msg, |msg.contacts|).registrations, uri)
    && t[(msg.identity, uri)].cseq >= msg.cseq
  }

  /** Whether one contact ends up bound. */
  lemma BoundAfter(iv: Intervals, t: Table, msg: Register, now: int, rand: nat, uri: string)
    requires 0 < iv.min <= iv.max && now >= 0
    requires Apply(iv, t, msg, now, rand).status == Success && Star !in msg.contacts
    requires DistinctUris(Checked(iv, msg, |msg.contacts|).registrations)
    ensures BoundUnder(Apply(iv, t, msg, now, rand).table, msg.identity, msg.callId, now, uri) <==>
            Registers(Checked(iv, msg, |msg.contacts|).registrations, uri) || LeftBehind(iv, t, msg, now, uri)
    ensures !(Registers(Checked(iv, msg, |msg.contacts|).registrations, uri) && LeftBehind(iv, t, msg, now, uri))
  {
    PassCollects(iv, msg, |msg.contacts|);
    AcceptedRows(iv, t, msg, now, rand, uri);
    GrantedBounds(iv, t, msg, now, rand);
    var regs := Checked(iv, msg, |msg.contacts|).registrations;
    if Mentions(regs, uri) {
      var i :| 0 <= i < |regs| && regs[i].uri == uri;
      assert Registers(regs, uri) <==> regs[i].expires != 0;
    }
  }

  /**
   * After an accepted REGISTER without `*` and with distinct contacts, the unexpired bindings of
   * its identity and Call-ID are exactly its contacts with a non-zero expiry, if and only if no
   * live binding of that call with the same or a higher CSeq is left out of the message.
   */
  lemma ExactIffNothingLeftBehind(iv: Intervals, t: Table, msg: Register, now: int, rand: nat)
    requires 0 < iv.min <= iv.max && now >= 0
    requires Apply(iv, t, msg, now, rand).status == Success && Star !in msg.contacts
    requires DistinctUris(Checked(iv, msg, |msg.contacts|).registrations)
    ensures ExactlyTheMessage(iv, t, msg, now, rand) <==> forall uri :: !LeftBehind(iv, t, msg, now, uri)
  {
    forall uri
      ensures BoundUnder(Apply(iv, t, msg, now, rand).table, msg.identity, msg.callId, now, uri) <==>
              Registers(Checked(iv, msg, |msg.contacts|).registrations, uri) || LeftBehind(iv, t, msg, now, uri)
      ensures !(Registers(Checked(iv, msg, |msg.contacts|).registrations, uri) && LeftBehind(iv, t, msg, now, uri))
    {
      BoundAfter(iv, t, msg, now, rand, uri);
    }
  }

  /** A late REGISTER is accepted and leaves a newer binding standing beside its own. */
  lemma LateRegisterLeavesNewerBinding()
    ensures var iv := Intervals(60, 7200);
            var t: Table := map[("alice", "sip:a") := Row("call", 5, 1000)];
            var msg := Register("alice", "call", 3, None, [Sip("sip:b", Number(600))]);
            && Apply(iv, t, msg, 500, 0).status == Success
            && DistinctUris(Checked(iv, msg, 1).registrations)
            && !ExactlyTheMessage(iv, t, msg, 500, 0)
  {
    var iv := Intervals(60, 7200);
    var t: Table := map[("alice", "sip:a") := Row("call", 5, 1000)];
    var msg := Register("alice", "call", 3, None, [Sip("sip:b", Number(600))]);
    assert Checked(iv, msg, 1) == Pass(Success, false, false, 600, [Registration("sip:b", 600)]) by {
      assert Checked(iv, msg, 0) == START;
    }
    assert Star !in msg.contacts;
    assert BoundUnder(t, "alice", "call", 500, "sip:a");
    assert LeftBehind(iv, t, msg, 500, "sip:a");
    ExactIffNothingLeftBehind(iv, t, msg, 500, 0);
  }

  // ----- stored sequence numbers -----

  /** This contact's row belongs to the call and is at least as new as `h`. */
  ghost predicate AsNew(t: Table, identity: string, callId: string, uri: string, h: int) {
    (identity, uri) in t && t[(identity, uri)].callId == callId && t[(identity, uri)].cseq >= h
  }

  /** Some stored row of this identity and Call-ID is at least as new as `h`. */
  ghost predicate HasCseq(t: Table, identity: string, callId: string, h: int) {
    exists uri :: AsNew(t, identity, callId, uri, h)
  }

  ghost predicate CseqKept(t: Table, t': Table, identity: string, callId: string) {
    forall h :: HasCseq(t, identity, callId, h) ==> HasCseq(t', identity, callId, h)
  }

  /**
   * A row of this call, newer than the message if it is the message's own call, with no row of
   * the call as new that the message leaves alone.
   */
  ghost predicate Overwrites(regs: seq<Registration>, t: Table, msg: Register, callId: string, uri: string) {
    && (msg.identity, uri) in t && t[(msg.identity, uri)].callId == callId
    && (callId == msg.callId ==> t[(msg.identity, uri)].cseq > msg.cseq)
    && forall other :: AsNew(t, msg.identity, callId, other, t[(msg.identity, uri)].cseq) ==> Mentions(regs, other)
  }

  lemma CseqAfter(iv: Intervals, t: Table, msg: Register, now: int, rand: nat, callId: string, h: int)
    requires Apply(iv, t, msg, now, rand).status == Success && !Checked(iv, msg, |msg.contacts|).removeAll
    requires DistinctUris(Checked(iv, msg, |msg.contacts|).registrations)
    ensures HasCseq(Apply(iv, t, msg, now, rand).table, msg.identity, callId, h) <==>
            || (callId == msg.callId && h <= msg.cseq)
            || exists uri :: AsNew(t, msg.identity, callId, uri, h) && !Mentions(Checked(iv, msg, |msg.contacts|).registrations, uri)
  {
    var regs := Checked(iv, msg, |msg.contacts|).registrations;
    var after := Apply(iv, t, msg, now, rand).table;
    forall uri
      ensures AsNew(after, msg.identity, callId, uri, h) <==>
              if Mentions(regs, uri) then callId == msg.callId && h <= msg.cseq
              else AsNew(t, msg.identity, callId, uri, h) && !IsOld(msg, (msg.identity, uri), t[(msg.identity, uri)])
    {
      AcceptedRows(iv, t, msg, now, rand, uri);
    }
    assert Mentions(regs, regs[0].uri);
  }

  /**
   * The newest stored CSeq of a call of the message's identity goes down exactly when the
   * message overwrites every row that carries it: rows of its own call that are newer than the
   * message, or any rows of another call.
   */
  lemma CseqKeptIffNotOverwritten(iv: Intervals, t: Table, msg: Register, now: int, rand: nat, callId: string)
    requires Apply(iv, t, msg, now, rand).status == Success && !Checked(iv, msg, |msg.contacts|).removeAll
    requires DistinctUris(Checked(iv, msg, |msg.contacts|).registrations)
    ensures CseqKept(t, Apply(iv, t, msg, now, rand).table, msg.identity, callId) <==>
            forall uri :: !Overwrites(Checked(iv, msg, |msg.contacts|).registrations, t, msg, callId, uri)
  {
    var regs := Checked(iv, msg, |msg.contacts|).registrations;
    var after := Apply(iv, t, msg, now, rand).table;
    if uri :| Overwrites(regs, t, msg, callId, uri) {
      var h := t[(msg.identity, uri)].cseq;
      CseqAfter(iv, t, msg, now, rand, callId, h);
      assert AsNew(t, msg.identity, callId, uri, h);
    } else {
      forall h | HasCseq(t, msg.identity, callId, h)
        ensures HasCseq(after, msg.identity, callId, h)
      {
        CseqAfter(iv, t, msg, now, rand, callId, h);
        var uri :| AsNew(t, msg.identity, callId, uri, h);
        assert !Overwrites(regs, t, msg, callId, uri);
      }
    }
  }

  /** Rows of other identities are never touched. */
  lemma OtherIdentitiesKept(iv: Intervals, t: Table, msg: Register, now: int, rand: nat, key: (string, string))
    requires key.0 != msg.identity
    ensures var r := Apply(iv, t, msg, now, rand).table; (key in r <==> key in t) && (key in t ==> r[key] == t[key])
  {
    var regs := Checked(iv, msg, |msg.contacts|).registrations;
    var spread := Apply(iv, t, msg, now, rand).spread;
    WrittenElsewhere(t, msg, regs, spread, now, |regs|, key);
  }

  /** What a REGISTER must not do for the newest CSeq of a call to be kept. */
  ghost predicate Harmless(iv: Intervals, t: Table, msg: Register, identity: string, callId: string) {
    var p := Checked(iv, msg, |msg.contacts|);
    msg.identity == identity ==>
      DistinctUris(p.registrations) && !p.removeAll && forall uri :: !Overwrites(p.registrations, t, msg, callId, uri)
  }

  lemma HarmlessKeepsCseq(iv: Intervals, t: Table, msg: Register, now: int, rand: nat, identity: string, callId: string)
    requires Harmless(iv, t, msg, identity, callId)
    ensures CseqKept(t, Apply(iv, t, msg, now, rand).table, identity, callId)
  {
    var after := Apply(iv, t, msg, now, rand).table;
    if Apply(iv, t, msg, now, rand).status == Success {
      if msg.identity == identity {
        CseqKeptIffNotOverwritten(iv, t, msg, now, rand, callId);
      } else {
        forall h | HasCseq(t, identity, callId, h)
          ensures HasCseq(after, identity, callId, h)
        {
          var uri :| AsNew(t, identity, callId, uri, h);
          OtherIdentitiesKept(iv, t, msg, now, rand, (identity, uri));
          assert AsNew(after, identity, callId, uri, h);
        }
      }
    }
  }

  datatype Arrival = Arrival(msg: Register, now: int, rand: nat)

  /** The table before each of a sequence of REGISTERs, and after the last. */
  ghost predicate IsRun(iv: Intervals, arrivals: seq<Arrival>, tables: seq<Table>) {
    && |tables| == |arrivals| + 1
    && forall i :: 0 <= i < |arrivals| ==>
         tables[i + 1] == Apply(iv, tables[i], arrivals[i].msg, arrivals[i].now, arrivals[i].rand).table
  }

  /** Over a run of harmless REGISTERs the newest stored CSeq of a call never decreases. */
  lemma {:induction false} HarmlessRunKeepsCseq(iv: Intervals, arrivals: seq<Arrival>, tables: seq<Table>,
                                                identity: string, callId: string, i: nat, k: nat)
    requires IsRun(iv, arrivals, tables) && i <= k <= |arrivals|
    requires forall j :: i <= j < k ==> Harmless(iv, tables[j], arrivals[j].msg, identity, callId)
    ensures CseqKept(tables[i], tables[k], identity, callId)
  {
    if i < k {
      HarmlessRunKeepsCseq(iv, arrivals, tables, identity, callId, i, k - 1);
      HarmlessKeepsCseq(iv, tables[k - 1], arrivals[k - 1].msg, arrivals[k - 1].now, arrivals[k - 1].rand, identity, callId);
    }
  }

  /** What isOutOfSequence was for: nothing stored for this identity and Call-ID is as new. */
  ghost predicate InSequence(t: Table, msg: Register) {
    !HasCseq(t, msg.identity, msg.callId, msg.cseq)
  }

  /** Had the sequence check been kept, both promises would hold for every REGISTER it lets through. */
  lemma InSequenceKeepsPromises(iv: Intervals, t: Table, msg: Register, now: int, rand: nat)
    requires 0 < iv.min <= iv.max && now >= 0 && InSequence(t, msg)
    requires Apply(iv, t, msg, now, rand).status == Success && Star !in msg.contacts
    requires DistinctUris(Checked(iv, msg, |msg.contacts|).registrations)
    ensures ExactlyTheMessage(iv, t, msg, now, rand)
    ensures CseqKept(t, Apply(iv, t, msg, now, rand).table, msg.identity, msg.callId)
  {
    PassCollects(iv, msg, |msg.contacts|);
    forall uri
      ensures !LeftBehind(iv, t, msg, now, uri)
      ensures !Overwrites(Checked(iv, msg, |msg.contacts|).registrations, t, msg, msg.callId, uri)
    {
      assert !AsNew(t, msg.identity, msg.callId, uri, msg.cseq);
    }
    ExactIffNothingLeftBehind(iv, t, msg, now, rand);
    CseqKeptIffNotOverwritten(iv, t, msg, now, rand, msg.callId);
  }

  /** A late REGISTER for the same contact is accepted and lowers the stored CSeq. */
  lemma LateRegisterLowersCseq()
    ensures var iv := Intervals(60, 7200);
            var t: Table := map[("alice", "sip:a") := Row("call", 5, 1000)];
            var msg := Register("alice", "call", 3, None, [Sip("sip:a", Number(600))]);
            Apply(iv, t, msg, 500, 0).status == Success && !CseqKept(t, Apply(iv, t, msg, 500, 0).table, "alice", "call")
  {
    var iv := Intervals(60, 7200);
    var t: Table := map[("alice", "sip:a") := Row("call", 5, 1000)];
    var msg := Register("alice", "call", 3, None, [Sip("sip:a", Number(600))]);
    var regs := Checked(iv, msg, 1).registrations;
    assert regs == [Registration("sip:a", 600)];
    assert Mentions(regs, "sip:a") by { assert regs[0].uri == "sip:a"; }
    assert Overwrites(regs, t, msg, "call", "sip:a");
    CseqKeptIffNotOverwritten(iv, t, msg, 500, 0, "call");
  }
}
