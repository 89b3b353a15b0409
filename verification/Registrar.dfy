/**
 * The registrar and its table as coded, with the two loops over the contacts.
 */
module Registrar {
  import opened Common
  import opened RegistrarModel

  class RegDB {
    var rows: Table

    constructor ()
      ensures rows == map[]
    {
      rows := map[];
    }

    /** Always says no: the sequence check was taken out of the table. */
    predicate IsOutOfSequence(identity: string, callId: string, cseq: int) {
      false
    }

    method UpdateBinding(identity: string, contact: string, row: Row)
      modifies this
      ensures rows == old(rows)[(identity, contact) := row]
    {
      rows := rows - {(identity, contact)};
      rows := rows[(identity, contact) := row];
      assert rows == old(rows)[(identity, contact) := row];
    }

    method ExpireOldBindings(msg: Register)
      modifies this
      ensures rows == WithoutOld(old(rows), msg)
    {
      rows := map key | key in rows && !IsOld(msg, key, rows[key]) :: rows[key];
    }

    method ExpireAllBindings(identity: string)
      modifies this
      ensures rows == WithoutIdentity(old(rows), identity)
    {
      rows := map key | key in rows && key.0 != identity :: rows[key];
    }
  }

  class SipRegistrarServer {
    const regDb: RegDB
    const intervals: Intervals

    constructor (intervals: Intervals)
      ensures this.intervals == intervals && fresh(regDb) && regDb.rows == map[]
    {
      this.intervals := intervals;
      regDb := new RegDB();
    }

    /** First loop: check the contacts in order, stopping at the first that fails. */
    method CheckContacts(msg: Register) returns (status: Status, removeAll: bool, isUnregister: bool, longest: int, registrations: seq<Registration>)
      ensures Pass(status, removeAll, isUnregister, longest, registrations) == Checked(intervals, msg, |msg.contacts|)
    {
      var commonExpires := if msg.expiresHeader.Some? then msg.expiresHeader.value else intervals.max;
      status, removeAll, isUnregister, longest, registrations := Success, false, false, -1, [];
      var i := 0;
      while i < |msg.contacts| && status == Success
        invariant i <= |msg.contacts|
        invariant Pass(status, removeAll, isUnregister, longest, registrations) == Checked(intervals, msg, i)
        decreases |msg.contacts| - i
      {
        match msg.contacts[i] {
          case Star =>
            isUnregister, removeAll := true, true;
          case NotSip =>
          case Sip(uri, param) =>
            var expires := commonExpires;
            if param.Number? {
              expires := param.n;
            } else if param.Malformed? {
              status := InvalidRequest;
            }
            if status == Success {
              if expires == 0 {
                isUnregister := true;
              } else if expires < intervals.min {
                status := LessThanMinExpires;
              } else if expires > intervals.max {
                expires := intervals.max;
              }
              if status == Success {
                if expires > longest {
                  longest := expires;
                }
                registrations := registrations + [Registration(uri, expires)];
              }
            }
        }
        i := i + 1;
      }
      if status != Success {
        FailureStops(intervals, msg, i, |msg.contacts|);
      }
    }

    /**
     * For every rand(), a lifetime from the minimum up to the longest asked for, and from twice
     * the minimum up if more than that was asked for.
     */
    method SpreadTime(longest: int, rand: nat) returns (spread: int)
      ensures spread == Spread(intervals, longest, rand)
      ensures longest > intervals.min * 2 ==> intervals.min * 2 <= spread < longest
      ensures intervals.min < longest <= intervals.min * 2 ==> intervals.min <= spread < longest
      ensures longest <= intervals.min && longest <= intervals.min * 2 ==> spread == intervals.min
    {
      var floor := intervals.min * 2;
      if longest > floor {
        spread := rand % (longest - floor) + floor;
      } else if longest > intervals.min {
        spread := rand % (longest - intervals.min) + intervals.min;
      } else {
        spread := intervals.min;
      }
    }

    /** Second loop: act on each valid contact, then expire what the message did not mention. */
    method WriteBindings(msg: Register, registrations: seq<Registration>, spread: int, now: int)
      modifies regDb
      ensures regDb.rows == WithoutOld(Written(old(regDb.rows), msg, registrations, spread, now, |registrations|), msg)
    {
      for i := 0 to |registrations|
        invariant regDb.rows == Written(old(regDb.rows), msg, registrations, spread, now, i)
      {
        var expires := registrations[i].expires;
        var expirationTime := 0;
        if expires != 0 {
          expirationTime := (if expires < spread then expires else spread) + now;
        }
        regDb.UpdateBinding(msg.identity, registrations[i].uri, Row(msg.callId, msg.cseq, expirationTime));
      }
      regDb.ExpireOldBindings(msg);
    }

    method ApplyRegisterToDirectory(msg: Register, now: int, rand: nat)
      returns (status: Status, spread: int, isUnregister: bool)
      modifies regDb
      ensures Result(status, regDb.rows, spread) == Apply(intervals, old(regDb.rows), msg, now, rand)
      ensures isUnregister == Checked(intervals, msg, |msg.contacts|).isUnregister
    {
      spread, isUnregister := 0, false;
      if regDb.IsOutOfSequence(msg.identity, msg.callId, msg.cseq) {
        return OutOfOrder, spread, isUnregister;
      }
      var removeAll, longest, registrations;
      status, removeAll, isUnregister, longest, registrations := CheckContacts(msg);
      if status == Success {
        if |msg.contacts| == 0 {
          status := Query;
        } else if removeAll {
          if msg.expiresHeader == Some(0) && |msg.contacts| == 1 {
            regDb.ExpireAllBindings(msg.identity);
          } else {
            status := InvalidRequest;
          }
        } else if |registrations| > 0 {
          spread := SpreadTime(longest, rand);
          WriteBindings(msg, registrations, spread, now);
        } else {
          status := Query;
        }
      }
    }
  }

  lemma {:induction false} FailureStops(iv: Intervals, msg: Register, i: nat, k: nat)
    requires i <= k <= |msg.contacts| && Checked(iv, msg, i).status != Success
    ensures Checked(iv, msg, k) == Checked(iv, msg, i)
  {
    if i < k {
      FailureStops(iv, msg, i, k - 1);
    }
  }
}
