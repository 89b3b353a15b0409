/** The bindings a 200 OK to a REGISTER lists: those found in the table and those just made. */
module RegistrarMerge {

  datatype Binding = Binding(contact: string, callId: string, expirationTime: int)

  /** The same contact, registered by the same call. */
  predicate Same(a: Binding, b: Binding) {
    a.contact == b.contact && a.callId == b.callId
  }

  predicate Represents(bs: seq<Binding>, b: Binding) {
    exists i :: 0 <= i < |bs| && Same(b, bs[i])
  }

  ghost predicate Distinct(bs: seq<Binding>) {
    forall i, j :: 0 <= i < j < |bs| ==> !Same(bs[i], bs[j])
  }

  /** The new bindings that the unexpired ones do not represent. */
  function Unlisted(unexpired: seq<Binding>, news: seq<Binding>): (r: seq<Binding>) {
    if news == [] then []
    else
      var front, last := news[..|news| - 1], news[|news| - 1];
      Unlisted(unexpired, front) + if Represents(unexpired, last) then [] else [last]
  }

  method MergeNewBindings(unexpired: seq<Binding>, newBindings: seq<Binding>) returns (merged: seq<Binding>)
    ensures merged == unexpired + Unlisted(unexpired, newBindings)
  {
    merged := unexpired;
    for k := 0 to |newBindings|
      invariant merged == unexpired + Unlisted(unexpired, newBindings[..k])
    {
      var rec := newBindings[k];
      assert newBindings[..k + 1][..k] == newBindings[..k];
      var found, i := false, 0;
      while i < |unexpired| && !found
        invariant i <= |unexpired|
        invariant found <==> exists j :: 0 <= j < i && Same(rec, unexpired[j])
        decreases |unexpired| - i
      {
        found := rec.contact == unexpired[i].contact && rec.callId == unexpired[i].callId;
        i := i + 1;
      }
      if !found {
        merged := merged + [rec];
      }
    }
    assert newBindings[..|newBindings|] == newBindings;
  }

  lemma {:induction false} UnlistedAre(unexpired: seq<Binding>, news: seq<Binding>, b: Binding)
    ensures b in Unlisted(unexpired, news) <==> b in news && !Represents(unexpired, b)
  {
    if news != [] {
      UnlistedAre(unexpired, news[..|news| - 1], b);
      assert news == news[..|news| - 1] + [news[|news| - 1]];
    }
  }

  lemma {:induction false} UnlistedDistinct(unexpired: seq<Binding>, news: seq<Binding>)
    requires Distinct(news)
    ensures Distinct(Unlisted(unexpired, news))
  {
    if news != [] {
      var n := |news| - 1;
      var front, us := news[..n], Unlisted(unexpired, news[..n]);
      UnlistedDistinct(unexpired, front);
      forall i | 0 <= i < |us|
        ensures !Same(us[i], news[n])
      {
        UnlistedAre(unexpired, front, us[i]);
        assert us[i] in front;
      }
    }
  }

  /** Is every binding listed once, whichever of the two it came from? */
  ghost predicate ListedOnce(unexpired: seq<Binding>, news: seq<Binding>) {
    Distinct(unexpired + Unlisted(unexpired, news))
  }

  /** This contact, registered under this Call-ID, is in the list. */
  ghost predicate Lists(bs: seq<Binding>, contact: string, callId: string) {
    exists i :: 0 <= i < |bs| && bs[i].contact == contact && bs[i].callId == callId
  }

  /** The merged list has the contacts of both lists, a contact counted once per Call-ID. */
  lemma MergedListsBoth(unexpired: seq<Binding>, news: seq<Binding>, contact: string, callId: string)
    ensures var merged := unexpired + Unlisted(unexpired, news);
      Lists(merged, contact, callId) <==> Lists(unexpired, contact, callId) || Lists(news, contact, callId)
  {
    var b := Binding(contact, callId, 0);
    MergedIsUnion(unexpired, news, b);
    var merged := unexpired + Unlisted(unexpired, news);
    assert Lists(merged, contact, callId) == Represents(merged, b);
    assert Lists(unexpired, contact, callId) == Represents(unexpired, b);
    assert Lists(news, contact, callId) == Represents(news, b);
  }

  /** A contact that is already listed, but by another call, is listed again. */
  lemma OtherCallIsListedToo(a: Binding, b: Binding)
    requires a.contact == b.contact && a.callId != b.callId
    ensures [a] + Unlisted([a], [b]) == [a, b]
  {
    assert [b][..0] == [] && Unlisted([a], []) == [];
    assert !Represents([a], b);
  }

  /**
   * Every binding of either list is represented in the merged one, nothing else is in it, and
   * no contact and call is listed twice if neither list names one twice.
   */
  lemma MergedIsUnion(unexpired: seq<Binding>, news: seq<Binding>, b: Binding)
    ensures var merged := unexpired + Unlisted(unexpired, news);
      && (Represents(merged, b) <==> Represents(unexpired, b) || Represents(news, b))
      && (b in merged ==> b in unexpired || b in news)
      && (Distinct(unexpired) && Distinct(news) ==> ListedOnce(unexpired, news))
  {
    var us := Unlisted(unexpired, news);
    UnlistedAre(unexpired, news, b);
    RepresentedUnlisted(unexpired, news, b);
    RepresentsJoin(unexpired, us, b);
    if Distinct(unexpired) && Distinct(news) {
      UnlistedDistinct(unexpired, news);
      forall i, j | 0 <= i < |unexpired| && 0 <= j < |us|
        ensures !Same(unexpired[i], us[j])
      {
        UnlistedAre(unexpired, news, us[j]);
        assert us[j] in us;
      }
    }
  }

  lemma RepresentsJoin(a: seq<Binding>, c: seq<Binding>, b: Binding)
    ensures Represents(a + c, b) <==> Represents(a, b) || Represents(c, b)
  {
    assert forall i :: 0 <= i < |a| ==> (a + c)[i] == a[i];
    assert forall i :: 0 <= i < |c| ==> (a + c)[|a| + i] == c[i];
    assert forall i :: |a| <= i < |a| + |c| ==> (a + c)[i] == c[i - |a|];
  }

  lemma RepresentedUnlisted(unexpired: seq<Binding>, news: seq<Binding>, b: Binding)
    ensures !Represents(unexpired, b) ==> (Represents(Unlisted(unexpired, news), b) <==> Represents(news, b))
    ensures Represents(Unlisted(unexpired, news), b) ==> Represents(news, b)
  {
    var us := Unlisted(unexpired, news);
    if Represents(us, b) {
      var i :| 0 <= i < |us| && Same(b, us[i]);
      UnlistedAre(unexpired, news, us[i]);
    }
    if !Represents(unexpired, b) && Represents(news, b) {
      var i :| 0 <= i < |news| && Same(b, news[i]);
      assert !Represents(unexpired, news[i]);
      UnlistedAre(unexpired, news, news[i]);
    }
  }

  /** New bindings keep their order, each judged on its own. */
  lemma {:induction false} UnlistedInOrder(unexpired: seq<Binding>, a: seq<Binding>, b: seq<Binding>)
    ensures Unlisted(unexpired, a + b) == Unlisted(unexpired, a) + Unlisted(unexpired, b)
  {
    if b == [] {
      assert a + b == a;
    } else {
      var n := |b| - 1;
      assert (a + b)[..|a| + n] == a + b[..n] && (a + b)[|a| + n] == b[n];
      UnlistedInOrder(unexpired, a, b[..n]);
    }
  }
}
