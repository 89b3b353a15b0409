/**
 * Decoding an encoded token gives the parameters back, exactly when every name survives the
 * token syntax.
 */
module RouteTokenProofs {
  import opened Common
  import opened RouteToken
  import Base64

  /** A name the token syntax can carry. */
  predicate Survives(name: string) {
    name != "*" && '\n' !in name
  }

  // ----- scanning -----

  lemma {:induction false} SpanExact(a: string, b: string, p: char -> bool)
    requires All(a, p) && (b == "" || !p(b[0]))
    ensures Span(a + b, p) == |a|
  {
    if a == "" {
      assert a + b == b;
    } else {
      SpanExact(a[1..], b, p);
      assert (a + b)[1..] == a[1..] + b;
    }
  }

  lemma {:induction false} SpanStops(s: string, p: char -> bool, k: nat)
    requires k < |s| && !p(s[k])
    ensures Span(s, p) <= k
    decreases k
  {
    if k > 0 {
      SpanStops(s[1..], p, k - 1);
    }
  }

  /** An accepted name is made of its two parts and the star between them. */
  lemma AcceptedParts(name: string) returns (instance: string, parameter: string)
    requires Accepted(name)
    ensures ValidPart(instance) && ValidPart(parameter) && name == instance + "*" + parameter
  {
    instance, parameter :| ParameterName(instance, parameter) == Some(name);
  }

  lemma AcceptedSurvivor(name: string)
    requires Accepted(name) && Survives(name)
    ensures All(name, NameChar) && |name| >= 2 && OneStar(name)
  {
    var instance, parameter := AcceptedParts(name);
    var k := |instance|;
    assert name[k] == '*';
    PartSurvives(instance, name, 0);
    PartSurvives(parameter, name, k + 1);
    forall i | 0 <= i < |name|
      ensures NameChar(name[i]) && (name[i] == '*' ==> i == k)
    {
      if i < k {
        assert PartChar(instance[i]);
      } else if i > k {
        assert PartChar(parameter[i - k - 1]);
      }
    }
    assert |name| == 1 ==> name == "*";
  }

  /** A valid part standing in a newline-free name ends without the newline. */
  lemma PartSurvives(part: string, name: string, at: nat)
    requires ValidPart(part) && '\n' !in name && at + |part| <= |name| && name[at..at + |part|] == part
    ensures All(part, PartChar)
  {
    assert part != "" ==> name[at + |part| - 1] == part[|part| - 1];
  }

  lemma EscapedValue(value: seq<byte>)
    ensures All(ValueText(value), ValueChar)
    ensures DecodeValue(ValueText(value)) == Some(value)
  {
    var e := Base64.Encode(value);
    Base64.EncodeAlphabet(value);
    Base64.DecodeEncode(value);
    assert Unescape(Escape(e)) == e by {
      forall i | 0 <= i < |e|
        ensures Unesc(Esc(e[i])) == e[i]
      {
      }
    }
    assert |ValueText(value)| == |e|;
  }

  lemma PairAndTail(name: string, value: string, tail: string)
    ensures name + "~" + value + tail == name + ("~" + (value + tail))
  {
  }

  lemma PairAtParts(name: string, v: string, tail: string)
    requires All(name, NameChar) && |name| >= 2 && All(v, ValueChar)
    requires tail != "" && (tail[0] == '.' || tail[0] == '!')
    ensures PairAt(name + ("~" + (v + tail))) == Some((Raw(name, v), tail[1..]))
  {
    SpanExact(name, "~" + (v + tail), NameChar);
    CutAtTilde(name, v + tail);
    SpanExact(v, tail, ValueChar);
    CutBeforeMark(v, tail);
  }

  lemma PairBack(p: Param, tail: string)
    requires All(p.name, NameChar) && |p.name| >= 2 && tail != "" && (tail[0] == '.' || tail[0] == '!')
    ensures PairAt(PairText(p) + tail) == Some((RawOf(p), tail[1..]))
  {
    EscapedValue(p.value);
    PairAndTail(p.name, ValueText(p.value), tail);
    PairAtParts(p.name, ValueText(p.value), tail);
  }

  lemma CutAtTilde(name: string, rest: string)
    ensures var s := name + ("~" + rest); s[..|name|] == name && s[|name|] == '~' && s[|name| + 1..] == rest
  {
  }

  lemma CutBeforeMark(v: string, tail: string)
    requires tail != ""
    ensures (v + tail)[..|v|] == v && (v + tail)[|v|] == tail[0] && (v + tail)[|v| + 1..] == tail[1..]
  {
  }

  ghost predicate AllAccepted(ps: seq<Param>) {
    forall i :: 0 <= i < |ps| ==> Accepted(ps[i].name)
  }

  predicate AllSurvive(ps: seq<Param>) {
    forall i :: 0 <= i < |ps| ==> Survives(ps[i].name)
  }

  function RawOf(p: Param): (r: Raw) {
    Raw(p.name, ValueText(p.value))
  }

  function Raws(ps: seq<Param>): (rs: seq<Raw>) {
    if ps == [] then [] else [RawOf(ps[0])] + Raws(ps[1..])
  }

  /** The text of a list, split after its first pair. */
  lemma TextSplits(ps: seq<Param>, tail: string)
    requires ps != []
    ensures PairsText(ps) + tail ==
            PairText(ps[0]) + (if |ps| == 1 then tail else "." + (PairsText(ps[1..]) + tail))
  {
  }

  lemma AllSurviveHead(ps: seq<Param>)
    requires ps != []
    ensures AllSurvive(ps) <==> Survives(ps[0].name) && AllSurvive(ps[1..])
    ensures AllAccepted(ps) ==> AllAccepted(ps[1..])
  {
  }

  // ----- the token pattern -----

  lemma {:induction false} ValueThenTail(v: string, tail: string)
    requires All(v, ValueChar) && IsPairsTail(tail)
    ensures IsPairsTail(v + tail)
  {
    if v == "" {
      assert v + tail == tail;
    } else {
      assert (v + tail)[1..] == v[1..] + tail;
      ValueThenTail(v[1..], tail);
    }
  }

  lemma PairThenTail(p: Param, tail: string)
    requires All(p.name, NameChar) && |p.name| >= 2 && IsPairsTail(tail)
    ensures IsPairs(PairText(p) + tail)
  {
    var v := ValueText(p.value);
    EscapedValue(p.value);
    PairAndTail(p.name, v, tail);
    SpanExact(p.name, "~" + (v + tail), NameChar);
    CutAtTilde(p.name, v + tail);
    ValueThenTail(v, tail);
  }

  lemma {:induction false} SurvivorsArePairs(ps: seq<Param>)
    requires ps != [] && AllAccepted(ps) && AllSurvive(ps)
    ensures IsPairs(PairsText(ps))
  {
    AllSurviveHead(ps);
    AcceptedSurvivor(ps[0].name);
    TextSplits(ps, "");
    assert PairsText(ps) + "" == PairsText(ps);
    if |ps| == 1 {
      PairThenTail(ps[0], "");
    } else {
      var more := PairsText(ps[1..]) + "";
      assert more == PairsText(ps[1..]);
      SurvivorsArePairs(ps[1..]);
      assert ("." + more)[1..] == more;
      PairThenTail(ps[0], "." + more);
    }
  }

  /** A newline stands in no list of pairs. */
  lemma {:induction false} NewlineIsRefused(s: string, k: nat)
    requires k < |s| && s[k] == '\n'
    ensures !IsPairs(s) && !IsPairsTail(s)
    decreases |s|
  {
    var n := Span(s, NameChar);
    SpanStops(s, NameChar, k);
    if n < k {
      NewlineIsRefused(s[n + 1..], k - n - 1);
    }
    if k > 0 {
      NewlineIsRefused(s[1..], k - 1);
    }
  }

  /** A list that starts with a bare star is refused. */
  lemma StarIsRefused(p: Param, tail: string)
    requires p.name == "*"
    ensures !IsPairs(PairText(p) + tail)
  {
    var v := ValueText(p.value);
    PairAndTail("*", v, tail);
    SpanExact("*", "~" + (v + tail), NameChar);
  }

  /** A name's newline stands in the text of the list. */
  lemma {:induction false} NewlineInText(ps: seq<Param>, i: nat) returns (k: nat)
    requires i < |ps| && '\n' in ps[i].name
    ensures k < |PairsText(ps)| && PairsText(ps)[k] == '\n'
  {
    TextSplits(ps, "");
    assert PairsText(ps) + "" == PairsText(ps);
    if i == 0 {
      k := NewlineInPair(ps[0], if |ps| == 1 then "" else "." + (PairsText(ps[1..]) + ""));
    } else {
      var j := NewlineInText(ps[1..], i - 1);
      assert PairsText(ps[1..]) + "" == PairsText(ps[1..]);
      InTail(PairText(ps[0]), PairsText(ps[1..]), j);
      k := |PairText(ps[0])| + 1 + j;
    }
  }

  lemma NewlineInPair(p: Param, tail: string) returns (k: nat)
    requires '\n' in p.name
    ensures k < |PairText(p) + tail| && (PairText(p) + tail)[k] == '\n'
  {
    k :| 0 <= k < |p.name| && p.name[k] == '\n';
    PairAndTail(p.name, ValueText(p.value), tail);
  }

  lemma InTail(a: string, b: string, j: nat)
    requires j < |b|
    ensures (a + ("." + b))[|a| + 1 + j] == b[j]
  {
  }

  /** In a sorted list of newline-free accepted names a bare star comes first. */
  lemma StarComesFirst(ps: seq<Param>, i: nat)
    requires Sorted(ps) && AllAccepted(ps) && i < |ps| && ps[i].name == "*"
    requires forall j :: 0 <= j < |ps| ==> '\n' !in ps[j].name
    ensures ps[0].name == "*"
  {
    var first := ps[0].name;
    if first != "*" {
      assert Accepted(first);
      AcceptedSurvivor(first);
      assert NameChar(first[0]) && !Less(first, "*");
    }
  }

  /** The token pattern takes exactly the lists whose names all survive. */
  lemma PairsIffSurvive(ps: seq<Param>)
    requires Sorted(ps) && AllAccepted(ps)
    ensures IsPairs(PairsText(ps)) <==> ps != [] && AllSurvive(ps)
  {
    if ps == [] {
    } else if AllSurvive(ps) {
      SurvivorsArePairs(ps);
    } else if i :| 0 <= i < |ps| && '\n' in ps[i].name {
      var k := NewlineInText(ps, i);
      NewlineIsRefused(PairsText(ps), k);
    } else {
      var i :| 0 <= i < |ps| && !Survives(ps[i].name);
      StarComesFirst(ps, i);
      TextSplits(ps, "");
      assert PairsText(ps) + "" == PairsText(ps);
      StarIsRefused(ps[0], if |ps| == 1 then "" else "." + (PairsText(ps[1..]) + ""));
    }
  }

  // ----- the search for pairs -----

  lemma {:induction false} NoTildeNoPair(s: string)
    requires '~' !in s
    ensures NextPair(s) == None
  {
    if s != "" {
      NoTildeNoPair(s[1..]);
    }
  }

  lemma NextPairHere(s: string)
    requires PairAt(s).Some?
    ensures NextPair(s) == PairAt(s)
  {
  }

  lemma {:induction false} PairsBack(ps: seq<Param>, signature: string)
    requires ps != [] && AllAccepted(ps) && AllSurvive(ps) && IsHex(signature)
    ensures PairAt(PairsText(ps) + ("!" + signature)).Some?
    ensures PairsFrom(PairAt(PairsText(ps) + ("!" + signature))) == Raws(ps)
  {
    var mark := "!" + signature;
    AllSurviveHead(ps);
    AcceptedSurvivor(ps[0].name);
    TextSplits(ps, mark);
    if |ps| == 1 {
      PairBack(ps[0], mark);
      assert mark[1..] == signature;
      NoTildeNoPair(signature);
      assert ps[1..] == [] && Raws(ps) == [RawOf(ps[0])];
    } else {
      var more := PairsText(ps[1..]) + mark;
      PairBack(ps[0], "." + more);
      assert ("." + more)[1..] == more;
      PairsBack(ps[1..], signature);
      NextPairHere(more);
    }
  }

  // ----- rebuilding the list -----

  lemma InsertLast(ps: seq<Param>, p: Param)
    requires Sorted(ps + [p])
    ensures Insert(ps, p) == ps + [p]
  {
    assert forall i :: 0 <= i < |ps| ==> (ps + [p])[i] == ps[i] && (ps + [p])[|ps|] == p;
  }

  lemma SortedPrefix(a: seq<Param>, b: seq<Param>)
    requires Sorted(a + b)
    ensures Sorted(a)
  {
    forall i, j | 0 <= i < j < |a|
      ensures Less(a[i].name, a[j].name)
    {
      assert (a + b)[i] == a[i] && (a + b)[j] == a[j];
    }
  }

  lemma {:induction false} DecodePairsBack(acc: seq<Param>, ps: seq<Param>)
    requires Sorted(acc + ps) && forall i :: 0 <= i < |ps| ==> OneStar(ps[i].name)
    ensures DecodePairs(Raws(ps), acc) == Some(acc + ps)
    decreases |ps|
  {
    if ps == [] {
      assert acc + ps == acc;
    } else {
      var p := ps[0];
      MoveOne(acc, ps);
      SortedPrefix(acc + [p], ps[1..]);
      InsertLast(acc, p);
      EscapedValue(p.value);
      DecodePairsBack(acc + [p], ps[1..]);
    }
  }

  lemma MoveOne<T>(a: seq<T>, b: seq<T>)
    requires b != []
    ensures (a + [b[0]]) + b[1..] == a + b
  {
  }

  lemma SplitBack(text: string, signature: string)
    requires IsHex(signature)
    ensures SplitToken(text + ("!" + signature)) == if IsPairs(text) then Some(Split(text, signature)) else None
  {
    var token := text + ("!" + signature);
    assert token[|token| - 1] == signature[31];
    Cut(text, "!" + signature);
    assert token[|text|] == '!' && token[|text| + 1..] == signature;
  }

  lemma SurvivorsBack(ps: seq<Param>)
    requires ps != [] && Sorted(ps) && AllAccepted(ps) && AllSurvive(ps)
    ensures DecodePairs(Raws(ps), []) == Some(ps)
  {
    forall i | 0 <= i < |ps|
      ensures OneStar(ps[i].name)
    {
      AcceptedSurvivor(ps[i].name);
    }
    assert [] + ps == ps;
    DecodePairsBack([], ps);
  }

  /**
   * Under one key, decoding gives back exactly the parameters that were encoded, if and only if
   * there is at least one and no name is a bare star or contains a newline. Otherwise decoding
   * is refused.
   */
  lemma RoundTrip(key: Key, ps: seq<Param>)
    requires Sorted(ps) && AllAccepted(ps)
    ensures Decode(key, Encode(key, ps)) == if ps != [] && AllSurvive(ps) then Some(ps) else None
  {
    var text := PairsText(ps);
    var signature := Signature(key, text);
    SplitBack(text, signature);
    PairsIffSurvive(ps);
    if ps != [] && AllSurvive(ps) {
      PairsBack(ps, signature);
      SurvivorsBack(ps);
    }
  }

  /** setParameter takes empty instance and parameter names, and the token cannot be read again. */
  lemma EmptyNamesAreLost(key: Key, value: seq<byte>)
    ensures ParameterName("", "") == Some("*")
    ensures Decode(key, Encode(key, [Param("*", value)])) == None
  {
    var ps := [Param("*", value)];
    assert ParameterName("", "") == Some("" + "*" + "") && "" + "*" + "" == "*";
    assert Accepted("*");
    assert !Survives(ps[0].name);
    RoundTrip(key, ps);
  }
}
