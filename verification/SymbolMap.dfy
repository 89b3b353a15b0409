/**
 * Token substitution in transform values: a chain of replacements, one symbol after the other,
 * each of which searches the text again from the start.
 */
module SymbolMap {
  import opened Common

  // ----- replacing one token -----

  /** Does `what` stand at the head of `s`, letter case aside? */
  predicate StartsWith(s: string, what: string)
    ensures StartsWith(s, what) ==> |what| <= |s|
  {
    what == "" || (s != "" && Lower(s[0]) == Lower(what[0]) && StartsWith(s[1..], what[1..]))
  }

  lemma {:induction false} StartsWithEach(s: string, what: string)
    ensures StartsWith(s, what) <==> |what| <= |s| && forall i :: 0 <= i < |what| ==> Lower(s[i]) == Lower(what[i])
  {
    if what != "" && s != "" {
      StartsWithEach(s[1..], what[1..]);
      assert forall i :: 0 < i < |s| ==> s[i] == s[1..][i - 1];
      assert forall i :: 0 < i < |what| ==> what[i] == what[1..][i - 1];
    }
  }

  /** The first position of `what` in `s` from `from` on, letter case aside; the length if none. */
  function Index(s: string, what: string, from: nat): (i: nat)
    requires from <= |s|
    ensures from <= i <= |s|
    ensures i < |s| ==> i + |what| <= |s|
    decreases |s| - from
  {
    if from == |s| || StartsWith(s[from..], what) then from else Index(s, what, from + 1)
  }

  lemma {:induction false} IndexIsFirst(s: string, what: string, from: nat)
    requires from <= |s|
    ensures var i := Index(s, what, from);
      && (i < |s| ==> StartsWith(s[i..], what))
      && (forall j :: from <= j < i ==> !StartsWith(s[j..], what))
    decreases |s| - from
  {
    if from < |s| && !StartsWith(s[from..], what) {
      IndexIsFirst(s, what, from + 1);
    }
  }

  /** The pieces of `s` between the occurrences of `what`, left to right. */
  function Split(s: string, what: string): (parts: seq<string>)
    requires what != ""
    ensures parts != []
    decreases |s|
  {
    if s == "" then [""]
    else if StartsWith(s, what) then [""] + Split(s[|what|..], what)
    else
      var rest := Split(s[1..], what);
      [[s[0]] + rest[0]] + rest[1..]
  }

  function Join(parts: seq<string>, with: string): (s: string)
    requires parts != []
  {
    if |parts| == 1 then parts[0] else parts[0] + with + Join(parts[1..], with)
  }

  function Replaced(s: string, what: string, with: string): (r: string)
    requires what != ""
    decreases |s|
  {
    if s == "" then ""
    else if StartsWith(s, what) then with + Replaced(s[|what|..], what, with)
    else [s[0]] + Replaced(s[1..], what, with)
  }

  lemma {:induction false} ReplacedIsSplitAndJoin(s: string, what: string, with: string)
    requires what != ""
    ensures Replaced(s, what, with) == Join(Split(s, what), with)
    decreases |s|
  {
    if s == "" {
    } else if StartsWith(s, what) {
      ReplacedIsSplitAndJoin(s[|what|..], what, with);
      assert ([""] + Split(s[|what|..], what))[1..] == Split(s[|what|..], what);
    } else {
      ReplacedIsSplitAndJoin(s[1..], what, with);
      JoinFirst(s[0], Split(s[1..], what), with);
    }
  }

  lemma JoinFirst(c: char, parts: seq<string>, with: string)
    requires parts != []
    ensures Join([[c] + parts[0]] + parts[1..], with) == [c] + Join(parts, with)
  {
    var longer := [[c] + parts[0]] + parts[1..];
    assert longer[1..] == parts[1..];
    if |parts| > 1 {
      assert [c] + parts[0] + with + Join(parts[1..], with) == [c] + (parts[0] + with + Join(parts[1..], with));
    }
  }

  /** Text in which the token does not start anywhere is copied. */
  lemma {:induction false} ReplacedSkips(s: string, k: nat, what: string, with: string)
    requires what != "" && k <= |s| && forall j :: 0 <= j < k ==> !StartsWith(s[j..], what)
    ensures Replaced(s, what, with) == s[..k] + Replaced(s[k..], what, with)
    decreases k
  {
    if k == 0 {
      assert s[..k] == "" && s[k..] == s;
    } else {
      assert s[0..] == s;
      forall j | 0 <= j < k - 1
        ensures !StartsWith(s[1..][j..], what)
      {
        assert s[1..][j..] == s[j + 1..];
      }
      ReplacedSkips(s[1..], k - 1, what, with);
      assert s[1..][k - 1..] == s[k..] && s[..k] == [s[0]] + s[1..][..k - 1];
      Associative([s[0]], s[1..][..k - 1], Replaced(s[k..], what, with));
    }
  }

  /** Replacing from `from` on, the text before it having become `sofar`. */
  function ReplacedFrom(value: string, what: string, with: string, from: nat, sofar: string): (r: string)
    requires what != "" && from <= |value|
    decreases |value| - from
  {
    var index := Index(value, what, from);
    if index == |value| then sofar + value[from..]
    else ReplacedFrom(value, what, with, index + |what|, sofar + value[from..index] + with)
  }

  method ReplaceEach(value: string, replaceWhat: string, replaceWith: string) returns (modifiedString: string)
    requires replaceWhat != ""
    ensures modifiedString == Replaced(value, replaceWhat, replaceWith)
    ensures modifiedString == Join(Split(value, replaceWhat), replaceWith)
  {
    modifiedString := "";
    var lastIndex := 0;
    var index := Index(value, replaceWhat, 0);
    while index < |value|
      invariant lastIndex <= |value| && index == Index(value, replaceWhat, lastIndex)
      invariant ReplacedFrom(value, replaceWhat, replaceWith, lastIndex, modifiedString)
             == ReplacedFrom(value, replaceWhat, replaceWith, 0, "")
      decreases |value| - lastIndex
    {
      modifiedString := modifiedString + value[lastIndex..index];
      modifiedString := modifiedString + replaceWith;
      lastIndex := index + |replaceWhat|;
      index := Index(value, replaceWhat, lastIndex);
    }
    assert lastIndex == |value| ==> modifiedString + value[lastIndex..] == modifiedString;
    if lastIndex < |value| {
      modifiedString := modifiedString + value[lastIndex..];
    }
    ReplacedFromStart(value, replaceWhat, replaceWith);
    ReplacedIsSplitAndJoin(value, replaceWhat, replaceWith);
  }

  lemma SkipTo(value: string, what: string, with: string, from: nat, to: nat)
    requires what != "" && from <= to <= |value| && forall j :: from <= j < to ==> !StartsWith(value[j..], what)
    ensures Replaced(value[from..], what, with) == value[from..to] + Replaced(value[to..], what, with)
  {
    var s, k := value[from..], to - from;
    forall j | 0 <= j < k
      ensures !StartsWith(s[j..], what)
    {
      assert s[j..] == value[from + j..];
    }
    ReplacedSkips(s, k, what, with);
    assert s[..k] == value[from..to] && s[k..] == value[to..];
  }

  /** One occurrence, seen from the text built so far. */
  lemma ReplaceStep(value: string, what: string, with: string, from: nat, index: nat, sofar: string)
    requires what != "" && from <= |value| && index == Index(value, what, from) < |value|
    ensures index + |what| <= |value|
    ensures sofar + Replaced(value[from..], what, with)
         == sofar + value[from..index] + with + Replaced(value[index + |what|..], what, with)
  {
    IndexIsFirst(value, what, from);
    SkipTo(value, what, with, from, index);
    var rest := Replaced(value[index + |what|..], what, with);
    assert value[index..][|what|..] == value[index + |what|..];
    Associative(sofar, value[from..index], with + rest);
    Associative(sofar + value[from..index], with, rest);
  }

  lemma NothingLeft(value: string, what: string, with: string, from: nat)
    requires what != "" && from <= |value| && Index(value, what, from) == |value|
    ensures Replaced(value[from..], what, with) == value[from..]
  {
    IndexIsFirst(value, what, from);
    SkipTo(value, what, with, from, |value|);
    assert value[from..|value|] == value[from..] && value[|value|..] == "";
  }

  /** Building the result from left to right gives the same as replacing recursively. */
  lemma {:induction false} ReplacedFromIsReplaced(value: string, what: string, with: string, from: nat, sofar: string)
    requires what != "" && from <= |value|
    ensures ReplacedFrom(value, what, with, from, sofar) == sofar + Replaced(value[from..], what, with)
    decreases |value| - from
  {
    var index := Index(value, what, from);
    if index == |value| {
      NothingLeft(value, what, with, from);
    } else {
      ReplaceStep(value, what, with, from, index, sofar);
      ReplacedFromIsReplaced(value, what, with, index + |what|, sofar + value[from..index] + with);
    }
  }

  lemma ReplacedFromStart(value: string, what: string, with: string)
    requires what != ""
    ensures ReplacedFrom(value, what, with, 0, "") == Replaced(value, what, with)
  {
    ReplacedFromIsReplaced(value, what, with, 0, "");
    assert value[0..] == value;
  }
}
