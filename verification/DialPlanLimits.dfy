/**
 * Where the compiler falls short: an escaped `+`, `?` or `*` is emitted as a repeated
 * backslash. Within the fragment, patterns without one are exactly the ones compiled right.
 */
module DialPlanLimits {
  import opened Common
  import opened Regex
  import opened DialPlan
  import opened DialPlanProofs

  ghost predicate CompiledRight(src: string)
    requires Tokenize(src).Some? && !DanglingEscape(src)
  {
    && Parse(Convert(src)).Some?
    && forall user :: NewlineFree(user) ==>
         (Matches(Parse(Convert(src)).value, user) <==> DialMatches(Tokenize(src).value, user))
  }

  // ----- an escaped `+` asks for a backslash that the dial pattern does not -----

  function Backslashes(s: string): (n: nat) {
    if s == "" then 0 else (if s[0] == '\\' then 1 else 0) + Backslashes(s[1..])
  }

  /** How many backslashes the compiled tokens insist on. */
  function Demanded(ts: seq<Token>): (n: nat) {
    if ts == [] then 0 else (if ts[0] == Literal('\\') || ts[0] == Repeater('+') then 1 else 0) + Demanded(ts[1..])
  }

  lemma {:induction false} BackslashesConcat(a: string, b: string)
    ensures Backslashes(a + b) == Backslashes(a) + Backslashes(b)
  {
    if a == "" {
      assert a + b == b;
    } else {
      BackslashesConcat(a[1..], b);
      assert (a + b)[1..] == a[1..] + b;
    }
  }

  lemma {:induction false} DemandedConcat(a: seq<Token>, b: seq<Token>)
    ensures Demanded(a + b) == Demanded(a) + Demanded(b)
  {
    if a == [] {
      assert a + b == b;
    } else {
      DemandedConcat(a[1..], b);
      assert (a + b)[1..] == a[1..] + b;
    }
  }

  lemma {:induction false} MatchHasBackslashes(ts: seq<Token>, s: string)
    requires ItemsMatch(ItemsOf(ts), s)
    ensures Backslashes(s) >= Demanded(ts)
    decreases |ts|
  {
    if ts != [] {
      assert ItemsOf(ts)[1..] == ItemsOf(ts[1..]);
      match ItemOf(ts[0])
      case One(a) =>
        MatchHasBackslashes(ts[1..], s[1..]);
      case ZeroOrMore(a) =>
        var k: nat :| Repeats(a, s, k) && ItemsMatch(ItemsOf(ts[1..]), s[k..]);
        MatchHasBackslashes(ts[1..], s[k..]);
        BackslashesConcat(s[..k], s[k..]);
        assert s == s[..k] + s[k..];
      case OneOrMore(a) =>
        var k: nat :| k >= 1 && Repeats(a, s, k) && ItemsMatch(ItemsOf(ts[1..]), s[k..]);
        MatchHasBackslashes(ts[1..], s[k..]);
        BackslashesConcat(s[1..k], s[k..]);
        assert s[1..] == s[1..k] + s[k..] && s[0] == '\\';
      case ZeroOrOne(a) =>
        var k: nat :| k <= 1 && Repeats(a, s, k) && ItemsMatch(ItemsOf(ts[1..]), s[k..]);
        MatchHasBackslashes(ts[1..], s[k..]);
        BackslashesConcat(s[..k], s[k..]);
        assert s == s[..k] + s[k..];
    }
  }

  /** A user part the dial pattern accepts, with no backslash that is not written in it. */
  function Sample(ts: seq<Token>): (s: string)
    requires forall t :: t in ts ==> TokenOk(t)
  {
    if ts == [] then ""
    else
      assert TokenOk(ts[0]);
      var head :=
        match ts[0]
        case Literal(c) => [c]
        case AnyOne => "0"
        case AnyRun => ""
        case OneOf(body) => [body[0]]
        case Repeater(c) => [c];
      head + Sample(ts[1..])
  }

  lemma {:induction false} SampleMatches(ts: seq<Token>)
    requires forall t :: t in ts ==> TokenOk(t)
    ensures NewlineFree(Sample(ts)) && DialMatches(ts, Sample(ts))
    ensures Demanded(ts) > Backslashes(Sample(ts)) <==> Repeater('+') in ts
    ensures Demanded(ts) >= Backslashes(Sample(ts))
  {
    if ts != [] {
      var s, rest := Sample(ts), Sample(ts[1..]);
      SampleMatches(ts[1..]);
      assert TokenOk(ts[0]);
      if ts[0].AnyRun? {
        assert s == rest && s[0..] == rest;
      } else {
        assert s[1..] == rest;
        if ts[0].OneOf? {
          ClassHasNoBracket(ts[0].body);
          assert s[0] == ts[0].body[0] && NoDialMeaning(s[0]) && InClass(s[0], ts[0].body);
        }
      }
    }
  }

  // ----- an escaped `?` or `*` lets a character be missing -----

  function Singles(ts: seq<Token>): (n: nat) {
    if ts == [] then 0 else (if ts[0].AnyRun? then 0 else 1) + Singles(ts[1..])
  }

  lemma {:induction false} MatchIsLongEnough(ts: seq<Token>, s: string)
    requires DialMatches(ts, s)
    ensures |s| >= Singles(ts)
    decreases |ts|
  {
    if ts != [] {
      if ts[0].AnyRun? {
        var k: nat :| k <= |s| && DialMatches(ts[1..], s[k..]);
        MatchIsLongEnough(ts[1..], s[k..]);
      } else {
        MatchIsLongEnough(ts[1..], s[1..]);
      }
    }
  }

  /** The sample with the escaped repeaters left out: the expression accepts it. */
  function Short(ts: seq<Token>): (s: string)
    requires forall t :: t in ts ==> TokenOk(t)
  {
    if ts == [] then ""
    else if ts[0].Repeater? then Short(ts[1..])
    else Sample([ts[0]]) + Short(ts[1..])
  }

  lemma {:induction false} ShortMatches(ts: seq<Token>)
    requires (forall t :: t in ts ==> TokenOk(t)) && Repeater('+') !in ts
    ensures NewlineFree(Short(ts)) && ItemsMatch(ItemsOf(ts), Short(ts))
    ensures |Short(ts)| <= Singles(ts)
    ensures |Short(ts)| == Singles(ts) <==> NoRepeaters(ts)
  {
    if ts != [] {
      var s, rest := Short(ts), Short(ts[1..]);
      ShortMatches(ts[1..]);
      assert TokenOk(ts[0]) && ts[0] in ts;
      assert ItemsOf(ts)[1..] == ItemsOf(ts[1..]);
      assert NoRepeaters(ts) <==> !ts[0].Repeater? && NoRepeaters(ts[1..]) by {
        assert ts == [ts[0]] + ts[1..];
      }
      if ts[0].AnyRun? || ts[0].Repeater? {
        assert s == rest && s[0..] == rest;
        assert Repeats(ItemOf(ts[0]).atom, s, 0);
      } else {
        assert Sample([ts[0]]) == [s[0]] && s[1..] == rest;
        SampleMatches([ts[0]]);
      }
    }
  }

  lemma {:induction false} ShortConcat(a: seq<Token>, b: seq<Token>)
    requires (forall t :: t in a ==> TokenOk(t)) && (forall t :: t in b ==> TokenOk(t))
    ensures forall t :: t in a + b ==> TokenOk(t)
    ensures Short(a + b) == Short(a) + Short(b)
  {
    if a == [] {
      assert a + b == b;
    } else {
      ShortConcat(a[1..], b);
      assert (a + b)[1..] == a[1..] + b && (a + b)[0] == a[0];
      Associative(Sample([a[0]]), Short(a[1..]), Short(b));
    }
  }

  // ----- together -----

  lemma PatternDemands(ts: seq<Token>, s: string)
    requires NewlineFree(s) && Matches(PatternOf(ts), s)
    ensures Backslashes(s) >= Demanded(ts)
  {
    var k := ConstantTokens(ts);
    var j: nat, e: nat :| MatchAt(PatternOf(ts), s, j, e);
    assert e == |s| && s[j..e] == s[j..];
    MatchHasBackslashes(ts[..k], s[..j]);
    if k < |ts| {
      MatchHasBackslashes(ts[k..], s[j..]);
    }
    BothDemand(ts, k, s, j);
  }

  lemma BothDemand(ts: seq<Token>, k: nat, s: string, j: nat)
    requires k <= |ts| && j <= |s|
    requires Backslashes(s[..j]) >= Demanded(ts[..k]) && Backslashes(s[j..]) >= Demanded(ts[k..])
    ensures Backslashes(s) >= Demanded(ts)
  {
    BackslashesConcat(s[..j], s[j..]);
    DemandedConcat(ts[..k], ts[k..]);
    assert ts == ts[..k] + ts[k..] && s == s[..j] + s[j..];
  }

  lemma PlusIsWrong(ts: seq<Token>)
    requires (forall t :: t in ts ==> TokenOk(t)) && Repeater('+') in ts
    ensures NewlineFree(Sample(ts)) && DialMatches(ts, Sample(ts)) && !Matches(PatternOf(ts), Sample(ts))
  {
    SampleMatches(ts);
    if Matches(PatternOf(ts), Sample(ts)) {
      PatternDemands(ts, Sample(ts));
    }
  }

  lemma PatternAcceptsShort(ts: seq<Token>)
    requires (forall t :: t in ts ==> TokenOk(t)) && Repeater('+') !in ts
    ensures Matches(PatternOf(ts), Short(ts))
  {
    var k := ConstantTokens(ts);
    var a, b := ts[..k], ts[k..];
    assert ts == a + b;
    ShortMatches(a);
    ShortMatches(b);
    ShortConcat(a, b);
    SplitMatches(PatternOf(ts), Short(a), Short(b));
  }

  lemma SplitMatches(p: Pattern, a: string, b: string)
    requires ItemsMatch(p.prefix, a) && if p.group.Some? then ItemsMatch(p.group.value, b) else b == ""
    ensures Matches(p, a + b)
  {
    var s := a + b;
    assert s[..|a|] == a && s[|a|..|s|] == b;
    assert MatchAt(p, s, |a|, |s|);
  }

  lemma OptionalIsWrong(ts: seq<Token>)
    requires (forall t :: t in ts ==> TokenOk(t)) && Repeater('+') !in ts && !NoRepeaters(ts)
    ensures NewlineFree(Short(ts)) && !DialMatches(ts, Short(ts)) && Matches(PatternOf(ts), Short(ts))
  {
    ShortMatches(ts);
    PatternAcceptsShort(ts);
    if DialMatches(ts, Short(ts)) {
      MatchIsLongEnough(ts, Short(ts));
    }
  }

  /** Patterns of the fragment are compiled right exactly when they escape no `+`, `?` or `*`. */
  lemma CompiledRightIffNoRepeaters(src: string)
    requires Tokenize(src).Some?
    ensures !DanglingEscape(src)
    ensures CompiledRight(src) <==> NoRepeaters(Tokenize(src).value)
  {
    var ts := Tokenize(src).value;
    TokenizeOk(src);
    ParseConvert(src);
    if NoRepeaters(ts) {
      forall user | NewlineFree(user)
        ensures Matches(Parse(Convert(src)).value, user) <==> DialMatches(ts, user)
      {
        CompiledPatternMeansTheSame(src, user);
      }
    } else if Repeater('+') in ts {
      PlusIsWrong(ts);
    } else {
      OptionalIsWrong(ts);
    }
  }

  lemma OneIsALiteral()
    ensures Tokenize("1") == Some([Literal('1')])
  {
    var src := "1";
    assert src[0] == '1' && src[1..] == "";
    assert '1' !in {'\\', '[', '.', '+', '$', '?', '*', '(', ')', 'x', '^', '|', '{', '\n', '\0'};
    assert Ordinary(src[0]);
    assert Tokenize("") == Some([]);
    assert Tokenize(src) == Prepend(Literal(src[0]), Tokenize(src[1..]));
    assert [Literal('1')] + [] == [Literal('1')];
  }

  /** The dial pattern for `+1`, the way international numbers start, never matches it. */
  lemma EscapedPlusIsCompiledWrong()
    ensures Tokenize("\\+1") == Some([Repeater('+'), Literal('1')])
    ensures !CompiledRight("\\+1")
  {
    var src := "\\+1";
    assert src[2..] == "1" && src[2..][1..] == "";
    assert Tokenize("") == Some([]);
    OneIsALiteral();
    assert Tokenize(src) == Some([Repeater('+')] + [Literal('1')]);
    assert [Repeater('+')] + [Literal('1')] == [Repeater('+'), Literal('1')];
    assert Repeater('+') in Tokenize(src).value;
    CompiledRightIffNoRepeaters(src);
  }
}
