/**
 * The emitted expression means what the dial pattern means.
 */
module DialPlanProofs {
  import opened Common
  import opened Regex
  import opened DialPlan

  // ----- tokens, their text and their items -----

  predicate TokenOk(t: Token) {
    match t
    case Literal(c) => Ordinary(c) || c in {'.', 'x', '[', '\\', '+', '$', '?', '*', '(', ')'}
    case OneOf(body) => PlainClass(body)
    case Repeater(c) => c in {'+', '?', '*'}
    case _ => true
  }

  function TokenText(t: Token): (s: string) {
    match t
    case Literal(c) => if c in {'.', '[', '\\', '+', '$', '?', '*', '(', ')'} then "\\" + [c] else [c]
    case AnyOne => "."
    case AnyRun => ".*"
    case OneOf(body) => "[" + body + "]"
    case Repeater(c) => "\\\\" + [c]
  }

  function TokensText(ts: seq<Token>): (s: string) {
    if ts == [] then "" else TokenText(ts[0]) + TokensText(ts[1..])
  }

  function ItemOf(t: Token): (i: Item) {
    match t
    case Literal(c) => One(Char(c))
    case AnyOne => One(AnyChar)
    case AnyRun => ZeroOrMore(AnyChar)
    case OneOf(body) => One(Class(body))
    case Repeater(c) =>
      if c == '+' then OneOrMore(Char('\\')) else if c == '?' then ZeroOrOne(Char('\\')) else ZeroOrMore(Char('\\'))
  }

  function ItemsOf(ts: seq<Token>): (items: seq<Item>)
    ensures |items| == |ts|
  {
    if ts == [] then [] else [ItemOf(ts[0])] + ItemsOf(ts[1..])
  }

  /** Characters the compiler copies as they are, wherever they stand. */
  predicate Copied(c: char) {
    c !in {'\\', '[', '.', '+', '$', '?', '*', '(', ')', 'x'}
  }

  lemma {:induction false} ClassCopied(body: string)
    requires SimpleClass(body) && forall i :: 0 <= i < |body| ==> NoDialMeaning(body[i])
    ensures forall i :: 0 <= i < |body| ==> Copied(body[i])
    decreases |body|
  {
    if body == "" {
    } else if IsRange(body) {
      ClassCopied(body[3..]);
      assert body == [body[0], body[1], body[2]] + body[3..];
    } else {
      ClassCopied(body[1..]);
      assert body == [body[0]] + body[1..];
    }
  }

  /** A class at the head of a pattern: `[body]rest`. */
  lemma ClassAhead(src: string, n: nat)
    requires src != "" && src[0] == '[' && n == IndexOf(src[1..], ']') < |src| - 1 && PlainClass(src[1..n + 1])
    ensures src[1..] == src[1..n + 1] + "]" + src[n + 2..]
    ensures var body := src[1..n + 1]; forall i :: 0 <= i < |body| ==> Copied(body[i])
  {
    ClassCopied(src[1..n + 1]);
  }

  lemma {:induction false} TokenizeOk(src: string)
    requires Tokenize(src).Some?
    ensures !DanglingEscape(src)
    ensures forall t :: t in Tokenize(src).value ==> TokenOk(t)
    decreases |src|
  {
    if src == "" {
    } else if src[0] == '\\' {
      TokenizeOk(src[2..]);
    } else if src[0] == '[' {
      var n := IndexOf(src[1..], ']');
      TokenizeOk(src[n + 2..]);
      ClassAhead(src, n);
      NoEscapeInside(src[1..n + 1], src[n + 2..]);
    } else {
      TokenizeOk(src[1..]);
    }
  }

  lemma {:induction false} NoEscapeInside(body: string, rest: string)
    requires forall i :: 0 <= i < |body| ==> body[i] != '\\'
    requires !DanglingEscape(rest)
    ensures !DanglingEscape(body + "]" + rest)
  {
    var s := body + "]" + rest;
    if body == "" {
      assert s[1..] == rest;
    } else {
      NoEscapeInside(body[1..], rest);
      assert s[1..] == body[1..] + "]" + rest;
    }
  }

  lemma {:induction false} EmitCopies(body: string, rest: string)
    requires forall i :: 0 <= i < |body| ==> Copied(body[i])
    requires !DanglingEscape(rest) && !DanglingEscape(body + "]" + rest)
    ensures Emit(body + "]" + rest, true) == body + "]" + Emit(rest, true)
  {
    var s := body + "]" + rest;
    if body == "" {
      assert s[1..] == rest;
      EmitPlain(s, true);
      assert Emit(s, true) == "]" + Emit(rest, true);
    } else {
      var t := body[1..] + "]" + rest;
      assert s[1..] == t && s[0] == body[0];
      EmitPlain(s, true);
      EmitCopies(body[1..], rest);
      assert body == [body[0]] + body[1..];
      Associative([body[0]], body[1..] + "]", Emit(rest, true));
      assert [body[0]] + (body[1..] + "]") == body + "]";
    }
  }

  lemma EmitPlain(s: string, seen: bool)
    requires s != "" && Copied(s[0]) && !DanglingEscape(s)
    ensures !DanglingEscape(s[1..]) && Emit(s, seen) == [s[0]] + Emit(s[1..], seen)
  {
    assert EmitChar(s[0], false, seen) == [s[0]];
  }

  // ----- the emitted text -----

  /** Token `t` at the head of `src` emits its own text, after `(` if it is the first variable one. */
  ghost predicate EmitsHead(src: string, t: Token, rest: string)
    requires !DanglingEscape(src) && !DanglingEscape(rest)
  {
    && Emit(src, true) == TokenText(t) + Emit(rest, true)
    && SeesVariable(src, true) == SeesVariable(rest, true)
    && (Constant(t) ==> Emit(src, false) == TokenText(t) + Emit(rest, false)
                        && SeesVariable(src, false) == SeesVariable(rest, false))
    && (!Constant(t) ==> Emit(src, false) == "(" + Emit(src, true) && SeesVariable(src, false) == SeesVariable(src, true))
  }

  lemma EscapedHead(src: string, t: Token)
    requires |src| >= 2 && src[0] == '\\' && !DanglingEscape(src)
    requires t == if src[1] in {'+', '?', '*'} then Repeater(src[1]) else Literal(src[1])
    requires t.Literal? ==> src[1] in {'.', 'x', '[', '\\'} || Ordinary(src[1])
    ensures EmitsHead(src, t, src[2..])
  {
    assert EmitChar(src[1], true, true) == TokenText(t);
    assert EmitChar(src[1], true, false) == TokenText(t);
    assert Emit(src, true) == EmitChar(src[1], true, true) + Emit(src[2..], true);
    assert Emit(src, false) == EmitChar(src[1], true, false) + Emit(src[2..], false);
  }

  lemma SingleHead(src: string, t: Token)
    requires src != "" && src[0] !in {'\\', '['} && !DanglingEscape(src)
    requires t == if src[0] == '.' then AnyRun else if src[0] == 'x' then AnyOne else Literal(src[0])
    requires t.Literal? ==> Ordinary(src[0]) || src[0] in {'+', '$', '?', '*', '(', ')'}
    ensures EmitsHead(src, t, src[1..])
  {
    assert EmitChar(src[0], false, true) == TokenText(t);
    assert EmitChar(src[0], false, false) == (if Constant(t) then "" else "(") + TokenText(t);
    if !Constant(t) {
      Associative("(", TokenText(t), Emit(src[1..], true));
    }
  }

  lemma ClassHead(src: string, n: nat)
    requires src != "" && src[0] == '[' && n == IndexOf(src[1..], ']') < |src| - 1 && PlainClass(src[1..n + 1])
    requires !DanglingEscape(src) && !DanglingEscape(src[n + 2..])
    ensures EmitsHead(src, OneOf(src[1..n + 1]), src[n + 2..])
  {
    var body, rest := src[1..n + 1], src[n + 2..];
    ClassAhead(src, n);
    EmitCopies(body, rest);
    SeesThrough(body, rest);
    var tail := Emit(rest, true);
    assert EmitChar('[', false, true) == "[" && EmitChar('[', false, false) == "(" + "[";
    assert Emit(src, true) == "[" + (body + "]" + tail);
    Associative("[", body + "]", tail);
    assert "[" + (body + "]") == TokenText(OneOf(body)) by { Associative("[", body, "]"); }
    assert Emit(src, false) == ("(" + "[") + (body + "]" + tail);
    Associative("(", "[", body + "]" + tail);
  }

  /** The first token of a pattern and the text after it. */
  lemma Head(src: string) returns (t: Token, rest: string)
    requires src != "" && Tokenize(src).Some?
    ensures |rest| < |src| && Tokenize(rest).Some? && Tokenize(src).value == [t] + Tokenize(rest).value
    ensures !DanglingEscape(src) && !DanglingEscape(rest) && EmitsHead(src, t, rest)
  {
    TokenizeOk(src);
    if src[0] == '\\' {
      t, rest := if src[1] in {'+', '?', '*'} then Repeater(src[1]) else Literal(src[1]), src[2..];
      EscapedHead(src, t);
    } else if src[0] == '[' {
      var n := IndexOf(src[1..], ']');
      TokenizeOk(src[n + 2..]);
      ClassHead(src, n);
      t, rest := OneOf(src[1..n + 1]), src[n + 2..];
    } else {
      t, rest := if src[0] == '.' then AnyRun else if src[0] == 'x' then AnyOne else Literal(src[0]), src[1..];
      SingleHead(src, t);
    }
  }

  /** Once the group is open, every token emits its own text. */
  lemma {:induction false} EmitTokens(src: string)
    requires Tokenize(src).Some?
    ensures !DanglingEscape(src) && SeesVariable(src, true)
    ensures Emit(src, true) == TokensText(Tokenize(src).value)
    decreases |src|
  {
    if src != "" {
      var t, rest := Head(src);
      EmitTokens(rest);
    }
  }

  /** The whole text: constant tokens, then the group if there is anything variable. */
  lemma {:induction false} EmitSplits(src: string)
    requires Tokenize(src).Some?
    ensures var ts := Tokenize(src).value;
            var k := ConstantTokens(ts);
            && !DanglingEscape(src)
            && Emit(src, false) == TokensText(ts[..k]) + (if k < |ts| then "(" + TokensText(ts[k..]) else "")
            && (SeesVariable(src, false) <==> k < |ts|)
    decreases |src|
  {
    if src != "" {
      var ts := Tokenize(src).value;
      var k := ConstantTokens(ts);
      var t, rest := Head(src);
      assert ts[0] == t && ts[1..] == Tokenize(rest).value;
      if Constant(t) {
        EmitSplits(rest);
        assert k == 1 + ConstantTokens(ts[1..]);
        assert ts[..k][1..] == ts[1..][..k - 1] && ts[k..] == ts[1..][k - 1..];
        var group := if k < |ts| then "(" + TokensText(ts[k..]) else "";
        assert TokensText(ts[..k]) == TokenText(t) + TokensText(ts[..k][1..]);
        Associative(TokenText(t), TokensText(ts[..k][1..]), group);
      } else {
        EmitTokens(src);
        assert ts[..k] == [] && ts[k..] == ts;
      }
    }
  }

  lemma {:induction false} SeesThrough(body: string, rest: string)
    requires forall i :: 0 <= i < |body| ==> Copied(body[i])
    requires !DanglingEscape(rest) && !DanglingEscape(body + "]" + rest)
    ensures SeesVariable(body + "]" + rest, true) == SeesVariable(rest, true)
  {
    var s := body + "]" + rest;
    if body == "" {
      assert s[1..] == rest;
    } else {
      assert s[1..] == body[1..] + "]" + rest && s[0] == body[0];
      SeesThrough(body[1..], rest);
    }
  }

  // ----- reading it back -----

  lemma {:induction false} ClassHasNoBracket(body: string)
    requires SimpleClass(body)
    ensures forall i :: 0 <= i < |body| ==> body[i] != ']' && body[i] != '\\'
    decreases |body|
  {
    if body == "" {
    } else if IsRange(body) {
      ClassHasNoBracket(body[3..]);
      assert body == [body[0], body[1], body[2]] + body[3..];
    } else {
      ClassHasNoBracket(body[1..]);
      assert body == [body[0]] + body[1..];
    }
  }

  lemma ParseClass(body: string, rest: string)
    requires PlainClass(body)
    ensures ParseAtom("[" + body + "]" + rest) == Some((Class(body), rest))
  {
    var s := "[" + body + "]" + rest;
    assert s[1..] == body + "]" + rest;
    ClassHasNoBracket(body);
    Associative(body, "]", rest);
    IndexOfJoin(body, "]" + rest, ']');
    assert s[1..|body| + 1] == body && s[|body| + 2..] == rest;
  }

  lemma ParseHead(t: Token, rest: string)
    requires TokenOk(t) && (rest == "" || !IsQuantifier(rest[0]))
    ensures ParseItem(TokenText(t) + rest) == Some((ItemOf(t), rest))
    ensures TokenText(t) != "" && !IsQuantifier(TokenText(t)[0]) && !EndsItems(TokenText(t)[0])
  {
    var s := TokenText(t) + rest;
    match t
    case Literal(c) =>
      if |TokenText(t)| == 2 {
        assert s[2..] == rest;
      } else {
        assert s[1..] == rest;
      }
    case AnyOne => assert s[1..] == rest;
    case AnyRun => assert s[1..] == "*" + rest && s[1..][1..] == rest;
    case OneOf(body) => ParseClass(body, rest);
    case Repeater(c) => assert s[2..] == [c] + rest && s[2..][1..] == rest;
  }

  lemma {:induction false} ParseTokens(ts: seq<Token>, tail: string)
    requires forall t :: t in ts ==> TokenOk(t)
    requires tail != "" && EndsItems(tail[0])
    ensures ParseItems(TokensText(ts) + tail) == Some((ItemsOf(ts), tail))
    ensures var s := TokensText(ts) + tail; !IsQuantifier(s[0])
  {
    var s := TokensText(ts) + tail;
    if ts == [] {
      assert s == tail;
    } else {
      var rest := TokensText(ts[1..]) + tail;
      ParseTokens(ts[1..], tail);
      assert ts[0] in ts;
      ParseHead(ts[0], rest);
      Associative(TokenText(ts[0]), TokensText(ts[1..]), tail);
      assert s == TokenText(ts[0]) + rest;
    }
  }

  lemma ParseGrouped(prefix: seq<Token>, group: seq<Token>)
    requires (forall t :: t in prefix ==> TokenOk(t)) && (forall t :: t in group ==> TokenOk(t))
    ensures Parse("^" + (TokensText(prefix) + ("(" + (TokensText(group) + ")$")))) ==
            Some(Pattern(ItemsOf(prefix), Some(ItemsOf(group))))
  {
    var inner := TokensText(group) + ")$";
    var text := TokensText(prefix) + ("(" + inner);
    ParseTokens(prefix, "(" + inner);
    ParseTokens(group, ")$");
    assert ("^" + text)[1..] == text && ("(" + inner)[1..] == inner;
  }

  lemma ParseUngrouped(prefix: seq<Token>)
    requires forall t :: t in prefix ==> TokenOk(t)
    ensures Parse("^" + (TokensText(prefix) + "$")) == Some(Pattern(ItemsOf(prefix), None))
  {
    var text := TokensText(prefix) + "$";
    ParseTokens(prefix, "$");
    assert ("^" + text)[1..] == text;
  }

  lemma ConvertText(src: string)
    requires Tokenize(src).Some?
    ensures var ts := Tokenize(src).value;
            var k := ConstantTokens(ts);
            && !DanglingEscape(src)
            && Convert(src) == "^" + (TokensText(ts[..k]) + (if k < |ts| then "(" + (TokensText(ts[k..]) + ")$") else "$"))
  {
    EmitSplits(src);
    var ts := Tokenize(src).value;
    var k := ConstantTokens(ts);
    var pre, e := TokensText(ts[..k]), Emit(src, false);
    if k < |ts| {
      var grp := TokensText(ts[k..]);
      Closed(pre, grp);
    } else {
      assert e == pre;
      assert "^" + e + "" + "$" == "^" + (pre + "$");
    }
  }

  lemma Closed(pre: string, grp: string)
    ensures "^" + (pre + ("(" + grp)) + ")" + "$" == "^" + (pre + ("(" + (grp + ")$")))
  {
  }

  /** The compiled pattern is always a well-formed expression, and this is its structure. */
  lemma ParseConvert(src: string)
    requires Tokenize(src).Some?
    ensures !DanglingEscape(src)
    ensures Parse(Convert(src)) == Some(PatternOf(Tokenize(src).value))
  {
    var ts := Tokenize(src).value;
    var k := ConstantTokens(ts);
    TokenizeOk(src);
    ConvertText(src);
    if k < |ts| {
      ParseGrouped(ts[..k], ts[k..]);
    } else {
      ParseUngrouped(ts[..k]);
    }
  }

  // ----- the same meaning -----

  ghost predicate NewlineFree(s: string) {
    forall i :: 0 <= i < |s| ==> s[i] != '\n'
  }

  predicate NoRepeaters(ts: seq<Token>) {
    forall t :: t in ts ==> !t.Repeater?
  }

  lemma {:induction false} ItemsMatchTokens(ts: seq<Token>, s: string)
    requires NoRepeaters(ts) && NewlineFree(s)
    ensures ItemsMatch(ItemsOf(ts), s) <==> DialMatches(ts, s)
    decreases |ts|
  {
    if ts != [] {
      assert ts[0] in ts && ItemsOf(ts)[1..] == ItemsOf(ts[1..]);
      if ts[0].AnyRun? {
        forall k: nat | k <= |s|
          ensures Repeats(AnyChar, s, k) && (ItemsMatch(ItemsOf(ts[1..]), s[k..]) <==> DialMatches(ts[1..], s[k..]))
        {
          ItemsMatchTokens(ts[1..], s[k..]);
        }
        if ItemsMatch(ItemsOf(ts), s) {
          var k: nat :| Repeats(AnyChar, s, k) && ItemsMatch(ItemsOf(ts[1..]), s[k..]);
          assert k <= |s| && DialMatches(ts[1..], s[k..]);
        }
        if DialMatches(ts, s) {
          var k: nat :| k <= |s| && DialMatches(ts[1..], s[k..]);
          assert Repeats(AnyChar, s, k) && ItemsMatch(ItemsOf(ts[1..]), s[k..]);
        }
      } else if s != "" {
        ItemsMatchTokens(ts[1..], s[1..]);
      }
    }
  }

  lemma {:induction false} DialSplits(ts: seq<Token>, s: string)
    ensures var k := ConstantTokens(ts);
            DialMatches(ts, s) <==> |s| >= k && s[..k] == ConstantPrefix(ts) && DialMatches(ts[k..], s[k..])
    decreases |ts|
  {
    var k := ConstantTokens(ts);
    if k == 0 {
      assert ts[k..] == ts && ts[..k] == [] && s[k..] == s && s[..k] == "";
    } else {
      var rest := ts[1..];
      assert ts[..k][1..] == rest[..k - 1] && ts[k..] == rest[k - 1..];
      assert Text(ts[..k]) == [ts[0].c] + Text(rest[..k - 1]);
      if s != "" {
        DialSplits(rest, s[1..]);
        if |s| >= k {
          assert s[..k] == [s[0]] + s[1..][..k - 1] && s[k..] == s[1..][k - 1..];
        }
      }
    }
  }

  lemma {:induction false} TextLength(ts: seq<Token>)
    requires forall t :: t in ts ==> Constant(t)
    ensures |Text(ts)| == |ts|
  {
    if ts != [] {
      TextLength(ts[1..]);
    }
  }

  lemma {:induction false} ConstantsMatch(ts: seq<Token>, s: string)
    requires forall t :: t in ts ==> Constant(t)
    ensures DialMatches(ts, s) <==> s == Text(ts)
    decreases |ts|
  {
    if ts != [] {
      assert Constant(ts[0]);
      if s != "" {
        ConstantsMatch(ts[1..], s[1..]);
        assert s == [s[0]] + s[1..];
      }
    }
  }

  lemma PrefixMatches(ts: seq<Token>, s: string, j: nat)
    requires NoRepeaters(ts) && NewlineFree(s) && j <= |s|
    ensures var k := ConstantTokens(ts);
            ItemsMatch(ItemsOf(ts[..k]), s[..j]) <==> j == k && s[..j] == ConstantPrefix(ts)
  {
    var k := ConstantTokens(ts);
    TextLength(ts[..k]);
    ItemsMatchTokens(ts[..k], s[..j]);
    ConstantsMatch(ts[..k], s[..j]);
  }

  ghost function PatternOf(ts: seq<Token>): (p: Pattern) {
    var k := ConstantTokens(ts);
    Pattern(ItemsOf(ts[..k]), if k < |ts| then Some(ItemsOf(ts[k..])) else None)
  }

  /** A match can only be split at the end of the constant prefix. */
  lemma MatchSplit(ts: seq<Token>, s: string, j: nat, e: nat)
    requires NoRepeaters(ts) && NewlineFree(s)
    ensures var k := ConstantTokens(ts);
            MatchAt(PatternOf(ts), s, j, e) <==>
              e == |s| && j == k <= |s| && s[..k] == ConstantPrefix(ts) && DialMatches(ts[k..], s[k..])
  {
    var k := ConstantTokens(ts);
    if e == |s| && j <= |s| {
      PrefixMatches(ts, s, j);
      assert s[j..e] == s[j..];
      if k < |ts| {
        ItemsMatchTokens(ts[k..], s[j..]);
      } else {
        assert DialMatches(ts[k..], s[j..]) <==> j == |s|;
      }
    }
  }

  /**
   * For every pattern of the fragment with no escaped repeater and every newline-free user
   * part: the emitted expression is well formed, it matches exactly when the dial pattern does,
   * and on a match the user part is the constant prefix followed by the captured digits.
   */
  lemma CompiledPatternMeansTheSame(src: string, user: string)
    requires Tokenize(src).Some? && NoRepeaters(Tokenize(src).value) && NewlineFree(user)
    ensures !DanglingEscape(src) && Parse(Convert(src)).Some?
    ensures var ts, p := Tokenize(src).value, Parse(Convert(src)).value;
            && (Matches(p, user) <==> DialMatches(ts, user))
            && (forall j: nat, e: nat :: MatchAt(p, user, j, e) ==> user == ConstantPrefix(ts) + Captured(p, user, j, e))
            && (p.group.None? <==> ConstantTokens(ts) == |ts|)
  {
    ParseConvert(src);
    var ts, p := Tokenize(src).value, Parse(Convert(src)).value;
    var k := ConstantTokens(ts);
    forall j: nat, e: nat
      ensures MatchAt(p, user, j, e) <==>
              e == |user| && j == k <= |user| && user[..k] == ConstantPrefix(ts) && DialMatches(ts[k..], user[k..])
    {
      MatchSplit(ts, user, j, e);
    }
    DialSplits(ts, user);
    if DialMatches(ts, user) {
      assert MatchAt(p, user, k, |user|);
    }
    forall j: nat, e: nat | MatchAt(p, user, j, e)
      ensures user == ConstantPrefix(ts) + Captured(p, user, j, e)
    {
      assert user == user[..k] + user[k..] && user[k..|user|] == user[k..];
      if k == |ts| {
        assert ts[k..] == [] && user[k..] == "";
      }
    }
  }
}
