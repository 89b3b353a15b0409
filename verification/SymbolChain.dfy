/**
 * The whole chain of replacements equals one simultaneous substitution, on templates made of
 * brace-free text and exact-case tokens and with brace-free replacement values.
 */
module SymbolChain {
  import opened Common
  import opened SymbolMap

  datatype Symbol =
    | Mediaserver | Voicemail | Localhost | Uri | VDigits | VDigitsEscaped
    | User | UserEscaped | Digits | DigitsEscaped | Host | UrlParams | HeaderParams

  function NameOf(s: Symbol): (name: string)
    ensures |name| > 2
  {
    match s
    case Mediaserver => "{mediaserver}"
    case Voicemail => "{voicemail}"
    case Localhost => "{localhost}"
    case Uri => "{uri}"
    case VDigits => "{vdigits}"
    case VDigitsEscaped => "{vdigits-escaped}"
    case User => "{user}"
    case UserEscaped => "{user-escaped}"
    case Digits => "{digits}"
    case DigitsEscaped => "{digits-escaped}"
    case Host => "{host}"
    case UrlParams => "{urlparams}"
    case HeaderParams => "{headerparams}"
  }

  type Values = Symbol -> string

  // ----- the chain as coded -----

  /** contains: an exact-case occurrence. */
  predicate Occurs(value: string, what: string) {
    exists i :: 0 <= i <= |value| && what <= value[i..]
  }

  function ReplaceSymbol(value: string, s: Symbol, values: Values): (r: string) {
    if Occurs(value, NameOf(s)) then Replaced(value, NameOf(s), values(s)) else value
  }

  function ReplaceAll(value: string, symbols: seq<Symbol>, values: Values): (r: string)
    decreases |symbols|
  {
    if symbols == [] then value else ReplaceAll(ReplaceSymbol(value, symbols[0], values), symbols[1..], values)
  }

  const BEFORE_COMPONENTS := [Mediaserver, Voicemail, Localhost, Uri, VDigits, VDigitsEscaped]
  const COMPONENTS := [User, UserEscaped, Digits, DigitsEscaped, Host]
  const AFTER_COMPONENTS := [UrlParams, HeaderParams]

  /** The test that guards the component symbols. */
  predicate HasComponent(value: string) {
    || (exists s :: s in COMPONENTS && Occurs(value, NameOf(s)))
    || Occurs(value, "{params}") || Occurs(value, "{urlparams}") || Occurs(value, "{headerparams}")
  }

  /** SymbolMap::replace. */
  function Replace(value: string, values: Values): (r: string) {
    var v1 := ReplaceAll(value, BEFORE_COMPONENTS, values);
    var v2 := if HasComponent(v1) then ReplaceAll(v1, COMPONENTS, values) else v1;
    ReplaceAll(v2, AFTER_COMPONENTS, values)
  }

  // ----- templates -----

  datatype Piece = Text(text: string) | Token(symbol: Symbol)

  predicate BraceFree(s: string) {
    forall i :: 0 <= i < |s| ==> s[i] != '{' && s[i] != '}'
  }

  function PieceText(p: Piece): (s: string) {
    if p.Text? then p.text else NameOf(p.symbol)
  }

  function Render(ps: seq<Piece>): (s: string) {
    if ps == [] then "" else PieceText(ps[0]) + Render(ps[1..])
  }

  ghost predicate Plain(ps: seq<Piece>) {
    forall i :: 0 <= i < |ps| && ps[i].Text? ==> BraceFree(ps[i].text)
  }

  /** Some symbols substituted, all at once. */
  function Substitute(ps: seq<Piece>, symbols: set<Symbol>, values: Values): (r: seq<Piece>)
    ensures |r| == |ps|
  {
    seq(|ps|, i requires 0 <= i < |ps| =>
          if ps[i].Token? && ps[i].symbol in symbols then Text(values(ps[i].symbol)) else ps[i])
  }

  // ----- one symbol -----

  lemma NamesDiffer(a: Symbol, b: Symbol)
    requires |NameOf(a)| == |NameOf(b)| && NameOf(a)[1] == NameOf(b)[1]
    ensures a == b
  {
  }

  /** A name is a brace, lower-case text without braces, and a brace. */
  lemma NameShape(s: Symbol)
    ensures var n := NameOf(s);
            && n[0] == '{' && n[|n| - 1] == '}'
            && (forall i :: 0 < i < |n| - 1 ==> n[i] != '{' && n[i] != '}' && Lower(n[i]) == n[i])
  {
  }

  lemma LowerBrace(c: char)
    ensures Lower(c) == '{' <==> c == '{'
    ensures Lower(c) == '}' <==> c == '}'
  {
  }

  /** Where there is no opening brace, no name starts. */
  lemma NoBraceNoName(s: string, symbol: Symbol)
    requires s == "" || s[0] != '{'
    ensures !StartsWith(s, NameOf(symbol))
  {
    NameShape(symbol);
    StartsWithEach(s, NameOf(symbol));
    if s != "" {
      LowerBrace(s[0]);
    }
    assert Lower(NameOf(symbol)[0]) == '{';
  }

  /** A name does not start where another one stands. */
  lemma OtherNameDiffers(a: Symbol, b: Symbol, rest: string)
    requires a != b
    ensures !StartsWith(NameOf(a) + rest, NameOf(b))
  {
    var n, m := NameOf(a), NameOf(b);
    NameShape(a);
    NameShape(b);
    StartsWithEach(n + rest, m);
    if StartsWith(n + rest, m) {
      assert Lower((n + rest)[1]) == Lower(m[1]) && (n + rest)[1] == n[1];
      LastBrace(n, m, rest);
      NamesDiffer(a, b);
    }
  }

  lemma LastBrace(n: string, m: string, rest: string)
    requires |n| > 2 && |m| > 2 && n[|n| - 1] == '}' && m[|m| - 1] == '}'
    requires forall i :: 0 < i < |n| - 1 ==> n[i] != '}'
    requires forall i :: 0 < i < |m| - 1 ==> m[i] != '}'
    requires StartsWith(n + rest, m)
    ensures |n| == |m|
  {
    var s := n + rest;
    StartsWithEach(s, m);
    LowerBrace(s[|m| - 1]);
    LowerBrace(m[|m| - 1]);
    assert |m| <= |n| ==> s[|m| - 1] == n[|m| - 1];
    if |n| <= |m| {
      LowerBrace(m[|n| - 1]);
      LowerBrace(s[|n| - 1]);
    }
  }

  /** Text before which no name starts is skipped. */
  lemma SkipPiece(text: string, rest: string, symbol: Symbol, with: string)
    requires forall j :: 0 <= j < |text| ==> !StartsWith((text + rest)[j..], NameOf(symbol))
    ensures Replaced(text + rest, NameOf(symbol), with) == text + Replaced(rest, NameOf(symbol), with)
  {
    ReplacedSkips(text + rest, |text|, NameOf(symbol), with);
    assert (text + rest)[..|text|] == text && (text + rest)[|text|..] == rest;
  }

  lemma ReplacedHead(p: Piece, rest: string, symbol: Symbol, with: string)
    requires p.Text? ==> BraceFree(p.text)
    ensures Replaced(PieceText(p) + rest, NameOf(symbol), with) ==
            (if p == Token(symbol) then with else PieceText(p)) + Replaced(rest, NameOf(symbol), with)
  {
    var text := PieceText(p);
    var s := text + rest;
    if p == Token(symbol) {
      StartsWithEach(s, text);
      assert s[|text|..] == rest;
    } else {
      forall j | 0 <= j < |text|
        ensures !StartsWith(s[j..], NameOf(symbol))
      {
        if p.Token? && j == 0 {
          OtherNameDiffers(p.symbol, symbol, rest);
          assert s[0..] == s;
        } else {
          assert s[j..][0] == text[j] != '{' by {
            if p.Token? {
              NameShape(p.symbol);
            }
          }
          NoBraceNoName(s[j..], symbol);
        }
      }
      SkipPiece(text, rest, symbol, with);
    }
  }

  lemma SubstituteTail(ps: seq<Piece>, symbols: set<Symbol>, values: Values)
    requires ps != []
    ensures Substitute(ps, symbols, values)[1..] == Substitute(ps[1..], symbols, values)
  {
  }

  lemma {:induction false} ReplacedRender(ps: seq<Piece>, symbol: Symbol, values: Values)
    requires Plain(ps)
    ensures Replaced(Render(ps), NameOf(symbol), values(symbol)) == Render(Substitute(ps, {symbol}, values))
  {
    if ps != [] {
      ReplacedHead(ps[0], Render(ps[1..]), symbol, values(symbol));
      ReplacedRender(ps[1..], symbol, values);
      SubstituteTail(ps, {symbol}, values);
    }
  }

  lemma {:induction false} TokenOccurs(ps: seq<Piece>, i: nat)
    requires i < |ps| && ps[i].Token?
    ensures Occurs(Render(ps), NameOf(ps[i].symbol))
  {
    var head, rest, name := PieceText(ps[0]), Render(ps[1..]), NameOf(ps[i].symbol);
    if i == 0 {
      assert Render(ps)[0..] == name + rest && name <= name + rest;
    } else {
      TokenOccurs(ps[1..], i - 1);
      var k :| 0 <= k <= |rest| && name <= rest[k..];
      assert (head + rest)[|head| + k..] == rest[k..];
    }
  }

  ghost predicate Absent(ps: seq<Piece>, symbols: set<Symbol>) {
    forall i :: 0 <= i < |ps| && ps[i].Token? ==> ps[i].symbol !in symbols
  }

  lemma SubstituteAbsent(ps: seq<Piece>, symbols: set<Symbol>, values: Values)
    requires Absent(ps, symbols)
    ensures Substitute(ps, symbols, values) == ps
  {
  }

  /** One link of the chain, guarded or not, substitutes exactly its symbol. */
  lemma ReplaceSymbolRender(ps: seq<Piece>, symbol: Symbol, values: Values)
    requires Plain(ps)
    ensures ReplaceSymbol(Render(ps), symbol, values) == Render(Substitute(ps, {symbol}, values))
  {
    ReplacedRender(ps, symbol, values);
    if !Occurs(Render(ps), NameOf(symbol)) {
      forall i: nat | i < |ps| && ps[i].Token?
        ensures ps[i].symbol != symbol
      {
        TokenOccurs(ps, i);
      }
      SubstituteAbsent(ps, {symbol}, values);
    }
  }

  // ----- the chain -----

  ghost predicate BraceFreeValues(values: Values) {
    forall s :: BraceFree(values(s))
  }

  lemma SubstitutePlain(ps: seq<Piece>, symbols: set<Symbol>, values: Values)
    requires Plain(ps) && BraceFreeValues(values)
    ensures Plain(Substitute(ps, symbols, values))
  {
  }

  lemma SubstituteTwice(ps: seq<Piece>, a: set<Symbol>, b: set<Symbol>, values: Values)
    ensures Substitute(Substitute(ps, a, values), b, values) == Substitute(ps, a + b, values)
  {
  }

  function SetOf(symbols: seq<Symbol>): (r: set<Symbol>) {
    set s | s in symbols
  }

  lemma {:induction false} ReplaceAllRender(ps: seq<Piece>, symbols: seq<Symbol>, values: Values)
    requires Plain(ps) && BraceFreeValues(values)
    ensures ReplaceAll(Render(ps), symbols, values) == Render(Substitute(ps, SetOf(symbols), values))
    decreases |symbols|
  {
    if symbols == [] {
      SubstituteAbsent(ps, SetOf(symbols), values);
    } else {
      var first := {symbols[0]};
      var ps1 := Substitute(ps, first, values);
      ReplaceSymbolRender(ps, symbols[0], values);
      SubstitutePlain(ps, first, values);
      ReplaceAllRender(ps1, symbols[1..], values);
      SubstituteTwice(ps, first, SetOf(symbols[1..]), values);
      assert symbols == [symbols[0]] + symbols[1..];
      assert first + SetOf(symbols[1..]) == SetOf(symbols);
    }
  }

  /** Skipping the component symbols when the guard finds none changes nothing. */
  lemma GuardedComponents(ps: seq<Piece>, values: Values)
    requires Plain(ps) && BraceFreeValues(values)
    ensures (if HasComponent(Render(ps)) then ReplaceAll(Render(ps), COMPONENTS, values) else Render(ps)) ==
            Render(Substitute(ps, SetOf(COMPONENTS), values))
  {
    ReplaceAllRender(ps, COMPONENTS, values);
    if !HasComponent(Render(ps)) {
      forall i: nat | i < |ps| && ps[i].Token?
        ensures ps[i].symbol !in SetOf(COMPONENTS)
      {
        TokenOccurs(ps, i);
      }
      SubstituteAbsent(ps, SetOf(COMPONENTS), values);
    }
  }

  /** The template with every token replaced by its value, in one pass. */
  function Instantiated(ps: seq<Piece>, values: Values): (s: string) {
    if ps == [] then ""
    else (if ps[0].Text? then ps[0].text else values(ps[0].symbol)) + Instantiated(ps[1..], values)
  }

  lemma {:induction false} SubstituteAll(ps: seq<Piece>, symbols: set<Symbol>, values: Values)
    requires forall s: Symbol :: s in symbols
    ensures Render(Substitute(ps, symbols, values)) == Instantiated(ps, values)
  {
    if ps != [] {
      SubstituteAll(ps[1..], symbols, values);
      assert Substitute(ps, symbols, values)[1..] == Substitute(ps[1..], symbols, values);
    }
  }

  lemma EverySymbolIsReplaced(s: Symbol)
    ensures s in SetOf(BEFORE_COMPONENTS) + SetOf(COMPONENTS) + SetOf(AFTER_COMPONENTS)
  {
    match s
    case Mediaserver => assert BEFORE_COMPONENTS[0] == s;
    case Voicemail => assert BEFORE_COMPONENTS[1] == s;
    case Localhost => assert BEFORE_COMPONENTS[2] == s;
    case Uri => assert BEFORE_COMPONENTS[3] == s;
    case VDigits => assert BEFORE_COMPONENTS[4] == s;
    case VDigitsEscaped => assert BEFORE_COMPONENTS[5] == s;
    case User => assert COMPONENTS[0] == s;
    case UserEscaped => assert COMPONENTS[1] == s;
    case Digits => assert COMPONENTS[2] == s;
    case DigitsEscaped => assert COMPONENTS[3] == s;
    case Host => assert COMPONENTS[4] == s;
    case UrlParams => assert AFTER_COMPONENTS[0] == s;
    case HeaderParams => assert AFTER_COMPONENTS[1] == s;
  }

  /** The chain of sequential replacements is one simultaneous substitution. */
  lemma ChainIsSimultaneous(ps: seq<Piece>, values: Values)
    requires Plain(ps) && BraceFreeValues(values)
    ensures Replace(Render(ps), values) == Instantiated(ps, values)
  {
    var a, b, c := SetOf(BEFORE_COMPONENTS), SetOf(COMPONENTS), SetOf(AFTER_COMPONENTS);
    ReplaceAllRender(ps, BEFORE_COMPONENTS, values);
    var ps1 := Substitute(ps, a, values);
    SubstitutePlain(ps, a, values);
    GuardedComponents(ps1, values);
    var ps2 := Substitute(ps1, b, values);
    SubstitutePlain(ps1, b, values);
    ReplaceAllRender(ps2, AFTER_COMPONENTS, values);
    SubstituteTwice(ps, a, b, values);
    SubstituteTwice(ps, a + b, c, values);
    forall s: Symbol
      ensures s in a + b + c
    {
      EverySymbolIsReplaced(s);
    }
    SubstituteAll(ps, a + b + c, values);
  }

  /** The tokens as the dial plan documents spell them. */
  lemma TokensAreSpelled()
    ensures NameOf(Mediaserver) == "{mediaserver}" && NameOf(Voicemail) == "{voicemail}" && NameOf(Localhost) == "{localhost}"
    ensures NameOf(Uri) == "{uri}" && NameOf(VDigits) == "{vdigits}" && NameOf(VDigitsEscaped) == "{vdigits-escaped}"
    ensures NameOf(User) == "{user}" && NameOf(UserEscaped) == "{user-escaped}"
    ensures NameOf(Digits) == "{digits}" && NameOf(DigitsEscaped) == "{digits-escaped}"
    ensures NameOf(Host) == "{host}" && NameOf(UrlParams) == "{urlparams}" && NameOf(HeaderParams) == "{headerparams}"
  {
  }
}
