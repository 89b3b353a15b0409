/**
 * The dial-pattern compiler. `ConvertRegularExpression` is the character loop as coded;
 * `Tokenize` and `DialMatches` say, independently of it, what a dial pattern means. The
 * theorems read the emitted text back with `Regex.Parse` and compare the two meanings.
 */
module DialPlan {
  import opened Common
  import opened Regex

  // ----- the compiler -----

  /** A backslash that ends the pattern has nothing to escape. */
  predicate DanglingEscape(src: string) {
    if src == "" then false
    else if src[0] == '\\' then |src| == 1 || DanglingEscape(src[2..])
    else DanglingEscape(src[1..])
  }

  /** Does this character start the variable part of the pattern? */
  predicate Opens(c: char, escaped: bool) {
    !escaped && c in {'[', '.', 'x'}
  }

  function Body(c: char, escaped: bool): (s: string) {
    if c == '[' then (if escaped then "\\[" else "[")
    else if c == '.' then (if escaped then "\\." else ".*")
    else if c in {'+', '$', '?', '*', '(', ')'} then (if escaped then "\\" else "") + "\\" + [c]
    else if c == 'x' then (if escaped then "x" else ".")
    else if c == '\\' then "\\\\"
    else [c]
  }

  function EmitChar(c: char, escaped: bool, seen: bool): (s: string) {
    (if Opens(c, escaped) && !seen then "(" else "") + Body(c, escaped)
  }

  /** What the loop appends for the rest of the pattern; `seen` is its flag. */
  function Emit(src: string, seen: bool): (s: string)
    requires !DanglingEscape(src)
    decreases |src|
  {
    if src == "" then ""
    else if src[0] == '\\' then EmitChar(src[1], true, seen) + Emit(src[2..], seen)
    else EmitChar(src[0], false, seen) + Emit(src[1..], seen || Opens(src[0], false))
  }

  predicate SeesVariable(src: string, seen: bool)
    requires !DanglingEscape(src)
    decreases |src|
  {
    if src == "" then seen
    else if src[0] == '\\' then SeesVariable(src[2..], seen)
    else SeesVariable(src[1..], seen || Opens(src[0], false))
  }

  function Convert(src: string): (s: string)
    requires !DanglingEscape(src)
  {
    "^" + Emit(src, false) + (if SeesVariable(src, false) then ")" else "") + "$"
  }

  /** The branches of the loop: append one pattern character, opening the group if needed. */
  method AppendChar(regExp: string, c: char, specialEscaped: bool, seenNonConstant: bool) returns (r: string, seen: bool)
    ensures r == regExp + EmitChar(c, specialEscaped, seenNonConstant)
    ensures seen == (seenNonConstant || Opens(c, specialEscaped))
  {
    r, seen := regExp, seenNonConstant;
    if c == '[' {
      if specialEscaped {
        r := r + "\\";
      } else if !seen {
        r := r + "(";
        seen := true;
      }
      r := r + [c];
    } else if c == '.' {
      if specialEscaped {
        r := r + "\\.";
      } else {
        if !seen {
          r := r + "(";
          seen := true;
        }
        r := r + ".*";
      }
    } else if c in {'+', '$', '?', '*', '(', ')'} {
      if specialEscaped {
        r := r + "\\";
      }
      r := r + "\\" + [c];
    } else if c == 'x' {
      if specialEscaped {
        r := r + "x";
      } else {
        if !seen {
          r := r + "(";
          seen := true;
        }
        r := r + ".";
      }
    } else if c == '\\' {
      r := r + "\\\\";
    } else {
      r := r + [c];
    }
  }

  /** One turn of the loop, seen from the text emitted so far. */
  lemma EmitStep(src: string, seen: bool, sofar: string)
    requires src != "" && !DanglingEscape(src)
    ensures var escaped := src[0] == '\\';
            var c, rest := if escaped then src[1] else src[0], if escaped then src[2..] else src[1..];
            && !DanglingEscape(rest)
            && sofar + Emit(src, seen) == (sofar + EmitChar(c, escaped, seen)) + Emit(rest, seen || Opens(c, escaped))
            && SeesVariable(src, seen) == SeesVariable(rest, seen || Opens(c, escaped))
  {
    if src[0] == '\\' {
      assert Emit(src, seen) == EmitChar(src[1], true, seen) + Emit(src[2..], seen);
      Associative(sofar, EmitChar(src[1], true, seen), Emit(src[2..], seen));
    } else {
      var seenNow := seen || Opens(src[0], false);
      assert Emit(src, seen) == EmitChar(src[0], false, seen) + Emit(src[1..], seenNow);
      Associative(sofar, EmitChar(src[0], false, seen), Emit(src[1..], seenNow));
    }
  }

  method ConvertRegularExpression(source: string) returns (regExp: string)
    requires !DanglingEscape(source)
    ensures regExp == Convert(source)
  {
    regExp := "^";
    var seenNonConstant := false;
    var i := 0;
    while i < |source|
      invariant i <= |source| && !DanglingEscape(source[i..])
      invariant regExp + Emit(source[i..], seenNonConstant) == "^" + Emit(source, false)
      invariant SeesVariable(source[i..], seenNonConstant) == SeesVariable(source, false)
    {
      var rest := source[i..];
      var specialEscaped := false;
      if source[i] == '\\' {
        specialEscaped := true;
        i := i + 1;
      }
      EmitStep(rest, seenNonConstant, regExp);
      regExp, seenNonConstant := AppendChar(regExp, source[i], specialEscaped, seenNonConstant);
      i := i + 1;
      assert source[i..] == if specialEscaped then rest[2..] else rest[1..];
    }
    assert source[i..] == "";
    if seenNonConstant {
      regExp := regExp + ")";
    }
    regExp := regExp + "$";
  }

  // ----- what a dial pattern means -----

  /** `Repeater` is an escaped `+`, `?` or `*`, which is meant to stand for itself. */
  datatype Token = Literal(c: char) | AnyOne | AnyRun | OneOf(body: string) | Repeater(c: char)

  /** Characters with no meaning in a dial pattern or in a regular expression. */
  predicate Ordinary(c: char) {
    c !in {'\\', '[', '.', '+', '$', '?', '*', '(', ')', 'x', '^', '|', '{', '\n', '\0'}
  }

  predicate PlainClass(body: string) {
    body != "" && SimpleClass(body) && !PosixSyntax(body) && forall i :: 0 <= i < |body| ==> NoDialMeaning(body[i])
  }

  predicate NoDialMeaning(c: char) {
    c !in {'.', '+', '$', '?', '*', '(', ')', 'x', '\n'}
  }

  /** The tokens of a pattern; None outside the fragment described in the project notes. */
  function Tokenize(src: string): (r: Option<seq<Token>>)
    decreases |src|
  {
    if src == "" then Some([])
    else if src[0] == '\\' then
      if |src| == 1 then None
      else if src[1] in {'.', 'x', '[', '\\'} || Ordinary(src[1]) then Prepend(Literal(src[1]), Tokenize(src[2..]))
      else if src[1] in {'+', '?', '*'} then Prepend(Repeater(src[1]), Tokenize(src[2..]))
      else None
    else if src[0] == '[' then
      var n := IndexOf(src[1..], ']');
      if n < |src| - 1 && PlainClass(src[1..n + 1]) then Prepend(OneOf(src[1..n + 1]), Tokenize(src[n + 2..])) else None
    else if src[0] == '.' then Prepend(AnyRun, Tokenize(src[1..]))
    else if src[0] == 'x' then Prepend(AnyOne, Tokenize(src[1..]))
    else if src[0] in {'+', '$', '?', '*', '(', ')'} || Ordinary(src[0]) then Prepend(Literal(src[0]), Tokenize(src[1..]))
    else None
  }

  function Prepend(t: Token, r: Option<seq<Token>>): (q: Option<seq<Token>>) {
    if r.Some? then Some([t] + r.value) else None
  }

  ghost predicate DialMatches(ts: seq<Token>, s: string)
    decreases |ts|
  {
    if ts == [] then s == ""
    else
      match ts[0]
      case AnyRun => exists k: nat :: k <= |s| && DialMatches(ts[1..], s[k..])
      case _ => s != "" && Accepts(ts[0], s[0]) && DialMatches(ts[1..], s[1..])
  }

  predicate Accepts(t: Token, c: char) {
    match t
    case Literal(d) => c == d
    case OneOf(body) => InClass(c, body)
    case Repeater(d) => c == d
    case _ => true
  }

  predicate Constant(t: Token) {
    t.Literal? || t.Repeater?
  }

  /** How many tokens come before the first wildcard or class. */
  function ConstantTokens(ts: seq<Token>): (k: nat)
    ensures k <= |ts|
    ensures forall i :: 0 <= i < k ==> Constant(ts[i])
    ensures k < |ts| ==> !Constant(ts[k])
  {
    if ts == [] || !Constant(ts[0]) then 0 else 1 + ConstantTokens(ts[1..])
  }

  /** The text of constant tokens. */
  function Text(ts: seq<Token>): (s: string)
    requires forall t :: t in ts ==> Constant(t)
  {
    if ts == [] then "" else
      assert Constant(ts[0]);
      [ts[0].c] + Text(ts[1..])
  }

  /** The constant text a matching user part starts with. */
  function ConstantPrefix(ts: seq<Token>): (s: string) {
    Text(ts[..ConstantTokens(ts)])
  }
}
