/**
 * The part of PCRE that dial plans are compiled into: `^ items ( items ) $`, where an item is
 * a literal, an escaped character, a dot or a bracket class, possibly repeated. `Parse` reads
 * the text of an expression, `MatchAt` says what it matches and what its group captures.
 */
module Regex {
  import opened Common

  datatype Atom = Char(c: char) | AnyChar | Class(body: string)

  datatype Item = One(atom: Atom) | ZeroOrMore(atom: Atom) | OneOrMore(atom: Atom) | ZeroOrOne(atom: Atom)

  datatype Pattern = Pattern(prefix: seq<Item>, group: Option<seq<Item>>)

  // ----- bracket classes -----

  predicate IsRange(body: string) {
    |body| >= 3 && body[1] == '-'
  }

  /** PCRE takes `[:x:]`, `[.x.]` and `[=x=]` for POSIX syntax and refuses it outside a class. */
  predicate PosixSyntax(body: string) {
    |body| >= 2 && body[0] in {':', '.', '='} && body[|body| - 1] == body[0]
  }

  /** Single characters and ascending ranges; no negation, nesting or escapes. */
  predicate SimpleClass(body: string) {
    if body == "" then true
    else if IsRange(body) then
      ClassChar(body[0]) && ClassChar(body[2]) && body[0] <= body[2] && SimpleClass(body[3..])
    else ClassChar(body[0]) && SimpleClass(body[1..])
  }

  predicate ClassChar(c: char) {
    c !in {'\\', '[', ']', '^', '-'}
  }

  predicate InClass(c: char, body: string) {
    if body == "" then false
    else if IsRange(body) then body[0] <= c <= body[2] || InClass(c, body[3..])
    else c == body[0] || InClass(c, body[1..])
  }

  // ----- reading an expression -----

  predicate IsQuantifier(c: char) {
    c in {'*', '+', '?'}
  }

  predicate IsMeta(c: char) {
    c in {'^', '$', '(', ')', '|', '{'} || IsQuantifier(c)
  }

  function ParseAtom(s: string): (r: Option<(Atom, string)>)
    ensures r.Some? ==> |r.value.1| < |s|
  {
    if s == "" then None
    else if s[0] == '.' then Some((AnyChar, s[1..]))
    else if s[0] == '\\' then
      if |s| >= 2 && !IsAlphanumeric(s[1]) then Some((Char(s[1]), s[2..])) else None
    else if s[0] == '[' then
      var n := IndexOf(s[1..], ']');
      if 0 < n < |s| - 1 && SimpleClass(s[1..n + 1]) && !PosixSyntax(s[1..n + 1]) then Some((Class(s[1..n + 1]), s[n + 2..])) else None
    else if IsMeta(s[0]) then None
    else Some((Char(s[0]), s[1..]))
  }

  function ParseItem(s: string): (r: Option<(Item, string)>)
    ensures r.Some? ==> |r.value.1| < |s|
  {
    match ParseAtom(s)
    case None => None
    case Some((a, t)) =>
      if t == "" || !IsQuantifier(t[0]) then Some((One(a), t))
      else if |t| > 1 && IsQuantifier(t[1]) then None
      else if t[0] == '*' then Some((ZeroOrMore(a), t[1..]))
      else if t[0] == '+' then Some((OneOrMore(a), t[1..]))
      else Some((ZeroOrOne(a), t[1..]))
  }

  predicate EndsItems(c: char) {
    c in {'(', ')', '$'}
  }

  function ParseItems(s: string): (r: Option<(seq<Item>, string)>)
    decreases |s|
  {
    if s == "" || EndsItems(s[0]) then Some(([], s))
    else
      match ParseItem(s)
      case None => None
      case Some((item, t)) =>
        match ParseItems(t)
        case None => None
        case Some((items, u)) => Some(([item] + items, u))
  }

  function Parse(s: string): (r: Option<Pattern>) {
    if s == "" || s[0] != '^' then None
    else
      match ParseItems(s[1..])
      case None => None
      case Some((prefix, t)) =>
        if t == "$" then Some(Pattern(prefix, None))
        else if t == "" || t[0] != '(' then None
        else
          match ParseItems(t[1..])
          case None => None
          case Some((group, u)) => if u == ")$" then Some(Pattern(prefix, Some(group))) else None
  }

  // ----- matching -----

  predicate AtomMatches(a: Atom, c: char) {
    match a
    case Char(d) => c == d
    case AnyChar => c != '\n'
    case Class(body) => InClass(c, body)
  }

  /** The first `k` characters of `s` all match `a`. */
  ghost predicate Repeats(a: Atom, s: string, k: nat) {
    k <= |s| && forall j :: 0 <= j < k ==> AtomMatches(a, s[j])
  }

  ghost predicate ItemsMatch(items: seq<Item>, s: string)
    decreases |items|
  {
    if items == [] then s == ""
    else
      var rest := items[1..];
      match items[0]
      case One(a) => s != "" && AtomMatches(a, s[0]) && ItemsMatch(rest, s[1..])
      case ZeroOrMore(a) => exists k: nat :: Repeats(a, s, k) && ItemsMatch(rest, s[k..])
      case OneOrMore(a) => exists k: nat :: k >= 1 && Repeats(a, s, k) && ItemsMatch(rest, s[k..])
      case ZeroOrOne(a) => exists k: nat :: k <= 1 && Repeats(a, s, k) && ItemsMatch(rest, s[k..])
  }

  /** Where `$` may match: at the end, or before a final newline. */
  predicate AtEnd(s: string, e: nat) {
    e == |s| || (e + 1 == |s| && s[e] == '\n')
  }

  /** `p` matches `s` with its group, if it has one, capturing `s[j..e]`. */
  ghost predicate MatchAt(p: Pattern, s: string, j: nat, e: nat) {
    && j <= e <= |s| && AtEnd(s, e)
    && ItemsMatch(p.prefix, s[..j])
    && if p.group.Some? then ItemsMatch(p.group.value, s[j..e]) else j == e
  }

  ghost predicate Matches(p: Pattern, s: string) {
    exists j: nat, e: nat :: MatchAt(p, s, j, e)
  }

  /** Substring 1 of a match, empty when the expression has no group. */
  function Captured(p: Pattern, s: string, j: nat, e: nat): (v: string)
    requires j <= e <= |s|
  {
    if p.group.Some? then s[j..e] else ""
  }
}
