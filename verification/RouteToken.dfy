/**
 * The signed route-state token: `nvpairs ! signature`, where `nvpairs` is a list of
 * `instance*name~value` joined by dots and each value is base64 with `+` and `=` replaced.
 * The MD5 codec is a parameter: any function to 32 hexadecimal digits.
 */
module RouteToken {
  import opened Common
  import Base64

  /** A parameter: its full name `instance*parameter` and its value. */
  datatype Param = Param(name: string, value: seq<byte>)

  predicate IsHex(s: string) {
    |s| == 32 && forall i :: 0 <= i < 32 ==> '0' <= s[i] <= '9' || 'a' <= s[i] <= 'f' || 'A' <= s[i] <= 'F'
  }

  type Hash = s: string | IsHex(s) witness seq(32, _ => '0')

  type Md5 = string -> Hash

  /** What a token is signed with. */
  datatype Key = Key(md5: Md5, secret: string, callId: string)

  // ----- names -----

  predicate PartChar(c: char) {
    IsAlphanumeric(c) || c == '_' || c == '-'
  }

  predicate NameChar(c: char) {
    PartChar(c) || c == '*'
  }

  predicate ValueChar(c: char) {
    IsAlphanumeric(c) || c == '\'' || c == '/' || c == '`'
  }

  predicate All(s: string, p: char -> bool) {
    forall i :: 0 <= i < |s| ==> p(s[i])
  }

  /** The name test. Its `$` also matches before a newline that ends the string. */
  predicate ValidPart(s: string) {
    All(s, PartChar) || (s != "" && s[|s| - 1] == '\n' && All(s[..|s| - 1], PartChar))
  }

  /** RouteParameterName: no name when a part is not valid. */
  function ParameterName(instance: string, parameter: string): (r: Option<string>) {
    if ValidPart(instance) && ValidPart(parameter) then Some(instance + "*" + parameter) else None
  }

  ghost predicate Accepted(name: string) {
    exists instance, parameter :: ParameterName(instance, parameter) == Some(name)
  }

  // ----- order -----

  predicate Less(a: string, b: string) {
    b != "" && (a == "" || a[0] < b[0] || (a[0] == b[0] && Less(a[1..], b[1..])))
  }

  ghost predicate Sorted(ps: seq<Param>) {
    forall i, j :: 0 <= i < j < |ps| ==> Less(ps[i].name, ps[j].name)
  }

  /** The first element that does not come before `name`. */
  function Position(ps: seq<Param>, name: string): (k: nat)
    ensures k <= |ps|
    ensures forall i :: 0 <= i < k ==> Less(ps[i].name, name)
    ensures k < |ps| ==> !Less(ps[k].name, name)
  {
    if ps == [] || !Less(ps[0].name, name) then 0 else 1 + Position(ps[1..], name)
  }

  /** Insertion into the sorted list. */
  function Insert(ps: seq<Param>, p: Param): (r: seq<Param>) {
    var k := Position(ps, p.name);
    ps[..k] + [p] + ps[k..]
  }

  // ----- printing -----

  function Esc(c: char): (d: char) {
    if c == '+' then '\'' else if c == '=' then '`' else c
  }

  function Unesc(c: char): (d: char) {
    if c == '\'' then '+' else if c == '`' then '=' else c
  }

  function Escape(s: string): (t: string) {
    seq(|s|, i requires 0 <= i < |s| => Esc(s[i]))
  }

  function Unescape(s: string): (t: string) {
    seq(|s|, i requires 0 <= i < |s| => Unesc(s[i]))
  }

  function ValueText(value: seq<byte>): (s: string) {
    Escape(Base64.Encode(value))
  }

  function PairText(p: Param): (s: string) {
    p.name + "~" + ValueText(p.value)
  }

  function PairsText(ps: seq<Param>): (s: string) {
    if ps == [] then ""
    else if |ps| == 1 then PairText(ps[0])
    else PairText(ps[0]) + ("." + PairsText(ps[1..]))
  }

  function Signature(key: Key, text: string): (s: string)
    ensures IsHex(s)
  {
    key.md5(key.secret + key.callId + text)
  }

  function Encode(key: Key, ps: seq<Param>): (token: string) {
    PairsText(ps) + ("!" + Signature(key, PairsText(ps)))
  }

  // ----- parsing -----

  /** The number of leading characters that satisfy `p`. */
  function Span(s: string, p: char -> bool): (n: nat)
    ensures n <= |s|
    ensures All(s[..n], p)
    ensures n < |s| ==> !p(s[n])
  {
    if s == "" || !p(s[0]) then 0
    else
      var m := Span(s[1..], p);
      assert s[..m + 1] == [s[0]] + s[1..][..m];
      m + 1
  }

  datatype Raw = Raw(name: string, encoded: string)

  /**
   * The list of pairs as the token pattern describes it. The separator in that pattern is an
   * unescaped dot, so any character but a newline separates two pairs.
   */
  predicate IsPairs(s: string)
    decreases |s|
  {
    var n := Span(s, NameChar);
    2 <= n < |s| && s[n] == '~' && IsPairsTail(s[n + 1..])
  }

  /** What may follow a `~`: value characters, then nothing or a separator and more pairs. */
  predicate IsPairsTail(s: string)
    decreases |s|
  {
    s == "" || (s[0] != '\n' && IsPairs(s[1..])) || (ValueChar(s[0]) && IsPairsTail(s[1..]))
  }

  datatype Split = Split(text: string, signature: string)

  /** A token of the right syntax. Its `$` also matches before a newline that ends the token. */
  function SplitToken(token: string): (r: Option<Split>) {
    var t := if token != "" && token[|token| - 1] == '\n' then token[..|token| - 1] else token;
    var n := |t| - 33;
    if n >= 0 && t[n] == '!' && IsHex(t[n + 1..]) && IsPairs(t[..n]) then Some(Split(t[..n], t[n + 1..])) else None
  }

  /** A name/value pair that starts here and ends in a dot or `!`, with what follows it. */
  function PairAt(s: string): (r: Option<(Raw, string)>)
    ensures r.Some? ==> |r.value.1| < |s|
  {
    var n := Span(s, NameChar);
    if n < 2 || n == |s| || s[n] != '~' then None
    else
      var t := s[n + 1..];
      var m := Span(t, ValueChar);
      if m < |t| && (t[m] == '.' || t[m] == '!') then Some((Raw(s[..n], t[..m]), t[m + 1..])) else None
  }

  /** The next pair, wherever it starts: what stands before it is skipped. */
  function NextPair(s: string): (r: Option<(Raw, string)>)
    ensures r.Some? ==> |r.value.1| < |s|
  {
    if s == "" then None else if PairAt(s).Some? then PairAt(s) else NextPair(s[1..])
  }

  /** A pair and all that are found after it. */
  function PairsFrom(pair: Option<(Raw, string)>): (raws: seq<Raw>)
    decreases if pair.Some? then |pair.value.1| + 1 else 0
  {
    match pair
    case None => []
    case Some((raw, rest)) => [raw] + PairsFrom(NextPair(rest))
  }

  predicate OneStar(name: string) {
    exists i :: 0 <= i < |name| && name[i] == '*' && forall j :: 0 <= j < |name| && name[j] == '*' ==> j == i
  }

  function DecodeValue(encoded: string): (r: Option<seq<byte>>) {
    if encoded == "" then Some([]) else Base64.Decode(Unescape(encoded))
  }

  predicate RawOk(raw: Raw) {
    OneStar(raw.name) && DecodeValue(raw.encoded).Some?
  }

  /** The pairs inserted one after the other into `ps`; None at the first bad one. */
  function DecodePairs(raws: seq<Raw>, ps: seq<Param>): (r: Option<seq<Param>>) {
    if raws == [] then Some(ps)
    else if !RawOk(raws[0]) then None
    else DecodePairs(raws[1..], Insert(ps, Param(raws[0].name, DecodeValue(raws[0].encoded).value)))
  }

  /** The first pair has to start the token; the others are searched for. */
  function DecodeText(token: string): (r: Option<seq<Param>>) {
    if PairAt(token).None? then None else DecodePairs(PairsFrom(PairAt(token)), [])
  }

  function Decode(key: Key, token: string): (r: Option<seq<Param>>) {
    match SplitToken(token)
    case None => None
    case Some(split) =>
      if split.signature == Signature(key, split.text) then DecodeText(token) else None
  }
}
