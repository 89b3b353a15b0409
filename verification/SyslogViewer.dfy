/**
 * The log viewer in its default mode: a character machine with a fixed output buffer, and the
 * logger's escaping that it is meant to undo.
 */
module SyslogViewer {
  import opened Common

  const BUFFER_SIZE: nat := 8192

  datatype State = InMessage | Backslash

  // ----- what viewing means -----

  /** What a backslash and the character after it stand for. */
  function Escaped(c: char): (s: string) {
    if c == '\\' then "\\" else if c == 'n' then "\n" else if c == 'r' then "" else ['\\', c]
  }

  /** Quotes are dropped, escapes expanded; a backslash at the very end shows nothing. */
  function Unescape(s: string): (t: string) {
    if s == [] then []
    else if s[0] == '\\' then
      if |s| == 1 then [] else Escaped(s[1]) + Unescape(s[2..])
    else if s[0] == '"' then Unescape(s[1..])
    else [s[0]] + Unescape(s[1..])
  }

  /** Does the text end in a backslash that nothing has completed? */
  predicate Dangling(s: string) {
    if s == [] then false
    else if s[0] == '\\' then |s| == 1 || Dangling(s[2..])
    else Dangling(s[1..])
  }

  /** What one more character adds to the view. */
  function Shown(dangling: bool, c: char): (t: string) {
    if dangling then Escaped(c)
    else if c == '\\' || c == '"' then ""
    else [c]
  }

  lemma {:induction false} UnescapeOneMore(s: string, c: char)
    ensures Unescape(s + [c]) == Unescape(s) + Shown(Dangling(s), c)
    ensures Dangling(s + [c]) == (!Dangling(s) && c == '\\')
    decreases |s|
  {
    if s == [] {
      assert s + [c] == [c];
    } else if s[0] == '\\' && |s| == 1 {
      assert (s + [c])[2..] == [] && (s + [c])[1] == c;
    } else if s[0] == '\\' {
      assert (s + [c])[2..] == s[2..] + [c] && (s + [c])[1] == s[1];
      UnescapeOneMore(s[2..], c);
    } else {
      assert (s + [c])[1..] == s[1..] + [c];
      UnescapeOneMore(s[1..], c);
    }
  }

  // ----- the machine -----

  class Viewer {
    const buffer: array<char>
    var full: nat
    var position: nat
    var lineTabbed: bool
    var state: State
    var written: string
    ghost var consumed: string

    /** The index a character is written at is inside the buffer. */
    ghost predicate Valid()
      reads this
    {
      && buffer.Length == BUFFER_SIZE
      && full < BUFFER_SIZE
      && (state.Backslash? <==> Dangling(consumed))
    }

    /** Everything shown so far: what is out, then what waits in the buffer. */
    ghost function View(): (s: string)
      reads this, buffer
      requires full <= buffer.Length
    {
      written + buffer[..full]
    }

    constructor ()
      ensures Valid() && fresh(buffer) && buffer.Length == 8192
      ensures consumed == "" && View() == ""
    {
      buffer := new char[BUFFER_SIZE];
      full, position, lineTabbed, state := 0, 0, false, InMessage;
      written, consumed := "", "";
    }

    method FlushBuffer()
      requires full <= buffer.Length
      modifies this`full, this`written
      ensures written == old(View()) && full == 0
    {
      written := written + buffer[..full];
      full := 0;
    }

    /** One character at the end of the buffer, which has to have room for it. */
    method Append(c: char)
      requires full < buffer.Length
      modifies this`full, buffer
      ensures full == old(full) + 1 && View() == old(View()) + [c]
    {
      buffer[full] := c;
      full := full + 1;
      AppendedView(written, buffer[..full - 1], c);
      assert buffer[..full] == buffer[..full - 1] + [c];
    }

    method ProcessChar(c: char)
      requires Valid()
      modifies this, buffer
      ensures Valid()
      ensures consumed == old(consumed) + [c]
      ensures View() == old(View()) + Shown(old(state).Backslash?, c)
    {
      UnescapeOneMore(consumed, c);
      if state.InMessage? {
        if c == '\\' {
          state := Backslash;
        } else if c == '\n' {
          Append('\n');
          position, lineTabbed := 0, false;
        } else if c == '"' {
          position, lineTabbed := 0, false;
        } else {
          Append(c);
          position := position + 1;
        }
      } else {
        if c == '\\' {
          Append('\\');
          position := position + 1;
        } else if c == 'n' {
          Append('\n');
          position := 0;
        } else if c != 'r' {
          Append('\\');
          position := position + 1;
          if full == BUFFER_SIZE {
            FlushBuffer();
          }
          Append(c);
          position := position + 1;
        }
        state := InMessage;
      }
      if full == BUFFER_SIZE {
        FlushBuffer();
      }
      consumed := consumed + [c];
    }

    /** One chunk, as a read delivered it. */
    method ProcessChunk(chunk: string)
      requires Valid() && View() == Unescape(consumed)
      modifies this, buffer
      ensures Valid() && View() == Unescape(consumed)
      ensures consumed == old(consumed) + chunk
    {
      var j := 0;
      while j != |chunk|
        invariant 0 <= j <= |chunk|
        invariant Valid() && View() == Unescape(consumed)
        invariant consumed == old(consumed) + chunk[..j]
      {
        UnescapeOneMore(consumed, chunk[j]);
        ProcessChar(chunk[j]);
        TakeOneMore(old(consumed), chunk, j);
        j := j + 1;
      }
      assert chunk[..j] == chunk;
    }
  }

  lemma AppendedView(written: string, buffered: string, c: char)
    ensures written + (buffered + [c]) == written + buffered + [c]
  {
  }

  lemma TakeOneMore(before: string, chunk: string, j: nat)
    requires j < |chunk|
    ensures before + chunk[..j] + [chunk[j]] == before + chunk[..j + 1]
  {
  }

  function Concat(chunks: seq<string>): (s: string) {
    if chunks == [] then [] else chunks[0] + Concat(chunks[1..])
  }

  lemma {:induction false} ConcatOneMore(chunks: seq<string>, i: nat)
    requires i < |chunks|
    ensures Concat(chunks[..i + 1]) == Concat(chunks[..i]) + chunks[i]
    decreases i
  {
    var now, next := chunks[..i], chunks[..i + 1];
    if i == 0 {
      assert next[1..] == [] && now == [];
    } else {
      assert now[1..] == chunks[1..][..i - 1] && next[1..] == chunks[1..][..i];
      ConcatOneMore(chunks[1..], i - 1);
    }
  }

  /** Whatever chunks the reads deliver, the output is the view of their concatenation. */
  method ViewLog(chunks: seq<string>) returns (output: string)
    ensures output == Unescape(Concat(chunks))
  {
    var viewer := new Viewer();
    var i := 0;
    while i < |chunks|
      invariant 0 <= i <= |chunks|
      invariant fresh(viewer) && fresh(viewer.buffer)
      invariant viewer.Valid() && viewer.View() == Unescape(viewer.consumed)
      invariant viewer.consumed == Concat(chunks[..i])
    {
      ConcatOneMore(chunks, i);
      viewer.ProcessChunk(chunks[i]);
      i := i + 1;
    }
    assert chunks[..i] == chunks;
    viewer.FlushBuffer();
    output := viewer.written;
  }

  // ----- the view, piece by piece -----

  /** A text that does not break off in an escape is viewed on its own, whatever follows. */
  lemma {:induction false} ViewOfJoin(a: string, b: string)
    requires !Dangling(a)
    ensures Unescape(a + b) == Unescape(a) + Unescape(b)
    decreases |b|, 1
  {
    if b == [] {
      assert a + b == a;
    } else if b[0] == '\\' {
      ViewOfEscape(a, b);
    } else {
      UnescapeOneMore(a, b[0]);
      Associative(a, [b[0]], b[1..]);
      assert b == [b[0]] + b[1..];
      ViewOfJoin(a + [b[0]], b[1..]);
      Associative(Unescape(a), Shown(false, b[0]), Unescape(b[1..]));
    }
  }

  lemma {:induction false} ViewOfEscape(a: string, b: string)
    requires !Dangling(a) && b != [] && b[0] == '\\'
    ensures Unescape(a + b) == Unescape(a) + Unescape(b)
    decreases |b|, 0
  {
    if |b| == 1 {
      UnescapeOneMore(a, '\\');
      assert b == ['\\'];
    } else {
      var c, rest := b[1], b[2..];
      assert b == ['\\', c] + rest;
      UnescapePair(a, c);
      Associative(a, ['\\', c], rest);
      ViewOfJoin(a + ['\\', c], rest);
      Associative(Unescape(a), Escaped(c), Unescape(rest));
    }
  }

  /**
   * With that, these are all there is to a view: `\n` is a newline, `\r` nothing, a double
   * backslash a backslash, any other escape itself; a bare quote is dropped, and any other
   * character shown.
   */
  lemma ViewOfPieces(c: char)
    ensures Unescape("\\n") == "\n" && Unescape("\\r") == "" && Unescape("\\\\") == "\\"
    ensures c !in {'\\', 'n', 'r'} ==> Unescape(['\\', c]) == ['\\', c]
    ensures Unescape("\"") == "" && Unescape("") == "" && Unescape("\\") == ""
    ensures c != '\\' && c != '"' ==> Unescape([c]) == [c]
  {
    UnescapePair("", 'n');
    UnescapePair("", 'r');
    UnescapePair("", '\\');
    UnescapePair("", c);
    assert "" + ['\\', c] == ['\\', c] && "" + ['\\', 'n'] == "\\n" && "" + ['\\', 'r'] == "\\r" && "" + ['\\', '\\'] == "\\\\";
    UnescapeOneMore("", c);
    assert "" + [c] == [c];
  }

  // ----- what the logger escapes -----

  function EscapedChar(c: char): (s: string) {
    if c == '\\' then "\\\\"
    else if c == '\r' then "\\r"
    else if c == '\n' then "\\n"
    else if c == '"' then "\\\""
    else [c]
  }

  function EscapeLog(s: string): (t: string) {
    if s == [] then [] else EscapeLog(s[..|s| - 1]) + EscapedChar(s[|s| - 1])
  }

  method EscapeFilter(message: string) returns (escaped: string)
    ensures escaped == EscapeLog(message)
  {
    escaped := "";
    for i := 0 to |message|
      invariant escaped == EscapeLog(message[..i])
    {
      assert message[..i + 1][..i] == message[..i];
      var c := message[i];
      if c == '\\' {
        escaped := escaped + "\\\\";
      } else if c == '\r' {
        escaped := escaped + "\\r";
      } else if c == '\n' {
        escaped := escaped + "\\n";
      } else if c == '"' {
        escaped := escaped + "\\\"";
      } else {
        escaped := escaped + [c];
      }
    }
    assert message[..|message|] == message;
  }

  function ViewedChar(c: char): (t: string) {
    if c == '\r' then "" else if c == '"' then "\\\"" else [c]
  }

  /** How a viewed log message differs from the message that was logged. */
  function AsViewed(s: string): (t: string) {
    if s == [] then [] else AsViewed(s[..|s| - 1]) + ViewedChar(s[|s| - 1])
  }

  lemma UnescapePair(s: string, c: char)
    requires !Dangling(s)
    ensures !Dangling(s + ['\\', c]) && Unescape(s + ['\\', c]) == Unescape(s) + Escaped(c)
  {
    UnescapeOneMore(s, '\\');
    UnescapeOneMore(s + ['\\'], c);
    assert s + ['\\', c] == s + ['\\'] + [c];
  }

  lemma EscapedCharBack(s: string, c: char)
    requires !Dangling(s)
    ensures !Dangling(s + EscapedChar(c))
    ensures Unescape(s + EscapedChar(c)) == Unescape(s) + ViewedChar(c)
  {
    var e := EscapedChar(c);
    if |e| == 2 {
      UnescapePair(s, e[1]);
      assert e == ['\\', e[1]] && Escaped(e[1]) == ViewedChar(c);
    } else {
      UnescapeOneMore(s, c);
    }
  }

  /** Viewing an escaped message gives the message back, but for carriage returns and quotes. */
  lemma {:induction false} ViewOfEscaped(s: string)
    ensures Unescape(EscapeLog(s)) == AsViewed(s) && !Dangling(EscapeLog(s))
  {
    if s != [] {
      var front, c := s[..|s| - 1], s[|s| - 1];
      ViewOfEscaped(front);
      EscapedCharBack(EscapeLog(front), c);
    }
  }

  function Count(s: string, c: char): (n: nat)
    ensures n > 0 <==> c in s
  {
    if s == [] then 0 else Count(s[..|s| - 1], c) + if s[|s| - 1] == c then 1 else 0
  }

  lemma {:induction false} CountJoin(s: string, t: string, c: char)
    ensures Count(s + t, c) == Count(s, c) + Count(t, c)
  {
    if t == [] {
      assert s + t == s;
    } else {
      assert (s + t)[..|s + t| - 1] == s + t[..|t| - 1];
      CountJoin(s, t[..|t| - 1], c);
    }
  }

  lemma {:induction false} ViewedCounts(s: string)
    ensures Count(AsViewed(s), '\r') == 0
    ensures Count(AsViewed(s), '\\') == Count(s, '\\') + Count(s, '"')
  {
    if s != [] {
      var c := s[|s| - 1];
      var last := ViewedChar(c);
      ViewedCounts(s[..|s| - 1]);
      CountJoin(AsViewed(s[..|s| - 1]), last, '\r');
      CountJoin(AsViewed(s[..|s| - 1]), last, '\\');
      assert last != [] ==> last[..|last| - 1] == if c == '"' then "\\" else "";
      assert "\\"[..0] == "";
    }
  }

  lemma {:induction false} ViewedPlain(s: string)
    requires '\r' !in s && '"' !in s
    ensures AsViewed(s) == s
  {
    if s != [] {
      ViewedPlain(s[..|s| - 1]);
    }
  }

  /** The viewer undoes the logger exactly on messages without carriage returns and quotes. */
  lemma ViewUndoesEscapeIff(s: string)
    ensures Unescape(EscapeLog(s)) == s <==> '\r' !in s && '"' !in s
  {
    ViewOfEscaped(s);
    if '\r' !in s && '"' !in s {
      ViewedPlain(s);
    } else {
      ViewedCounts(s);
    }
  }

  /** A quoted word comes back with a backslash before each quote. */
  lemma QuotedWordIsChanged()
    ensures EscapeLog("\"a") == "\\\"a" && Unescape("\\\"a") == "\\\"a" != "\"a"
  {
    var s := "\"a";
    assert s[..1] == "\"" && s[..1][..0] == "";
    assert EscapeLog("\"") == "\\\"";
    var e := "\\\"a";
    assert e[2..] == "a" && "a"[1..] == "";
  }

  // ----- nothing is lost in the log -----

  lemma {:induction false} EscapeFirst(c: char, s: string)
    ensures EscapeLog([c] + s) == EscapedChar(c) + EscapeLog(s)
  {
    var t := [c] + s;
    if s == [] {
      assert t[..0] == [] && t == [c];
    } else {
      assert t[..|t| - 1] == [c] + s[..|s| - 1];
      EscapeFirst(c, s[..|s| - 1]);
    }
  }

  lemma EscapedCharsDiffer(c: char, a: string, d: char, b: string)
    requires EscapedChar(c) + a == EscapedChar(d) + b
    ensures c == d && a == b
  {
    var s := EscapedChar(c) + a;
    assert s[0] == EscapedChar(c)[0] == EscapedChar(d)[0];
    if s[0] == '\\' {
      assert s[1] == EscapedChar(c)[1] == EscapedChar(d)[1];
    }
    assert s[|EscapedChar(c)|..] == a && s[|EscapedChar(d)|..] == b;
  }

  /** Different messages are different in the log. */
  lemma {:induction false} EscapeIsInjective(s: string, t: string)
    requires EscapeLog(s) == EscapeLog(t)
    ensures s == t
    decreases |s|
  {
    if s != [] {
      assert s == [s[0]] + s[1..];
      EscapeFirst(s[0], s[1..]);
    }
    if t != [] {
      assert t == [t[0]] + t[1..];
      EscapeFirst(t[0], t[1..]);
    }
    if s != [] && t != [] {
      EscapedCharsDiffer(s[0], EscapeLog(s[1..]), t[0], EscapeLog(t[1..]));
      EscapeIsInjective(s[1..], t[1..]);
    }
  }

  /** And a log line holds no line break. */
  lemma {:induction false} EscapedIsOneLine(s: string)
    ensures '\n' !in EscapeLog(s) && '\r' !in EscapeLog(s)
  {
    if s != [] {
      EscapedIsOneLine(s[..|s| - 1]);
    }
  }
}
