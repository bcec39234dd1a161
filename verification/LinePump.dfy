/** The host's line accumulator: whatever the chunks it is fed in, it calls back with the lines of the stream. */
module LinePump {
  const LINE_MAX := 8192

  function StripCr(line: string): string {
    if line != "" && line[|line| - 1] == '\r' then line[..|line| - 1] else line
  }

  // ---- The lines of a stream ----

  /** Where the first newline stands, or the length if there is none. */
  function Newline(s: string): (i: nat)
    ensures IsNewline(s, i)
  {
    if s == "" || s[0] == '\n' then 0 else 1 + Newline(s[1..])
  }

  predicate IsNewline(s: string, i: nat) {
    i <= |s| && (forall k :: 0 <= k < i ==> s[k] != '\n') && (i < |s| ==> s[i] == '\n')
  }

  /** What a line that has ended is reported as. */
  function Callback(line: string): seq<string> { if |line| <= LINE_MAX then [StripCr(line)] else [] }

  /** The callbacks due for a stream: its newline-terminated lines, those of more than 8192 bytes left out whole. */
  function Callbacks(s: string): seq<string> {
    var i := Newline(s);
    if i == |s| then [] else Callback(s[..i]) + Callbacks(s[i + 1..])
  }

  /** What stands behind the last newline. */
  function Tail(s: string): string {
    var i := Newline(s);
    if i == |s| then s else Tail(s[i + 1..])
  }

  lemma NewlineIsFirst(s: string, i: nat)
    requires IsNewline(s, i)
    ensures Newline(s) == i
  {
  }

  lemma Unfold(s: string)
    ensures var i := Newline(s);
            if i == |s| then Callbacks(s) == [] && Tail(s) == s
            else i < |s| && Callbacks(s) == Callback(s[..i]) + Callbacks(s[i + 1..]) && Tail(s) == Tail(s[i + 1..])
  {
    hide Callback, Newline, IsNewline, Callbacks, Tail;
    UnfoldCallbacks(s);
    UnfoldTail(s);
  }

  lemma UnfoldCallbacks(s: string)
    ensures var i := Newline(s);
            i <= |s| && Callbacks(s) == if i == |s| then [] else Callback(s[..i]) + Callbacks(s[i + 1..])
  {
    hide Callback, Newline, IsNewline, Tail;
    NewlineIsInside(s);
  }

  lemma UnfoldTail(s: string)
    ensures var i := Newline(s); i <= |s| && Tail(s) == if i == |s| then s else Tail(s[i + 1..])
  {
    hide Newline, IsNewline, Callbacks;
    NewlineIsInside(s);
  }

  lemma NewlineIsInside(s: string)
    ensures Newline(s) <= |s|
  {
    hide Newline;
  }

  /** What one more byte adds. */
  lemma {:induction false} OneMoreByte(s: string, c: char)
    ensures Tail(s + [c]) == if c == '\n' then "" else Tail(s) + [c]
    ensures Callbacks(s + [c]) == Callbacks(s) + if c == '\n' then Callback(Tail(s)) else []
    decreases |s|
  {
    hide Callback, Newline, Callbacks, Tail;
    var i, t := Newline(s), s + [c];
    Unfold(s);
    Unfold(t);
    if i < |s| {
      assert t[..i] == s[..i] && t[i + 1..] == s[i + 1..] + [c];
      NewlineIsFirst(t, i);
      OneMoreByte(s[i + 1..], c);
    } else if c == '\n' {
      assert t[..i] == s && t[i + 1..] == "";
      NewlineIsFirst(t, i);
      NewlineIsFirst("", 0);
      Unfold("");
    } else {
      NewlineIsFirst(t, i + 1);
    }
  }

  /** A line is reported without the one carriage return in front of its newline; of more than 8192 bytes it is not reported. */
  lemma LineIsReported(line: string)
    requires '\n' !in line
    ensures |line| <= 8191 ==> Callbacks(line + ['\r', '\n']) == [line]
    ensures |line| <= 8192 && (line == "" || line[|line| - 1] != '\r') ==> Callbacks(line + ['\n']) == [line]
    ensures |line| > 8192 ==> Callbacks(line + ['\n']) == []
  {
    hide Callbacks;
    var withCr := line + ['\r'];
    assert withCr[..|line|] == line && withCr + ['\n'] == line + ['\r', '\n'];
    OneLine(line);
    OneLine(withCr);
  }

  lemma OneLine(line: string)
    requires '\n' !in line
    ensures Callbacks(line + ['\n']) == Callback(line)
  {
    hide Callback;
    NewlineIsFirst(line + ['\n'], |line|);
    assert (line + ['\n'])[..|line|] == line && (line + ['\n'])[|line| + 1..] == "";
    Unfold(line + ['\n']);
    NewlineIsFirst("", 0);
    Unfold("");
  }

  // ---- The pump ----

  class Pump {
    var buffer: string
    var dropping: bool
    /** The callbacks made, and everything fed. */
    ghost var called: seq<string>
    ghost var fed: string

    /** The pump has called back for exactly the lines of what it was fed, and holds the rest unless that is too long. */
    ghost predicate Valid()
      reads this
    {
      && called == Callbacks(fed)
      && dropping == (|Tail(fed)| > LINE_MAX)
      && buffer == if dropping then "" else Tail(fed)
    }

    constructor ()
      ensures Valid() && fed == "" && called == []
    {
      buffer, dropping, called, fed := "", false, [], "";
    }

    method Feed(data: string)
      requires Valid()
      modifies this
      ensures Valid() && fed == old(fed) + data
      ensures called == Callbacks(old(fed) + data)
    {
      hide StripCr, Callbacks, Tail;
      assert old(fed) + data[..0] == old(fed);
      var i := 0;
      while i < |data|
        invariant 0 <= i <= |data| && Valid() && fed == old(fed) + data[..i]
      {
        var c := data[i];
        OneMoreByte(fed, c);
        if c == '\n' {
          if !dropping {
            called := called + [StripCr(buffer)];
          }
          buffer, dropping := "", false;
        } else if !dropping && |buffer| < LINE_MAX {
          buffer := buffer + [c];
        } else {
          buffer, dropping := "", true;
        }
        fed := fed + [c];
        assert data[..i + 1] == data[..i] + [c];
        i := i + 1;
      }
      assert data[..i] == data;
    }

    method PendingBytes() returns (n: nat)
      requires Valid()
      ensures n == if |Tail(fed)| > LINE_MAX then 0 else |Tail(fed)|
    {
      n := |buffer|;
    }
  }

  function Concat(chunks: seq<string>): string {
    if chunks == [] then "" else chunks[0] + Concat(chunks[1..])
  }

  /** Feeding a stream in any chunks makes the callbacks of the stream. */
  method FeedAll(chunks: seq<string>) returns (pump: Pump)
    ensures fresh(pump) && pump.Valid() && pump.called == Callbacks(Concat(chunks))
  {
    hide Callbacks, Tail, Newline, StripCr;
    pump := new Pump();
    var i := 0;
    while i < |chunks|
      invariant 0 <= i <= |chunks| && fresh(pump) && pump.Valid()
      invariant pump.fed + Concat(chunks[i..]) == Concat(chunks)
    {
      pump.Feed(chunks[i]);
      assert chunks[i..][1..] == chunks[i + 1..];
      i := i + 1;
    }
    assert pump.fed + "" == pump.fed;
  }

  /** How a stream is cut into chunks makes no difference: the lines of the parts before a newline are the lines of the whole. */
  lemma {:induction false} LinesSplitAtNewlines(a: string, b: string)
    ensures Callbacks(a + ['\n'] + b) == Callbacks(a + ['\n']) + Callbacks(b)
    decreases |b|
  {
    hide StripCr, Callbacks, Tail, Newline;
    if b == "" {
      assert a + ['\n'] + b == a + ['\n'];
      NewlineIsFirst("", 0);
      Unfold("");
    } else {
      var n := |b| - 1;
      assert b == b[..n] + [b[n]] && a + ['\n'] + b == a + ['\n'] + b[..n] + [b[n]];
      LinesSplitAtNewlines(a, b[..n]);
      OneMoreByte(a + ['\n'] + b[..n], b[n]);
      OneMoreByte(b[..n], b[n]);
      TailBehindNewline(a, b[..n]);
    }
  }

  lemma {:induction false} TailBehindNewline(a: string, b: string)
    ensures Tail(a + ['\n'] + b) == Tail(b)
    decreases |b|
  {
    hide Callbacks, Tail, Newline;
    if b == "" {
      assert a + ['\n'] + b == a + ['\n'];
      OneMoreByte(a, '\n');
      NewlineIsFirst("", 0);
      Unfold("");
    } else {
      var n := |b| - 1;
      assert b == b[..n] + [b[n]] && a + ['\n'] + b == a + ['\n'] + b[..n] + [b[n]];
      TailBehindNewline(a, b[..n]);
      OneMoreByte(a + ['\n'] + b[..n], b[n]);
      OneMoreByte(b[..n], b[n]);
    }
  }
}
