/** The scanner that picks "mode reader" and "mode writer" out of a byte stream and gives everything else back. */
module ModeScan {
  import opened Bytes

  const CAP := 32
  const PREFIX_LEN := 5
  const CMD_LEN := 11
  const CR: u8 := 0x0D
  const LF: u8 := 0x0A
  const PREFIX: seq<u8> := [0x6D, 0x6F, 0x64, 0x65, 0x20]
  const READER: seq<u8> := PREFIX + [0x72, 0x65, 0x61, 0x64, 0x65, 0x72]
  const WRITER: seq<u8> := PREFIX + [0x77, 0x72, 0x69, 0x74, 0x65, 0x72]

  datatype Event = Ingested | Command(writer: bool) | Pushed(block: seq<u8>) {
    /** The bytes an event accounts for. */
    function Bytes(): seq<u8> {
      match this
      case Ingested => []
      case Command(writer) => (if writer then WRITER else READER) + [LF]
      case Pushed(block) => block
    }
  }

  /** What the scanner holds between bytes: less than it flushes, and a command as far as its prefix goes. */
  predicate Held(b: seq<u8>) {
    |b| < CAP - 1 && if |b| <= PREFIX_LEN then b <= PREFIX else PREFIX <= b
  }

  /** A block that does not fit the caller's buffer is lost. */
  function Flush(block: seq<u8>, cap: nat): Event { Pushed(if |block| <= cap then block else []) }

  function Feed(b: seq<u8>, ch: u8, cap: nat): (r: (seq<u8>, Event))
    requires Held(b)
    ensures Held(r.0)
  {
    if ch == CR then (b, Ingested)
    else if ch == LF then
      if b == READER || b == WRITER then ([], Command(b == WRITER)) else ([], Flush(b + [LF], cap))
    else
      var longer := b + [ch];
      if |b| < PREFIX_LEN && ch != PREFIX[|b|] then ([], Flush(longer, cap))
      else if |longer| >= CAP - 1 then ([], Flush(longer, cap))
      else (longer, Ingested)
  }

  /** The two commands, as text. */
  lemma CommandsSpell()
    ensures READER == [0x6D, 0x6F, 0x64, 0x65, 0x20, 0x72, 0x65, 0x61, 0x64, 0x65, 0x72]
    ensures WRITER == [0x6D, 0x6F, 0x64, 0x65, 0x20, 0x77, 0x72, 0x69, 0x74, 0x65, 0x72]
    ensures |READER| == |WRITER| == CMD_LEN && READER[..PREFIX_LEN] == WRITER[..PREFIX_LEN] == PREFIX
  {
  }

  class Scanner {
    const buf: array<u8>
    var len: u16

    ghost predicate Valid()
      reads this, buf
    {
      buf.Length == CAP && len < CAP - 1 && Held(buf[..len])
    }

    ghost function Buffered(): (b: seq<u8>)
      requires Valid()
      reads this, buf
      ensures Held(b)
    {
      buf[..len]
    }

    constructor ()
      ensures Valid() && Buffered() == [] && fresh(buf)
    {
      buf := new u8[CAP];
      len := 0;
    }

    method Reset()
      requires Valid()
      modifies this
      ensures Valid() && Buffered() == []
    {
      len := 0;
    }

    method FeedByte(ch: u8, pushback: array<u8>) returns (ghost event: Event, stop: bool, mode: Option<bool>, pushLen: nat)
      requires Valid() && pushback != buf
      modifies this, buf, pushback
      ensures Valid()
      ensures var r := Feed(old(Buffered()), ch, pushback.Length); Buffered() == r.0 && event == r.1
      ensures stop == event.Pushed? && (mode.Some? <==> event.Command?) && (mode.Some? ==> mode.value == event.writer)
      ensures pushLen == (if event.Pushed? then |event.block| else 0) <= pushback.Length
      ensures event.Pushed? ==> pushback[..pushLen] == event.block
    {
      event, stop, mode, pushLen := Ingested, false, None, 0;
      if ch == CR {
        return;
      }
      ghost var held := buf[..len];
      if ch == LF {
        if buf[..len] == READER || buf[..len] == WRITER {
          mode := Some(buf[..len] == WRITER);
          event := Command(mode.value);
          len := 0;
          return;
        }
        buf[len] := LF;
        assert buf[..len + 1] == held + [LF];
        len := len + 1;
        event, stop, pushLen := PushBack(pushback);
        return;
      }
      buf[len] := ch;
      assert buf[..len + 1] == held + [ch];
      if len < PREFIX_LEN && ch != PREFIX[len] {
        len := len + 1;
        event, stop, pushLen := PushBack(pushback);
        return;
      }
      len := len + 1;
      if len >= CAP - 1 {
        event, stop, pushLen := PushBack(pushback);
        return;
      }
    }

    /** Hands the buffered bytes to the caller and starts afresh. */
    method PushBack(pushback: array<u8>) returns (ghost event: Event, stop: bool, pushLen: nat)
      requires buf.Length == CAP && len <= CAP && pushback != buf
      modifies this`len, pushback
      ensures len == 0 && stop && event == Flush(buf[..old(len)], pushback.Length)
      ensures pushLen == |event.block| <= pushback.Length && pushback[..pushLen] == event.block
    {
      event, stop, pushLen := Flush(buf[..len], pushback.Length), true, 0;
      var n := len;
      len := 0;
      if n > pushback.Length {
        return;
      }
      while pushLen < n
        invariant 0 <= pushLen <= n && pushback[..pushLen] == buf[..pushLen]
        invariant len == 0
      {
        pushback[pushLen] := buf[pushLen];
        pushLen := pushLen + 1;
      }
    }
  }

  // ---- Whole inputs ----

  /** What is buffered after an input fed to a scanner that held `b0`, and the events on the way. */
  function After(b0: seq<u8>, input: seq<u8>, cap: nat): (b: seq<u8>)
    requires Held(b0)
    ensures Held(b)
  {
    if input == [] then b0 else Feed(After(b0, input[..|input| - 1], cap), input[|input| - 1], cap).0
  }

  function Events(b0: seq<u8>, input: seq<u8>, cap: nat): seq<Event>
    requires Held(b0)
  {
    if input == [] then []
    else Events(b0, input[..|input| - 1], cap) + [Feed(After(b0, input[..|input| - 1], cap), input[|input| - 1], cap).1]
  }

  function Flatten(events: seq<Event>): seq<u8> {
    if events == [] then [] else Flatten(events[..|events| - 1]) + events[|events| - 1].Bytes()
  }

  function WithoutCr(input: seq<u8>): seq<u8> {
    if input == [] then []
    else WithoutCr(input[..|input| - 1]) + if input[|input| - 1] == CR then [] else [input[|input| - 1]]
  }

  /** One byte is accounted for: by the event, or by the buffer. */
  lemma FeedConserves(b: seq<u8>, ch: u8, cap: nat)
    requires Held(b) && cap >= CAP
    ensures var (b', e) := Feed(b, ch, cap); e.Bytes() + b' == b + if ch == CR then [] else [ch]
    ensures Feed(b, ch, cap).1.Pushed? ==> 0 < |Feed(b, ch, cap).1.block| < CAP
  {
  }

  /** No byte but carriage returns is lost, doubled or moved: what was reported, then what is buffered, is the input. */
  lemma {:induction false} ScannerConserves(b0: seq<u8>, input: seq<u8>, cap: nat)
    requires Held(b0) && cap >= CAP
    ensures Flatten(Events(b0, input, cap)) + After(b0, input, cap) == b0 + WithoutCr(input)
  {
    hide Feed, Held, Flatten;
    if input == [] {
      assert Flatten([]) == [] by { FlattenNothing(); }
      assert [] + b0 == b0 == b0 + [];
    } else {
      var n := |input| - 1;
      var b, ch := After(b0, input[..n], cap), input[n];
      var kept := if ch == CR then [] else [ch];
      ScannerConserves(b0, input[..n], cap);
      FeedConserves(b, ch, cap);
      OneMoreEvent(Events(b0, input[..n], cap), Feed(b, ch, cap).1);
      Regroup(Flatten(Events(b0, input[..n], cap)), Feed(b, ch, cap).1.Bytes(), Feed(b, ch, cap).0,
              b, kept, b0, WithoutCr(input[..n]));
    }
  }

  lemma FlattenNothing()
    ensures Flatten([]) == []
  {
  }

  lemma Regroup(before: seq<u8>, e: seq<u8>, b': seq<u8>, b: seq<u8>, kept: seq<u8>, b0: seq<u8>, w: seq<u8>)
    requires before + b == b0 + w && e + b' == b + kept
    ensures before + e + b' == b0 + (w + kept)
  {
    assert before + e + b' == before + (e + b') == before + b + kept;
  }

  lemma OneMoreEvent(events: seq<Event>, e: Event)
    ensures Flatten(events + [e]) == Flatten(events) + e.Bytes()
  {
    var longer := events + [e];
    assert longer[..|longer| - 1] == events && longer[|longer| - 1] == e;
  }

  lemma NothingIsHeld()
    ensures Held([])
  {
  }

  /** A line of printable input: no carriage return, no line feed. */
  predicate Line(s: seq<u8>) { CR !in s && LF !in s }

  lemma FeedShape(b: seq<u8>, ch: u8, cap: nat)
    requires Held(b) && ch != CR && ch != LF
    ensures Feed(b, ch, cap).0 == [] || Feed(b, ch, cap).0 == b + [ch]
  {
  }

  /** What is buffered are the last bytes of the line, and the scanner was empty in front of them. */
  lemma {:induction false} BufferIsTheEnd(line: seq<u8>, cap: nat)
    requires Line(line)
    ensures var b := After([], line, cap);
            |b| <= |line| && line[|line| - |b|..] == b && After([], line[..|line| - |b|], cap) == []
  {
    hide Feed, Held;
    if line != [] {
      var n := |line| - 1;
      assert line[n] in line && Line(line[..n]);
      BufferIsTheEnd(line[..n], cap);
      var c, b := After([], line[..n], cap), After([], line, cap);
      FeedShape(c, line[n], cap);
      if b == [] {
        assert line[..|line|] == line;
      } else {
        assert line[..n][..n - |c|] == line[..|line| - |b|];
        assert line[|line| - |b|..] == line[..n][n - |c|..] + [line[n]];
      }
    }
  }

  /** What the scanner gives up on in front of a line's end: a mismatch in the prefix, or a prefix and 26 bytes. */
  predicate Fragment(f: seq<u8>) {
    if |f| <= 5 then f != [] && f[..|f| - 1] == PREFIX[..|f| - 1] && f[|f| - 1] != PREFIX[|f| - 1]
    else |f| == 31 && PREFIX <= f
  }

  predicate Fragments(parts: seq<seq<u8>>) { forall f :: f in parts ==> Fragment(f) }

  function Join(parts: seq<seq<u8>>): seq<u8> {
    if parts == [] then [] else Join(parts[..|parts| - 1]) + parts[|parts| - 1]
  }

  lemma NoPart()
    ensures Fragments([]) && Join([]) == []
  {
  }

  lemma OneMorePart(parts: seq<seq<u8>>, f: seq<u8>)
    ensures Join(parts + [f]) == Join(parts) + f
    ensures Fragments(parts + [f]) <==> Fragments(parts) && Fragment(f)
  {
    var longer := parts + [f];
    assert longer[..|longer| - 1] == parts && longer[|longer| - 1] == f;
    assert f in longer && forall p :: p in parts ==> p in longer;
  }

  /** A text that the scanner holds as far as `n`, and the next byte of which it can take in. */
  lemma TakesIn(text: seq<u8>, n: nat, cap: nat)
    requires 0 < n <= |text| && Line(text) && Held(text[..n - 1]) && Held(text[..n])
    ensures Feed(text[..n - 1], text[n - 1], cap) == (text[..n], Ingested)
  {
    assert text[n - 1] in text;
    assert text[..n - 1] + [text[n - 1]] == text[..n];
    assert n <= PREFIX_LEN ==> text[..n][n - 1] == PREFIX[n - 1];
  }

  lemma HeldShorter(text: seq<u8>, n: nat)
    requires n <= |text| && Held(text)
    ensures Held(text[..n])
  {
    assert |text| <= PREFIX_LEN ==> text[..n] == PREFIX[..n];
    assert |text| > PREFIX_LEN && n > PREFIX_LEN ==> text[..n][..PREFIX_LEN] == text[..PREFIX_LEN];
    assert |text| > PREFIX_LEN && n <= PREFIX_LEN ==> text[..n] == text[..PREFIX_LEN][..n];
  }

  /** From an empty scanner a text that it can hold is taken in byte by byte. */
  lemma {:induction false} TextIsTakenIn(front: seq<u8>, text: seq<u8>, n: nat, cap: nat)
    requires Line(text) && Held(text) && n <= |text| && After([], front, cap) == []
    ensures After([], front + text[..n], cap) == text[..n]
  {
    hide Feed, Held;
    if n == 0 {
      assert front + text[..0] == front;
    } else {
      TextIsTakenIn(front, text, n - 1, cap);
      HeldShorter(text, n - 1);
      HeldShorter(text, n);
      TakesIn(text, n, cap);
      var s := front + text[..n];
      assert s[..|s| - 1] == front + text[..n - 1] && s[|s| - 1] == text[n - 1];
    }
  }

  /** A byte empties the scanner exactly if it completes a fragment. */
  lemma FragmentsAreGivenUp(b: seq<u8>, ch: u8, cap: nat)
    requires ch != CR && ch != LF
    ensures Fragment(b + [ch]) ==> Held(b)
    ensures Held(b) ==> (Feed(b, ch, cap).0 == [] <==> Fragment(b + [ch]))
  {
    var f := b + [ch];
    assert f[..|f| - 1] == b && f[|f| - 1] == ch;
    assert |b| >= PREFIX_LEN ==> (PREFIX <= f <==> PREFIX <= b) by {
      assert |b| >= PREFIX_LEN ==> f[..PREFIX_LEN] == b[..PREFIX_LEN];
    }
  }

  lemma FragmentEmptiesTheScanner(front: seq<u8>, f: seq<u8>, cap: nat)
    requires After([], front, cap) == [] && Fragment(f) && Line(f)
    ensures After([], front + f, cap) == []
  {
    hide Feed, Held, After, Fragment;
    NothingIsHeld();
    assert f != [] by { FragmentIsNotEmpty(f); }
    var n := |f| - 1;
    var b, ch := f[..n], f[n];
    assert b + [ch] == f && Line(b) && ch in f;
    FragmentsAreGivenUp(b, ch, cap);
    TextIsTakenIn(front, b, n, cap);
    assert b[..n] == b;
    AfterOneMore([], front + b, ch, cap);
    assert front + f == (front + b) + [ch];
  }

  lemma FragmentIsNotEmpty(f: seq<u8>)
    requires Fragment(f)
    ensures f != []
  {
  }

  lemma AfterOneMore(b0: seq<u8>, s: seq<u8>, ch: u8, cap: nat)
    requires Held(b0)
    ensures After(b0, s + [ch], cap) == Feed(After(b0, s, cap), ch, cap).0
  {
    hide Feed, Held;
    var longer := s + [ch];
    assert longer[..|longer| - 1] == s && longer[|longer| - 1] == ch;
  }

  lemma {:induction false} FragmentsEmptyTheScanner(parts: seq<seq<u8>>, cap: nat)
    requires Fragments(parts) && Line(Join(parts))
    ensures After([], Join(parts), cap) == []
  {
    hide Fragment, Feed, Held;
    if parts != [] {
      var n := |parts| - 1;
      assert Fragments(parts[..n]) && parts[n] in parts;
      assert forall x :: x in Join(parts[..n]) || x in parts[n] ==> x in Join(parts);
      FragmentsEmptyTheScanner(parts[..n], cap);
      FragmentEmptiesTheScanner(Join(parts[..n]), parts[n], cap);
    }
  }

  /** A line that leaves the scanner empty is made of fragments. */
  lemma {:induction false} EmptyAfterFragments(line: seq<u8>, cap: nat) returns (parts: seq<seq<u8>>)
    requires Line(line) && After([], line, cap) == []
    ensures Fragments(parts) && Join(parts) == line
    decreases |line|
  {
    hide Fragment, Feed, Held, After, Fragments, Join;
    NothingIsHeld();
    if line == [] {
      parts := [];
      NoPart();
    } else {
      var n := |line| - 1;
      var s, ch := line[..n], line[n];
      assert ch in line && Line(s) && s + [ch] == line;
      AfterOneMore([], s, ch, cap);
      BufferIsTheEnd(s, cap);
      var b := After([], s, cap);
      FragmentsAreGivenUp(b, ch, cap);
      var front := s[..n - |b|];
      assert Line(front) && s == front + b;
      var before := EmptyAfterFragments(front, cap);
      parts := before + [b + [ch]];
      OneMorePart(before, b + [ch]);
      assert front + b + [ch] == front + (b + [ch]);
    }
  }

  lemma CommandEvent(b: seq<u8>, cmd: seq<u8>, cap: nat)
    requires Held(b) && (cmd == READER || cmd == WRITER)
    ensures Feed(b, LF, cap).1 == Command(cmd == WRITER) <==> b == cmd
    ensures |cmd| == CMD_LEN && Held(cmd) && Line(cmd)
  {
    assert READER[5] != WRITER[5];
  }

  /** A command behind fragments. */
  ghost predicate Ends(line: seq<u8>, cmd: seq<u8>, parts: seq<seq<u8>>) {
    Fragments(parts) && line == Join(parts) + cmd
  }

  lemma PlainCommandExactlyWhen(line: seq<u8>, cmd: seq<u8>, cap: nat)
    requires Line(line) && (cmd == READER || cmd == WRITER)
    ensures Feed(After([], line, cap), LF, cap).1 == Command(cmd == WRITER) <==> exists parts :: Ends(line, cmd, parts)
  {
    hide Feed, Held, After, Fragments, Join;
    NothingIsHeld();
    var b := After([], line, cap);
    BufferIsTheEnd(line, cap);
    CommandEvent(b, cmd, cap);
    if b == cmd {
      var front := line[..|line| - |b|];
      assert Line(front) && line == front + cmd;
      var parts := EmptyAfterFragments(front, cap);
      assert Ends(line, cmd, parts);
    }
    if parts :| Ends(line, cmd, parts) {
      assert forall x :: x in Join(parts) ==> x in line;
      FragmentsEmptyTheScanner(parts, cap);
      TextIsTakenIn(Join(parts), cmd, CMD_LEN, cap);
      assert cmd[..CMD_LEN] == cmd;
    }
  }

  /** Carriage returns make no difference to what is buffered. */
  lemma {:induction false} CrIsSkipped(b0: seq<u8>, input: seq<u8>, cap: nat)
    requires Held(b0)
    ensures After(b0, WithoutCr(input), cap) == After(b0, input, cap)
    ensures LF !in input ==> Line(WithoutCr(input))
  {
    hide Held;
    if input != [] {
      var n := |input| - 1;
      CrIsSkipped(b0, input[..n], cap);
      var w := WithoutCr(input);
      assert input[n] in input;
      if input[n] != CR {
        assert w[..|w| - 1] == WithoutCr(input[..n]) && w[|w| - 1] == input[n];
      } else {
        assert w == WithoutCr(input[..n]);
      }
    }
  }

  /** A line feed empties the scanner, so what came before it makes no difference either. */
  lemma {:induction false} LinesAreApart(earlier: seq<u8>, line: seq<u8>, cap: nat)
    requires earlier == [] || earlier[|earlier| - 1] == LF
    ensures After([], earlier + line, cap) == After([], line, cap)
  {
    hide Held;
    NothingIsHeld();
    if line == [] {
      assert earlier + line == earlier;
      assert After([], earlier, cap) == [];
    } else {
      var n, s := |line| - 1, earlier + line;
      LinesAreApart(earlier, line[..n], cap);
      assert s[..|s| - 1] == earlier + line[..n] && s[|s| - 1] == line[n];
    }
  }

  /**
    * In any input, at the end of any line, a command is reported exactly if the line without its carriage returns is fragments
    * and then the command.
    */
  lemma CommandReportedExactlyWhen(earlier: seq<u8>, line: seq<u8>, cmd: seq<u8>, cap: nat)
    requires earlier == [] || earlier[|earlier| - 1] == LF
    requires LF !in line && (cmd == READER || cmd == WRITER)
    ensures Feed(After([], earlier + line, cap), LF, cap).1 == Command(cmd == WRITER)
            <==> exists parts :: Ends(WithoutCr(line), cmd, parts)
  {
    hide Feed, After, Ends, WithoutCr;
    LinesAreApart(earlier, line, cap);
    CrIsSkipped([], line, cap);
    PlainCommandExactlyWhen(WithoutCr(line), cmd, cap);
  }

  /** So the promise that only the command itself is reported fails exactly on the lines with fragments in front of a command. */
  lemma OnlyTheCommandIsReportedExactlyWhen(earlier: seq<u8>, line: seq<u8>, cmd: seq<u8>, cap: nat)
    requires earlier == [] || earlier[|earlier| - 1] == LF
    requires LF !in line && (cmd == READER || cmd == WRITER)
    ensures (Feed(After([], earlier + line, cap), LF, cap).1 == Command(cmd == WRITER) <==> WithoutCr(line) == cmd)
            <==> !exists parts :: parts != [] && Ends(WithoutCr(line), cmd, parts)
  {
    hide Feed, After, WithoutCr, Ends;
    CommandReportedExactlyWhen(earlier, line, cmd, cap);
    forall parts | Ends(WithoutCr(line), cmd, parts) ensures WithoutCr(line) == cmd <==> parts == [] {
      FragmentsAreNotNothing(WithoutCr(line), cmd, parts);
    }
    assert WithoutCr(line) == cmd ==> Ends(WithoutCr(line), cmd, []) by { CommandEnds(cmd); }
  }

  lemma CommandEnds(cmd: seq<u8>)
    ensures Ends(cmd, cmd, [])
  {
    assert [] + cmd == cmd;
  }

  lemma FragmentsAreNotNothing(line: seq<u8>, cmd: seq<u8>, parts: seq<seq<u8>>)
    requires Ends(line, cmd, parts)
    ensures line == cmd <==> parts == []
  {
    if parts == [] {
      assert [] + cmd == cmd;
    } else {
      assert parts[|parts| - 1] in parts;
      assert |Join(parts)| > 0;
    }
  }

  /** Such a line: the mismatching byte in front is pushed back by itself, and the rest is taken for a command. */
  lemma LongerLineIsTakenForACommand(cap: nat)
    ensures var line := [0x78] + READER;
            LF !in line && WithoutCr(line) == line != READER && Feed(After([], line, cap), LF, cap).1 == Command(false)
  {
    hide Feed, After, WithoutCr;
    var line := [0x78] + READER;
    NothingToDrop(line);
    assert [[0x78]][..0] == [] && Join([[0x78]]) == [] + [0x78] == [0x78];
    assert Ends(line, READER, [[0x78]]);
    CommandReportedExactlyWhen([], line, READER, cap);
    assert [] + line == line;
    assert READER[5] != WRITER[5];
  }

  lemma {:induction false} NothingToDrop(s: seq<u8>)
    requires CR !in s
    ensures WithoutCr(s) == s
  {
    if s != [] {
      NothingToDrop(s[..|s| - 1]);
    }
  }
}
