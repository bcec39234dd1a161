/** The loop that drains the pushback ring through the mode scanner. */
module ModeSwitch {
  import opened Bytes
  import opened ModeScan
  import opened SerialRing

  const PUSHBACK_BYTES := 36

  /** How the loop ended: the ring was drained, or a block stopped it in writer mode. */
  datatype Outcome = Drained | Stopped(block: seq<u8>)

  /** The mode after the commands among `events`. */
  function ModeAfter(writer: bool, events: seq<Event>): bool {
    if events == [] then writer
    else
      var e := events[|events| - 1];
      if e.Command? then e.writer else ModeAfter(writer, events[..|events| - 1])
  }

  lemma NothingRead(b0: seq<u8>, writer: bool)
    requires Held(b0)
    ensures After(b0, [], PUSHBACK_BYTES) == b0 && Events(b0, [], PUSHBACK_BYTES) == [] && ModeAfter(writer, []) == writer
  {
  }

  /** One more byte read: what it adds. */
  lemma OneMoreByte(b0: seq<u8>, read: seq<u8>, ch: u8, writer: bool)
    requires Held(b0)
    ensures var (b, e) := Feed(After(b0, read, PUSHBACK_BYTES), ch, PUSHBACK_BYTES);
            var events := Events(b0, read, PUSHBACK_BYTES);
            && After(b0, read + [ch], PUSHBACK_BYTES) == b && Events(b0, read + [ch], PUSHBACK_BYTES) == events + [e]
            && ModeAfter(writer, events + [e]) == if e.Command? then e.writer else ModeAfter(writer, events)
  {
    hide Feed, Held;
    var longer, events := read + [ch], Events(b0, read, PUSHBACK_BYTES);
    assert longer[..|longer| - 1] == read;
    var e := Feed(After(b0, read, PUSHBACK_BYTES), ch, PUSHBACK_BYTES).1;
    assert (events + [e])[..|events|] == events;
  }

  /** The `n`th byte read makes the scanner hand back a block in writer mode. */
  predicate StopsAt(b0: seq<u8>, read: seq<u8>, n: nat, writer: bool)
    requires Held(b0) && n <= |read|
  {
    var events := Events(b0, read[..n], PUSHBACK_BYTES);
    events != [] && events[|events| - 1].Pushed? && ModeAfter(writer, events)
  }

  /** The mode is writer mode all along. */
  ghost predicate StaysWriter(b0: seq<u8>, read: seq<u8>, writer: bool)
    requires Held(b0)
  {
    forall n: nat :: n <= |read| ==> ModeAfter(writer, Events(b0, read[..n], PUSHBACK_BYTES))
  }

  /** The commands among events. */
  function Commands(events: seq<Event>): seq<Event> {
    if events == [] then []
    else
      var e := events[|events| - 1];
      Commands(events[..|events| - 1]) + if e.Command? then [e] else []
  }

  /** As long as no block has been handed back, all that has left the scanner is commands. */
  lemma {:induction false} OnlyCommands(b0: seq<u8>, read: seq<u8>, writer: bool)
    requires Held(b0) && StaysWriter(b0, read, writer)
    requires forall n: nat :: n <= |read| ==> !StopsAt(b0, read, n, writer)
    ensures Flatten(Events(b0, read, PUSHBACK_BYTES)) == Flatten(Commands(Events(b0, read, PUSHBACK_BYTES)))
    decreases |read|
  {
    hide Feed, Held, After, ModeAfter, Flatten, Commands;
    NoCommands();
    if read != [] {
      var k := |read| - 1;
      var before, ch := read[..k], read[k];
      assert before + [ch] == read && read[..|read|] == read;
      forall n: nat | n <= k
        ensures !StopsAt(b0, before, n, writer) && ModeAfter(writer, Events(b0, before[..n], PUSHBACK_BYTES))
      {
        assert before[..n] == read[..n];
        assert !StopsAt(b0, read, n, writer);
      }
      OnlyCommands(b0, before, writer);
      assert !StopsAt(b0, read, |read|, writer);
      var events, e := Events(b0, before, PUSHBACK_BYTES), Feed(After(b0, before, PUSHBACK_BYTES), ch, PUSHBACK_BYTES).1;
      assert Events(b0, read, PUSHBACK_BYTES) == events + [e];
      assert (events + [e])[|events + [e]| - 1] == e;
      OneMoreCommand(events, e);
      OneMoreEvent(events, e);
    }
  }

  lemma NoCommands()
    ensures Flatten([]) == [] && Commands([]) == []
  {
  }

  lemma OneMoreCommand(events: seq<Event>, e: Event)
    ensures Commands(events + [e]) == Commands(events) + if e.Command? then [e] else []
    ensures !e.Pushed? ==>
              Flatten(Commands(events + [e])) == Flatten(Commands(events)) + e.Bytes()
  {
    assert (events + [e])[..|events|] == events;
    if e.Command? {
      OneMoreEvent(Commands(events), e);
    } else {
      assert Commands(events) + [] == Commands(events);
    }
  }

  /** The block that the last event hands back, if it does. */
  function HandedBack(events: seq<Event>): seq<u8> {
    if events != [] && events[|events| - 1].Pushed? then events[|events| - 1].block else []
  }

  /**
    * In writer mode, when all fits the ring, nothing is lost: the commands carried out, then what the scanner holds, then what
    * it has handed back last are what was held and read, without the carriage returns.
    */
  lemma NothingIsLostInWriterMode(b0: seq<u8>, read: seq<u8>, left: seq<u8>, writer: bool, cap: nat)
    requires Held(b0) && StaysWriter(b0, read, writer) && |b0| + |read| + |left| < cap
    requires forall n: nat :: n < |read| ==> !StopsAt(b0, read, n, writer)
    ensures var events, held := Events(b0, read, PUSHBACK_BYTES), After(b0, read, PUSHBACK_BYTES);
            && |HandedBack(events)| + |left| < cap
            && Flatten(Commands(events)) + held + HandedBack(events) == b0 + WithoutCr(read)
  {
    hide Feed, Held, After, ModeAfter, Flatten, Commands, Events, StopsAt, WithoutCr;
    var events, held := Events(b0, read, PUSHBACK_BYTES), After(b0, read, PUSHBACK_BYTES);
    ScannerConserves(b0, read, PUSHBACK_BYTES);
    EmptyBetween(Flatten(Commands(events)), held, HandedBack(events));
    if StopsAt(b0, read, |read|, writer) {
      StopHandsBack(b0, read, writer);
      assert (read + left)[..|read|] == read && (read + left)[|read|..] == left;
      NothingIsLostWhereItFits(b0, read + left, |read|, cap);
    } else {
      OnlyCommands(b0, read, writer);
      NoStopNoBlock(b0, read, writer);
    }
  }

  lemma EmptyBetween(a: seq<u8>, held: seq<u8>, b: seq<u8>)
    ensures held == [] ==> a + held + b == a + b + held
    ensures b == [] ==> a + held + b == a + held
  {
  }

  lemma NoStopNoBlock(b0: seq<u8>, read: seq<u8>, writer: bool)
    requires Held(b0) && StaysWriter(b0, read, writer) && !StopsAt(b0, read, |read|, writer)
    ensures HandedBack(Events(b0, read, PUSHBACK_BYTES)) == []
  {
    hide Feed, Held, After, ModeAfter, Events;
    assert read[..|read|] == read;
    assert ModeAfter(writer, Events(b0, read[..|read|], PUSHBACK_BYTES));
  }

  /** Where the scan stops, all that has left the scanner is commands and the block. */
  lemma StopHandsBack(b0: seq<u8>, read: seq<u8>, writer: bool)
    requires Held(b0) && StaysWriter(b0, read, writer) && StopsAt(b0, read, |read|, writer)
    requires forall n: nat :: n < |read| ==> !StopsAt(b0, read, n, writer)
    ensures var events := Events(b0, read, PUSHBACK_BYTES);
            && events != [] && events[|events| - 1].Pushed? && After(b0, read, PUSHBACK_BYTES) == []
            && Flatten(events) == Flatten(Commands(events)) + HandedBack(events)
  {
    hide Feed, Held, After, Events, ModeAfter, Flatten, Commands;
    assert read[..|read|] == read;
    NothingRead(b0, writer);
    var k := |read| - 1;
    var before, ch := read[..k], read[k];
    assert before + [ch] == read;
    forall n: nat | n <= k
      ensures !StopsAt(b0, before, n, writer) && ModeAfter(writer, Events(b0, before[..n], PUSHBACK_BYTES))
    {
      assert before[..n] == read[..n];
      assert !StopsAt(b0, read, n, writer);
    }
    OnlyCommands(b0, before, writer);
    var earlier, e := Events(b0, before, PUSHBACK_BYTES), Feed(After(b0, before, PUSHBACK_BYTES), ch, PUSHBACK_BYTES).1;
    OneMoreByte(b0, before, ch, writer);
    OneMoreCommand(earlier, e);
    OneMoreEvent(earlier, e);
    AHandedBackBlockEmpties(After(b0, before, PUSHBACK_BYTES), ch);
    assert Commands(earlier) + [] == Commands(earlier);
  }

  lemma AHandedBackBlockEmpties(b: seq<u8>, ch: u8)
    requires Held(b)
    ensures Feed(b, ch, PUSHBACK_BYTES).1.Pushed? ==> Feed(b, ch, PUSHBACK_BYTES).0 == []
  {
  }

  /** Whether an earlier byte has stopped the scan does not depend on the next one. */
  lemma StopsAsBefore(b0: seq<u8>, read: seq<u8>, ch: u8, writer: bool)
    requires Held(b0)
    ensures forall n: nat :: n <= |read| ==> StopsAt(b0, read + [ch], n, writer) == StopsAt(b0, read, n, writer)
    ensures StopsAt(b0, read + [ch], |read| + 1, writer)
            <==> Feed(After(b0, read, PUSHBACK_BYTES), ch, PUSHBACK_BYTES).1.Pushed?
                 && ModeAfter(writer, Events(b0, read + [ch], PUSHBACK_BYTES))
  {
    hide Feed, Held, After, ModeAfter, Events;
    OneMoreByte(b0, read, ch, writer);
    assert (read + [ch])[..|read| + 1] == read + [ch];
    forall n: nat | n <= |read| ensures StopsAt(b0, read + [ch], n, writer) == StopsAt(b0, read, n, writer) {
      assert (read + [ch])[..n] == read[..n];
    }
  }

  lemma NeverStopped(b0: seq<u8>, writer: bool)
    requires Held(b0)
    ensures !StopsAt(b0, [], 0, writer)
  {
    NothingRead(b0, writer);
    var nothing: seq<u8> := [];
    assert nothing[..0] == nothing;
  }

  /**
    * In writer mode, when all fits the ring: the commands carried out, then what the scanner holds, then what is queued are
    * what was held and queued, without the carriage returns read.
    */
  ghost predicate NothingIsLost(b0: seq<u8>, read: seq<u8>, left: seq<u8>, writer: bool, cap: nat,
                                held: seq<u8>, queued: seq<u8>)
    requires Held(b0)
  {
    |b0| + |read| + |left| < cap && StaysWriter(b0, read, writer) ==>
      Flatten(Commands(Events(b0, read, PUSHBACK_BYTES))) + held + queued == b0 + WithoutCr(read) + left
  }

  /**
    * Scans what the ring holds. In writer mode a block that is no command goes back in front of what is left and ends the
    * scan; in reader mode it is discarded.
    */
  method ScanModeSwitch(ring: Ring, scan: Scanner, writer: bool)
    returns (writerNow: bool, switched: bool, ghost read: seq<u8>, ghost outcome: Outcome)
    requires ring.Valid() && scan.Valid() && ring.bytes != scan.buf
    modifies ring, ring.bytes, scan, scan.buf
    ensures ring.Valid() && scan.Valid()
    ensures read <= old(ring.Contents())
    ensures var b0, left := old(scan.Buffered()), old(ring.Contents())[|read|..];
            var events := Events(b0, read, PUSHBACK_BYTES);
            && scan.Buffered() == After(b0, read, PUSHBACK_BYTES) && writerNow == ModeAfter(writer, events)
            && (switched <==> exists e :: e in events && e.Command?)
            && match outcome
               case Drained => left == [] && ring.Contents() == []
               case Stopped(block) =>
                 && writerNow && events != [] && events[|events| - 1] == Pushed(block)
                 && ring.Contents() == if |block| + |left| < ring.bytes.Length then block + left else left
    ensures forall n: nat :: n <= |read| && StopsAt(old(scan.Buffered()), read, n, writer) ==> n == |read| && outcome.Stopped?
    ensures NothingIsLost(old(scan.Buffered()), read, old(ring.Contents())[|read|..], writer, ring.bytes.Length,
                          scan.Buffered(), ring.Contents())
  {
    hide Feed, Held, After, Events, ModeAfter, Ring.Contents, Ring.Count, Ring.Free, Ring.Valid, Scanner.Valid,
      Scanner.Buffered, StopsAt, NothingIsLost, Scanned, NotStopped, HandedBack, Split;
    writerNow, switched, read, outcome := writer, false, [], Drained;
    ghost var b0, all := scan.Buffered(), ring.Contents();
    NothingScanned(b0, writer);
    NothingSplit(all);
    var pushback := new u8[PUSHBACK_BYTES];
    while ring.Count() > 0
      invariant ring.Valid() && scan.Valid() && Split(all, read, ring.Contents())
      invariant Scanned(b0, read, writer, writerNow, switched) && NotStopped(b0, read, writer)
      invariant scan.Buffered() == After(b0, read, PUSHBACK_BYTES)
      decreases ring.Count()
    {
      var byte := ring.PushbackRead();
      var event, stop, mode, n := scan.FeedByte(byte.value, pushback);
      OneMoreScanned(b0, read, byte.value, writer, writerNow, switched);
      OneMoreSplit(all, read, byte.value, ring.Contents());
      read := read + [byte.value];
      if mode.Some? {
        if mode.value != writerNow {
          scan.Reset();
        }
        writerNow, switched := mode.value, true;
      } else if stop && writerNow {
        ring.PushbackReturn(pushback[..n]);
        outcome := Stopped(event.block);
        Splits(all, read);
        ScanStopped(b0, read, all[|read|..], writer, switched, ring.bytes.Length, ring.Contents());
        return;
      }
    }
    Splits(all, read);
    ScanEnds(b0, read, writer, writerNow, switched, ring.bytes.Length);
  }

  /** What the loop knows of the bytes read so far. */
  ghost predicate Scanned(b0: seq<u8>, read: seq<u8>, writer: bool, writerNow: bool, switched: bool)
    requires Held(b0)
  {
    var events := Events(b0, read, PUSHBACK_BYTES);
    writerNow == ModeAfter(writer, events) && (switched <==> exists e :: e in events && e.Command?)
  }

  predicate Split(all: seq<u8>, read: seq<u8>, left: seq<u8>) { read <= all && all[|read|..] == left }

  lemma NothingSplit(all: seq<u8>)
    ensures Split(all, [], all)
  {
  }

  lemma OneMoreSplit(all: seq<u8>, read: seq<u8>, ch: u8, left: seq<u8>)
    requires Split(all, read, [ch] + left)
    ensures Split(all, read + [ch], left)
  {
    assert all == read + ([ch] + left) == read + [ch] + left;
  }

  lemma Splits(all: seq<u8>, read: seq<u8>)
    ensures forall left :: Split(all, read, left) ==> |read| <= |all| && read <= all && all[|read|..] == left
  {
  }

  ghost predicate NotStopped(b0: seq<u8>, read: seq<u8>, writer: bool)
    requires Held(b0)
  {
    forall n: nat :: n <= |read| ==> !StopsAt(b0, read, n, writer)
  }

  lemma NothingScanned(b0: seq<u8>, writer: bool)
    requires Held(b0)
    ensures Scanned(b0, [], writer, writer, false) && NotStopped(b0, [], writer) && After(b0, [], PUSHBACK_BYTES) == b0
  {
    hide After, Events, Held, ModeAfter, StopsAt;
    NothingRead(b0, writer);
    NeverStopped(b0, writer);
  }

  lemma OneMoreScanned(b0: seq<u8>, read: seq<u8>, ch: u8, writer: bool, writerNow: bool, switched: bool)
    requires Held(b0) && NotStopped(b0, read, writer)
    requires Scanned(b0, read, writer, writerNow, switched)
    ensures var (b, e) := Feed(After(b0, read, PUSHBACK_BYTES), ch, PUSHBACK_BYTES);
            && After(b0, read + [ch], PUSHBACK_BYTES) == b
            && Scanned(b0, read + [ch], writer, if e.Command? then e.writer else writerNow, switched || e.Command?)
            && (e.Command? ==> b == [])
            && if e.Pushed? && writerNow then
                 HandsBack(b0, read + [ch], writer) && HandedBack(Events(b0, read + [ch], PUSHBACK_BYTES)) == e.block
               else NotStopped(b0, read + [ch], writer)
  {
    hide After, Events, Held, ModeAfter, Feed, StopsAt;
    OneMoreByte(b0, read, ch, writer);
    StopsAsBefore(b0, read, ch, writer);
    NothingHeldBehindACommand(After(b0, read, PUSHBACK_BYTES), ch);
  }

  /** The last byte read stops the scan, and none before. */
  ghost predicate HandsBack(b0: seq<u8>, read: seq<u8>, writer: bool)
    requires Held(b0)
  {
    StopsAt(b0, read, |read|, writer) && forall n: nat :: n < |read| ==> !StopsAt(b0, read, n, writer)
  }

  lemma ScanStopped(b0: seq<u8>, read: seq<u8>, left: seq<u8>, writer: bool, switched: bool, cap: nat, queued: seq<u8>)
    requires Held(b0) && HandsBack(b0, read, writer)
    requires Scanned(b0, read, writer, true, switched)
    requires var back := HandedBack(Events(b0, read, PUSHBACK_BYTES));
             queued == if |back| + |left| < cap then back + left else left
    ensures var events := Events(b0, read, PUSHBACK_BYTES);
            && events != [] && events[|events| - 1] == Pushed(HandedBack(events)) && ModeAfter(writer, events)
            && (switched <==> exists e :: e in events && e.Command?)
    ensures forall n: nat :: n <= |read| && StopsAt(b0, read, n, writer) ==> n == |read|
    ensures NothingIsLost(b0, read, left, writer, cap, After(b0, read, PUSHBACK_BYTES), queued)
  {
    hide After, Events, Held, ModeAfter, Feed, NothingIsLost;
    assert read[..|read|] == read;
    NothingIsQueuedWrong(b0, read, left, writer, cap, queued);
  }

  lemma ScanEnds(b0: seq<u8>, read: seq<u8>, writer: bool, writerNow: bool, switched: bool, cap: nat)
    requires Held(b0) && NotStopped(b0, read, writer)
    requires Scanned(b0, read, writer, writerNow, switched)
    ensures writerNow == ModeAfter(writer, Events(b0, read, PUSHBACK_BYTES))
    ensures switched <==> exists e :: e in Events(b0, read, PUSHBACK_BYTES) && e.Command?
    ensures forall n: nat :: n <= |read| ==> !StopsAt(b0, read, n, writer)
    ensures NothingIsLost(b0, read, [], writer, cap, After(b0, read, PUSHBACK_BYTES), [])
  {
    hide After, Events, Held, ModeAfter, Feed, NothingIsLost, StopsAt;
    NothingIsQueuedWrong(b0, read, [], writer, cap, []);
  }

  /** What the ring holds after a scan in writer mode, and so that nothing is lost. */
  lemma NothingIsQueuedWrong(b0: seq<u8>, read: seq<u8>, left: seq<u8>, writer: bool, cap: nat, queued: seq<u8>)
    requires Held(b0) && forall n: nat :: n < |read| ==> !StopsAt(b0, read, n, writer)
    requires var events := Events(b0, read, PUSHBACK_BYTES);
             if StopsAt(b0, read, |read|, writer) then
               var back := HandedBack(events); queued == if |back| + |left| < cap then back + left else left
             else left == [] && queued == []
    ensures NothingIsLost(b0, read, left, writer, cap, After(b0, read, PUSHBACK_BYTES), queued)
  {
    hide Feed, Held, After, ModeAfter, Flatten, Commands, Events, WithoutCr, StopsAt;
    var events, held := Events(b0, read, PUSHBACK_BYTES), After(b0, read, PUSHBACK_BYTES);
    if |b0| + |read| + |left| < cap && StaysWriter(b0, read, writer) {
      NothingIsLostInWriterMode(b0, read, left, writer, cap);
      if !StopsAt(b0, read, |read|, writer) {
        NoStopNoBlock(b0, read, writer);
      }
      Rejoin(Flatten(Commands(events)) + held, HandedBack(events), left);
    }
  }

  lemma Rejoin(a: seq<u8>, b: seq<u8>, c: seq<u8>)
    ensures a + b + c == a + (b + c) && a + [] == a
  {
  }

  lemma NothingHeldBehindACommand(b: seq<u8>, ch: u8)
    requires Held(b)
    ensures Feed(b, ch, PUSHBACK_BYTES).1.Command? ==> Feed(b, ch, PUSHBACK_BYTES).0 == []
  {
  }

  /** What one scan may lose: nothing, if the bytes in the scanner and in the ring together fit the ring. */
  lemma NothingIsLostWhereItFits(b0: seq<u8>, all: seq<u8>, n: nat, cap: nat)
    requires Held(b0) && n <= |all| && |b0| + |all| < cap
    ensures var events := Events(b0, all[..n], PUSHBACK_BYTES);
            events != [] && events[|events| - 1].Pushed? ==> |events[|events| - 1].block| + |all[n..]| < cap
  {
    var read := all[..n];
    ScannerConserves(b0, read, PUSHBACK_BYTES);
    WithoutCrIsShorter(read);
    var events := Events(b0, read, PUSHBACK_BYTES);
    if events != [] {
      assert |Flatten(events)| >= |events[|events| - 1].Bytes()|;
    }
  }

  lemma {:induction false} WithoutCrIsShorter(s: seq<u8>)
    ensures |WithoutCr(s)| <= |s|
  {
    if s != [] {
      WithoutCrIsShorter(s[..|s| - 1]);
    }
  }

  /** The `n`th byte read makes the scanner hand back a block for which there is no room in front of what is left. */
  predicate Loses(b0: seq<u8>, all: seq<u8>, n: nat, cap: nat)
    requires Held(b0) && n <= |all|
  {
    var events := Events(b0, all[..n], PUSHBACK_BYTES);
    events != [] && events[|events| - 1].Pushed? && |events[|events| - 1].block| + |all[n..]| >= cap
  }

  /** A line that ends without being a command, with more held and queued than the ring holds, is lost at once. */
  lemma AFullRingLosesTheBlock(b0: seq<u8>, all: seq<u8>, cap: nat)
    requires Held(b0) && b0 != READER && b0 != WRITER
    requires all != [] && all[0] == LF && |b0| + |all| >= cap
    ensures Events(b0, all[..1], PUSHBACK_BYTES) == [Pushed(b0 + [LF])] && Loses(b0, all, 1, cap)
  {
    hide Held;
    var read := all[..1];
    assert read == [LF] && read[..0] == [];
    assert After(b0, read[..0], PUSHBACK_BYTES) == b0 && Events(b0, read[..0], PUSHBACK_BYTES) == [];
    PlainLineEnds(b0);
  }

  lemma PlainLineEnds(b0: seq<u8>)
    requires Held(b0) && b0 != READER && b0 != WRITER
    ensures Feed(b0, LF, PUSHBACK_BYTES) == ([], Pushed(b0 + [LF]))
  {
  }

  lemma SomethingHeld(n: nat) returns (b0: seq<u8>)
    requires n < CAP - 1
    ensures |b0| == n && Held(b0) && b0 != READER && b0 != WRITER
  {
    if n <= PREFIX_LEN {
      b0 := PREFIX[..n];
    } else {
      b0 := PREFIX + seq(n - PREFIX_LEN, _ => 0x78);
      assert b0[PREFIX_LEN] == 0x78 && READER[PREFIX_LEN] == 0x72 && WRITER[PREFIX_LEN] == 0x77;
      assert b0[..PREFIX_LEN] == PREFIX;
    }
  }

  ghost predicate CanLose(held: nat, queued: nat, cap: nat) {
    exists b0, all, n: nat :: |b0| == held && |all| == queued && Held(b0) && n <= |all| && Loses(b0, all, n, cap)
  }

  /** By sizes: a scan that finds `held` and `queued` bytes can lose a block exactly if they are too many. */
  lemma AScanCanLoseABlockExactlyWhen(held: nat, queued: nat, cap: nat)
    ensures CanLose(held, queued, cap) <==> held < 31 && 0 < queued && held + queued >= cap
  {
    hide Loses, Events;
    if b0, all, n: nat :| |b0| == held && |all| == queued && Held(b0) && n <= |all| && Loses(b0, all, n, cap) {
      LosingTakesTooMany(b0, all, n, cap);
    }
    if held < CAP - 1 && 0 < queued && held + queued >= cap {
      var b0 := SomethingHeld(held);
      var all := [LF] + Zeros(queued - 1);
      AFullRingLosesTheBlock(b0, all, cap);
      assert CanLose(held, queued, cap);
    }
  }

  lemma LosingTakesTooMany(b0: seq<u8>, all: seq<u8>, n: nat, cap: nat)
    requires Held(b0) && n <= |all| && Loses(b0, all, n, cap)
    ensures |b0| < CAP - 1 && 0 < |all| && |b0| + |all| >= cap
  {
    hide Events;
    NothingRead(b0, false);
    assert n > 0 by { assert all[..0] == []; }
    if |b0| + |all| < cap {
      NothingIsLostWhereItFits(b0, all, n, cap);
    }
  }
}
