/** Reading an NDEF message from a tag a few bytes at a time, and when that gives what a scan of the whole area gives. */
module NdefScan {
  import opened Bytes
  import opened NdefTlv

  /** A raw byte search; it does not look at block boundaries. */
  predicate HasTerminator(raw: seq<u8>, start: nat) {
    start < |raw| && TERMINATOR in raw[start..]
  }

  /** The message found so far, the empty message when the area is taken for empty, or no verdict yet. */
  function Verdict(raw: seq<u8>, start: nat, total: nat): Option<seq<u8>> {
    if |raw| <= start then None
    else match Find(raw, start)
      case Hit(_, _, value, len) => Some(raw[value..value + len])
      case Stop(_, _) => if HasTerminator(raw, start) || |raw| >= total then Some([]) else None
      case Cut => None
  }

  /** One look at what has been read so far. */
  method ScanRaw(raw: seq<u8>, start: u16, total: u16) returns (v: Option<seq<u8>>)
    requires |raw| <= total
    ensures v == Verdict(raw, start, total)
  {
    if |raw| <= start {
      return None;
    }
    var status, tlv := FindMessageTlv(raw, start);
    if status.Found? {
      return Some(raw[tlv.value..tlv.value + tlv.len]);
    }
    if status.NotFound? && (HasTerminator(raw, start) || |raw| >= total) {
      return Some([]);
    }
    return None;
  }

  predicate Increasing(sizes: seq<nat>, limit: nat) {
    && (forall i, j :: 0 <= i < j < |sizes| ==> sizes[i] < sizes[j])
    && (forall i :: 0 <= i < |sizes| ==> sizes[i] <= limit)
  }

  /** The first verdict over growing prefixes of the area. */
  function FirstVerdict(area: seq<u8>, start: nat, sizes: seq<nat>): Option<seq<u8>>
    requires Increasing(sizes, |area|)
  {
    if sizes == [] then None
    else
      var v := Verdict(area[..sizes[0]], start, |area|);
      if v.Some? then v else FirstVerdict(area, start, sizes[1..])
  }

  function Whole(area: seq<u8>, start: nat): Option<seq<u8>> { Verdict(area, start, |area|) }

  /** A prefix that ends between two blocks, with the terminator's value among the bytes of the blocks it holds. */
  predicate Misleading(area: seq<u8>, start: nat, n: nat)
    requires n <= |area|
  {
    start < n < |area| && Find(area[..n], start) == Stop(n, false) && TERMINATOR in area[start..n]
  }

  /** A verdict on a prefix is the verdict on the area, unless the prefix misleads, and then it is "empty". */
  lemma VerdictOfPrefix(area: seq<u8>, start: nat, n: nat)
    requires n <= |area|
    ensures var v := Verdict(area[..n], start, |area|);
            && (Misleading(area, start, n) ==> v == Some([]))
            && (v.Some? && !Misleading(area, start, n) ==> v == Whole(area, start))
  {
    hide Find;
    if start < n {
      FindIsStable(area, n, start);
      SliceOfPrefix(area, n, start, n);
      var r := Find(area[..n], start);
      if r.Hit? {
        SliceOfPrefix(area, n, r.value, r.value + r.len);
      } else if r.Stop? && r.terminated {
        TerminatorIsIn(area, start, n);
      } else if n == |area| {
        assert area[..n] == area;
      }
    }
  }

  lemma TerminatorIsIn(area: seq<u8>, start: nat, n: nat)
    requires start < n <= |area| && Find(area[..n], start).Stop? && Find(area[..n], start).terminated
    ensures TERMINATOR in area[start..n]
  {
    hide Find;
    StopIsAtTerminator(area[..n], start);
    var i := Find(area[..n], start).at - 1;
    assert area[i] == TERMINATOR && area[start..n][i - start] == area[i];
  }

  lemma {:induction false} StopIsAtTerminator(d: seq<u8>, p: nat)
    requires p <= |d| && Find(d, p).Stop? && Find(d, p).terminated
    ensures p < Find(d, p).at <= |d| && d[Find(d, p).at - 1] == TERMINATOR
  {
    var blocks := FindIsSound(d, p);
  }

  /** Any non-empty message an incremental reader returns is the one in the whole area. */
  lemma {:induction false} MessageIsTheWholeAreas(area: seq<u8>, start: nat, sizes: seq<nat>)
    requires Increasing(sizes, |area|)
    ensures var v := FirstVerdict(area, start, sizes); v.Some? && v.value != [] ==> v == Whole(area, start)
  {
    if sizes != [] {
      VerdictOfPrefix(area, start, sizes[0]);
      MessageIsTheWholeAreas(area, start, sizes[1..]);
    }
  }

  /** Once a prefix has a verdict, no longer prefix misleads unless that one did. */
  lemma MisleadingComesFirst(area: seq<u8>, start: nat, n: nat, m: nat)
    requires n < m <= |area| && Misleading(area, start, m)
    requires Verdict(area[..n], start, |area|).Some?
    ensures Misleading(area, start, n)
  {
    var r := Find(area[..n], start);
    assert area[..m][..n] == area[..n];
    FindIsStable(area[..m], n, start);
    assert area[..n][start..] == area[start..n];
  }

  /** The scan of the whole area gives no verdict, or what it stops at ends within `n` bytes. */
  predicate Reached(area: seq<u8>, start: nat, n: nat) {
    start < |area| ==>
      match Find(area, start)
      case Hit(_, _, value, len) => value + len <= n
      case Stop(at, _) => at <= n
      case Cut => true
  }

  lemma VerdictExactlyWhenReached(area: seq<u8>, start: nat, n: nat)
    requires n <= |area| && !Misleading(area, start, n)
    ensures Verdict(area[..n], start, |area|).Some? || Whole(area, start).None? <==> Reached(area, start, n)
  {
    hide Find;
    if start < n {
      FindIsStable(area, n, start);
      assert area[..n][start..] == area[start..n];
      var r := Find(area[..n], start);
      if r.Stop? && r.terminated {
        TerminatorIsIn(area, start, n);
      } else if n == |area| {
        assert area[..n] == area;
      }
    } else if start < |area| {
      FindIsPastTheStart(area, start);
    }
  }

  lemma FindIsPastTheStart(d: seq<u8>, p: nat)
    requires p < |d|
    ensures var r := Find(d, p); (r.Hit? ==> p < r.value + r.len) && (r.Stop? ==> p < r.at)
  {
  }

  /**
    * What reading growing prefixes gives, the last of them perhaps shorter than the area: the empty message if one of them
    * misleads; else the verdict of the whole area if the last one reaches what the whole scan stops at; else nothing.
    */
  lemma {:induction false} FirstVerdictIs(area: seq<u8>, start: nat, sizes: seq<nat>)
    requires Increasing(sizes, |area|) && sizes != []
    ensures FirstVerdict(area, start, sizes)
            == if exists i :: 0 <= i < |sizes| && Misleading(area, start, sizes[i]) then Some([])
               else if Reached(area, start, sizes[|sizes| - 1]) then Whole(area, start)
               else None
  {
    hide Verdict, Misleading, Whole, Reached;
    var n := sizes[0];
    VerdictOfPrefix(area, start, n);
    if Misleading(area, start, n) {
    } else if Verdict(area[..n], start, |area|).Some? {
      forall i | 0 <= i < |sizes| ensures !Misleading(area, start, sizes[i]) {
        if i > 0 && Misleading(area, start, sizes[i]) {
          MisleadingComesFirst(area, start, n, sizes[i]);
        }
      }
      VerdictExactlyWhenReached(area, start, n);
      ReachedGrows(area, start, n, sizes[|sizes| - 1]);
    } else if |sizes| == 1 {
      VerdictExactlyWhenReached(area, start, n);
      assert FirstVerdict(area, start, sizes[1..]) == None;
    } else {
      VerdictExactlyWhenReached(area, start, n);
      FirstVerdictIs(area, start, sizes[1..]);
      forall i | 0 <= i < |sizes| && Misleading(area, start, sizes[i])
        ensures exists j :: 0 <= j < |sizes| - 1 && Misleading(area, start, sizes[1..][j])
      {
        assert sizes[1..][i - 1] == sizes[i];
      }
    }
  }

  /**
    * So it is the verdict of the whole area exactly when no prefix that was looked at misleads and the last one reaches
    * what the whole scan stops at; or when one misleads and the message is empty anyway.
    */
  lemma IncrementalIsWholeExactly(area: seq<u8>, start: nat, sizes: seq<nat>)
    requires Increasing(sizes, |area|) && sizes != []
    ensures FirstVerdict(area, start, sizes) == Whole(area, start)
            <==> if exists i :: 0 <= i < |sizes| && Misleading(area, start, sizes[i]) then Whole(area, start) == Some([])
                 else Reached(area, start, sizes[|sizes| - 1])
  {
    hide FirstVerdict, Misleading, Find;
    FirstVerdictIs(area, start, sizes);
  }

  lemma ReachedGrows(area: seq<u8>, start: nat, n: nat, m: nat)
    requires n <= m && Reached(area, start, n)
    ensures Reached(area, start, m)
  {
  }

  /**
    * Reading to the end of the area gives the verdict of the whole area, exactly when no prefix that was looked at misleads
    * (or the area is empty anyway).
    */
  lemma IncrementalIsWholeExactlyUnlessMisled(area: seq<u8>, start: nat, sizes: seq<nat>)
    requires Increasing(sizes, |area|) && sizes != [] && sizes[|sizes| - 1] == |area|
    ensures FirstVerdict(area, start, sizes) == Whole(area, start)
            <==> Whole(area, start) == Some([]) || forall i :: 0 <= i < |sizes| ==> !Misleading(area, start, sizes[i])
  {
    hide FirstVerdict, Misleading, Whole, Find;
    FirstVerdictIs(area, start, sizes);
  }

  /** With no stray terminator value in front of the message, no chunking misleads. */
  lemma CleanAreaNeverMisleads(area: seq<u8>, start: nat, n: nat)
    requires start <= n <= |area| && Find(area, start).Hit?
    requires TERMINATOR !in area[start..Find(area, start).header]
    ensures !Misleading(area, start, n)
  {
    if Find(area[..n], start) == Stop(n, false) {
      StopIsBeforeTheMessage(area, n, start);
      var h := Find(area, start).header;
      assert area[start..h][..n - start] == area[start..n];
    }
  }

  lemma {:induction false} StopIsBeforeTheMessage(d: seq<u8>, n: nat, p: nat)
    requires p <= n <= |d| && Find(d, p).Hit? && Find(d[..n], p) == Stop(n, false)
    ensures n <= Find(d, p).header
    decreases n - p
  {
    hide Next;
    if p < n {
      if d[p] == NULL_TLV {
        FindPassesPadding(d, p);
        FindPassesPadding(d[..n], p);
        StopIsBeforeTheMessage(d, n, p + 1);
      } else {
        NextIsNoEnd(d[..n], p);
        NextIsStable(d, n, p);
        var r := Next(d[..n], p);
        StopIsBeforeTheMessage(d, n, r.value + r.len);
      }
    }
  }

  lemma FindPassesPadding(d: seq<u8>, p: nat)
    requires p < |d| && d[p] == NULL_TLV
    ensures Find(d, p) == Find(d, p + 1)
  {
    assert Next(d, p) == Next(d, p + 1);
    hide Next;
  }

  /** Where a byte stands that is no padding the area does not end without a terminator. */
  lemma NextIsNoEnd(d: seq<u8>, p: nat)
    requires p < |d| && d[p] != NULL_TLV
    ensures Next(d, p).Stop? ==> Next(d, p).terminated
  {
  }

  /** A lock-control block holding 0xFE, sixteen bytes into which a reader looks, hides the message behind it. */
  lemma StrayTerminatorHidesTheMessage()
    ensures var area := [0x01, 14, 0xFE] + Zeros(13) + [0x03, 1, 0xD0, 0xFE];
            && Whole(area, 0) == Some([0xD0])
            && FirstVerdict(area, 0, [16, 20]) == Some([])
  {
    var area := [0x01, 14, 0xFE] + Zeros(13) + [0x03, 1, 0xD0, 0xFE];
    assert area[16..] == [0x03, 1, 0xD0, 0xFE];
    assert Next(area, 0) == Hit(1, 0, 2, 14) && Next(area, 16) == Hit(3, 16, 18, 1);
    assert Find(area, 16) == Next(area, 16) && Find(area, 0) == Find(area, 16);
    assert area[18..19] == [0xD0];
    var d := area[..16];
    assert Next(d, 0) == Hit(1, 0, 2, 14) && Find(d, 16) == Stop(16, false) && Find(d, 0) == Find(d, 16);
    assert d[0..][2] == TERMINATOR;
  }

  /** An area that starts with a built message gives it up as soon as the last of its bytes is read, and nothing before. */
  lemma {:induction false} BuiltMessageIsRead(area: seq<u8>, start: nat, sizes: seq<nat>, ndef: Span)
    requires Increasing(sizes, |area|) && At(area, start, MessageTlv(ndef))
    ensures var v := FirstVerdict(area, start, sizes);
            if exists i :: 0 <= i < |sizes| && sizes[i] >= start + |MessageTlv(ndef)| - 1 then v == Some(ndef)
            else v == None
  {
    if sizes != [] {
      PrefixOfBuilt(area, start, sizes[0], |area|, ndef);
      BuiltMessageIsRead(area, start, sizes[1..], ndef);
      assert forall i :: 0 <= i < |sizes| - 1 ==> sizes[1..][i] == sizes[i + 1];
      if exists i :: 0 <= i < |sizes| && sizes[i] >= start + |MessageTlv(ndef)| - 1 {
        var i :| 0 <= i < |sizes| && sizes[i] >= start + |MessageTlv(ndef)| - 1;
        if i > 0 {
          assert sizes[1..][i - 1] >= start + |MessageTlv(ndef)| - 1;
        }
      }
    }
  }

  lemma PrefixOfBuilt(area: seq<u8>, start: nat, n: nat, total: nat, ndef: Span)
    requires n <= |area| && At(area, start, MessageTlv(ndef))
    ensures Verdict(area[..n], start, total) == if n >= start + |MessageTlv(ndef)| - 1 then Some(ndef) else None
  {
    hide Find, Next, At;
    var b := Tlv(MESSAGE, ndef, |ndef| >= 255);
    AtConcat(area, start, b.Code(), [TERMINATOR]);
    MessageIsFound(area, start, b);
    var r := Find(area, start);
    if start < n {
      FindIsStable(area, n, start);
      PrefixOfMessage(area, n, start);
      if Find(area[..n], start) == Stop(n, false) {
        StopIsBeforeTheMessage(area, n, start);
      } else if r.value + r.len <= n {
        SliceOfPrefix(area, n, r.value, r.value + r.len);
      }
    }
  }
}
