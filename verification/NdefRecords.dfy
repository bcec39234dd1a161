/** NDEF messages: short records joined into a message, and the walk that takes a message apart. */
module NdefRecords {
  import opened Bytes

  const MB: u8 := 0x80
  const ME: u8 := 0x40
  const CF: u8 := 0x20
  const SR: u8 := 0x10
  const IL: u8 := 0x08
  const SHORT_MAX := 255
  const MAX_RECORDS := 64
  const MAX_TOTAL := 65536

  /** Whether a header byte has a one-bit flag. */
  predicate Has(header: u8, flag: u8)
    requires flag > 0
  {
    header / flag % 2 == 1
  }

  datatype Record = Record(tnf: u8, kind: seq<u8>, payload: seq<u8>) {
    predicate Short() { tnf < 8 && |kind| <= SHORT_MAX && |payload| <= SHORT_MAX }
  }

  // ---- Building ----

  /** Appends one record, marked as a message of its own; None when a field is too long for a short record. */
  function AppendShortRecord(out: seq<u8>, tnf: u8, kind: seq<u8>, payload: seq<u8>): (r: Option<seq<u8>>)
    ensures r.None? <==> |kind| > SHORT_MAX || |payload| > SHORT_MAX
  {
    if |kind| > SHORT_MAX || |payload| > SHORT_MAX then None
    else Some(out + [MB + ME + SR + tnf % 8, |kind|, |payload|] + kind + payload)
  }

  function Encoded(r: Record): (e: seq<u8>)
    requires r.Short()
    ensures |e| == 3 + |r.kind| + |r.payload|
  {
    AppendShortRecord([], r.tnf, r.kind, r.payload).value
  }

  /** A record with the message-begin and message-end flags set as its place in the message asks. */
  function Marked(record: seq<u8>, first: bool, last: bool): (m: seq<u8>)
    requires record != []
    ensures |m| == |record|
  {
    [record[0] % 0x40 + (if first then MB else 0) + (if last then ME else 0)] + record[1..]
  }

  function Joined(records: seq<seq<u8>>, first: bool): seq<u8>
    requires [] !in records
  {
    if records == [] then []
    else Marked(records[0], first, |records| == 1) + Joined(records[1..], false)
  }

  lemma NothingJoined()
    ensures Joined([], true) == [] && Joined([], false) == []
  {
  }

  lemma MarkedIs(record: seq<u8>, first: bool, last: bool)
    requires record != []
    ensures Marked(record, first, last)
            == [record[0] % 0x40 + (if first then MB else 0) + (if last then ME else 0)] + record[1..]
  {
  }

  lemma JoinedStep(records: seq<seq<u8>>, i: nat, first: bool)
    requires [] !in records && i < |records|
    ensures Joined(records[i..], first) == Marked(records[i], first, i + 1 == |records|) + Joined(records[i + 1..], false)
  {
    hide Marked;
    assert records[i..][1..] == records[i + 1..];
  }

  method BuildNdefMessage(records: seq<seq<u8>>) returns (out: seq<u8>)
    ensures out == if [] in records then [] else Joined(records, true)
  {
    hide Joined, Marked;
    out := [];
    var i := 0;
    assert records[0..] == records && records[|records|..] == [];
    NothingJoined();
    while i < |records|
      invariant 0 <= i <= |records| && [] !in records[..i]
      invariant [] !in records ==> out + Joined(records[i..], i == 0) == Joined(records, true)
    {
      if records[i] == [] {
        return [];
      }
      if [] !in records {
        JoinedStep(records, i, i == 0);
      }
      var record := records[i];
      var header: u8 := record[0] % 0x40;
      if i == 0 {
        header := header + MB;
      }
      if i + 1 == |records| {
        header := header + ME;
      }
      ghost var before := out;
      out := out + [header] + record[1..];
      MarkedIs(record, i == 0, i + 1 == |records|);
      assert out == before + Marked(record, i == 0, i + 1 == |records|);
      i := i + 1;
    }
  }

  // ---- Walking ----

  datatype Step =
    | Empty(next: nat)
    | Found(tnf: u8, typeAt: nat, typeLen: nat, payloadAt: nat, payloadLen: nat, next: nat, last: bool)
    | Unsupported
    | Truncated

  /** The record at `pos`; offsets are absolute. */
  function Next(msg: seq<u8>, pos: nat): (s: Step)
    requires |msg| <= 0xFFFF && pos <= |msg|
    ensures s.Empty? ==> s.next == pos + 1 <= |msg|
    ensures s.Found? ==> pos < s.typeAt && s.typeAt + s.typeLen <= s.payloadAt && s.payloadAt + s.payloadLen == s.next <= |msg|
  {
    if pos == |msg| then Truncated
    else
      var h := msg[pos];
      if h == 0 then Empty(pos + 1)
      else if Has(h, CF) then Unsupported
      else if |msg| - pos < 3 then Truncated
      else if !Has(h, SR) && |msg| - pos < 6 then Truncated
      else
        var typeLen: nat := msg[pos + 1];
        var payloadLen: nat :=
          if Has(h, SR) then msg[pos + 2] else Be32(msg[pos + 2], msg[pos + 3], msg[pos + 4], msg[pos + 5]);
        var fixed := if Has(h, SR) then pos + 3 else pos + 6;
        if Has(h, IL) && fixed >= |msg| then Truncated
        else
          var typeAt := if Has(h, IL) then fixed + 1 else fixed;
          var payloadAt := typeAt + typeLen + if Has(h, IL) then msg[fixed] as nat else 0;
          if payloadAt + payloadLen > |msg| then Truncated
          else Found(h % 8, typeAt, typeLen, payloadAt, payloadLen, payloadAt + payloadLen, Has(h, ME))
  }

  /** A record and where it stands. */
  datatype Located = Located(record: Record, at: nat, typeAt: nat, payloadAt: nat, next: nat)

  function LocatedRecord(msg: seq<u8>, pos: nat): Record
    requires |msg| <= 0xFFFF && pos <= |msg| && Next(msg, pos).Found?
  {
    var s := Next(msg, pos);
    Record(s.tnf, msg[s.typeAt..s.typeAt + s.typeLen], msg[s.payloadAt..s.next])
  }

  function Locate(msg: seq<u8>, pos: nat): Located
    requires |msg| <= 0xFFFF && pos <= |msg| && Next(msg, pos).Found?
  {
    var s := Next(msg, pos);
    Located(LocatedRecord(msg, pos), pos, s.typeAt, s.payloadAt, s.next)
  }

  /** The records from `pos` on, `count` records and `total` payload bytes having been taken before. */
  function Walk(msg: seq<u8>, pos: nat, count: nat, total: nat): seq<Located>
    requires |msg| <= 0xFFFF && pos <= |msg|
    decreases |msg| - pos
  {
    match Next(msg, pos)
    case Empty(next) => Walk(msg, next, count, total)
    case Found(_, _, _, _, payloadLen, next, last) =>
      if count >= MAX_RECORDS || total + payloadLen > MAX_TOTAL then []
      else [Locate(msg, pos)] + if last then [] else Walk(msg, next, count + 1, total + payloadLen)
    case _ => []
  }

  function Records(located: seq<Located>): (r: seq<Record>)
    ensures |r| == |located|
  {
    if located == [] then [] else [located[0].record] + Records(located[1..])
  }

  function Parse(msg: seq<u8>): seq<Record> {
    if |msg| > 0xFFFF then [] else Records(Walk(msg, 0, 0, 0))
  }

  method ParseNdefRecords(msg: seq<u8>) returns (records: seq<Record>)
    ensures records == Parse(msg)
  {
    records := [];
    if |msg| > MAX_TOTAL || |msg| > 0xFFFF {
      return;
    }
    records := ParseShort(msg);
  }

  method ParseShort(msg: seq<u8>) returns (records: seq<Record>)
    requires |msg| <= 0xFFFF
    ensures records == Records(Walk(msg, 0, 0, 0))
  {
    hide Next, LocatedRecord, Records, Walk;
    NothingAtTheEnd(msg);
    ghost var all := Records(Walk(msg, 0, 0, 0));
    records := [];
    var total: nat := 0;
    var pos: u16 := 0;
    while pos < |msg|
      invariant pos <= |msg|
      invariant all == records + Records(Walk(msg, pos, |records|, total))
      decreases |msg| - pos
    {
      var step := Next(msg, pos);
      if step.Empty? {
        WalkSkips(msg, pos, |records|, total);
        pos := step.next;
        continue;
      }
      if !step.Found? || |records| >= MAX_RECORDS || total + step.payloadLen > MAX_TOTAL {
        WalkStops(msg, pos, |records|, total);
        return;
      }
      TakeOne(msg, pos, records, total);
      records := records + [LocatedRecord(msg, pos)];
      total := total + step.payloadLen;
      pos := step.next;
      if step.last {
        return;
      }
    }
    WalkStops(msg, pos, |records|, total);
  }

  lemma NothingAtTheEnd(msg: seq<u8>)
    requires |msg| <= 0xFFFF
    ensures Next(msg, |msg|) == Truncated
  {
  }

  lemma WalkSkips(msg: seq<u8>, pos: nat, count: nat, total: nat)
    requires |msg| <= 0xFFFF && pos <= |msg| && Next(msg, pos).Empty?
    ensures Walk(msg, pos, count, total) == Walk(msg, Next(msg, pos).next, count, total)
  {
    hide Next;
  }

  lemma WalkStops(msg: seq<u8>, pos: nat, count: nat, total: nat)
    requires |msg| <= 0xFFFF && pos <= |msg| && !Next(msg, pos).Empty?
    requires Next(msg, pos).Found? ==> count >= MAX_RECORDS || total + Next(msg, pos).payloadLen > MAX_TOTAL
    ensures Walk(msg, pos, count, total) == []
  {
    hide Next;
  }

  lemma RecordsSplit(msg: seq<u8>, pos: nat, count: nat, total: nat)
    requires |msg| <= 0xFFFF && pos <= |msg| && Next(msg, pos).Found?
    requires count < MAX_RECORDS && total + Next(msg, pos).payloadLen <= MAX_TOTAL
    ensures var s := Next(msg, pos);
            Records(Walk(msg, pos, count, total))
            == [LocatedRecord(msg, pos)]
               + if s.last then [] else Records(Walk(msg, s.next, count + 1, total + s.payloadLen))
  {
    hide Next, LocatedRecord;
  }

  lemma TakeOne(msg: seq<u8>, pos: nat, before: seq<Record>, total: nat)
    requires |msg| <= 0xFFFF && pos <= |msg| && Next(msg, pos).Found?
    requires |before| < MAX_RECORDS && total + Next(msg, pos).payloadLen <= MAX_TOTAL
    ensures var s := Next(msg, pos);
            before + Records(Walk(msg, pos, |before|, total))
            == if s.last then before + [LocatedRecord(msg, pos)]
               else before + [LocatedRecord(msg, pos)] + Records(Walk(msg, s.next, |before| + 1, total + s.payloadLen))
  {
    hide Next, LocatedRecord, Records, Walk;
    RecordsSplit(msg, pos, |before|, total);
  }

  // ---- Records lie in the message, in order ----

  /** A record's fields lie in this order inside the message, not before `from`, and hold what was reported. */
  predicate Inside(msg: seq<u8>, from: nat, l: Located) {
    && from <= l.at < l.typeAt && l.typeAt + |l.record.kind| <= l.payloadAt <= l.next <= |msg|
    && l.record.kind == msg[l.typeAt..l.typeAt + |l.record.kind|]
    && l.record.payload == msg[l.payloadAt..l.next]
  }

  /** Each record lies behind the one before it. */
  predicate InOrder(msg: seq<u8>, from: nat, located: seq<Located>)
    decreases located
  {
    located == [] || (Inside(msg, from, located[0]) && InOrder(msg, located[0].next, located[1..]))
  }

  /** For any bytes: the records found are ordered, disjoint and inside the message, and no more than allowed. */
  lemma {:induction false} WalkIsInOrder(msg: seq<u8>, pos: nat, count: nat, total: nat)
    requires |msg| <= 0xFFFF && pos <= |msg|
    ensures InOrder(msg, pos, Walk(msg, pos, count, total))
    ensures count <= MAX_RECORDS ==> count + |Walk(msg, pos, count, total)| <= MAX_RECORDS
    decreases |msg| - pos
  {
    hide Next, InOrder, Locate;
    var s := Next(msg, pos);
    NothingIsInOrder(msg, pos);
    if s.Empty? {
      WalkIsInOrder(msg, s.next, count, total);
      OrderFromBefore(msg, pos, s.next, Walk(msg, s.next, count, total));
    } else if s.Found? && count < MAX_RECORDS && total + s.payloadLen <= MAX_TOTAL {
      NothingIsInOrder(msg, s.next);
      if !s.last {
        WalkIsInOrder(msg, s.next, count + 1, total + s.payloadLen);
      }
      OneMoreFound(msg, pos, if s.last then [] else Walk(msg, s.next, count + 1, total + s.payloadLen));
    }
  }

  lemma NothingIsInOrder(msg: seq<u8>, pos: nat)
    ensures InOrder(msg, pos, [])
  {
  }

  lemma OrderFromBefore(msg: seq<u8>, pos: nat, from: nat, located: seq<Located>)
    requires pos <= from && InOrder(msg, from, located)
    ensures InOrder(msg, pos, located)
  {
  }

  lemma OneMoreFound(msg: seq<u8>, pos: nat, rest: seq<Located>)
    requires |msg| <= 0xFFFF && pos <= |msg| && Next(msg, pos).Found? && InOrder(msg, Next(msg, pos).next, rest)
    ensures InOrder(msg, pos, [Locate(msg, pos)] + rest)
  {
    hide Next;
    assert ([Locate(msg, pos)] + rest)[1..] == rest;
  }

  // ---- Parse undoes build ----

  ghost predicate AllShort(rs: seq<Record>) { forall r :: r in rs ==> r.Short() }

  function Encodings(rs: seq<Record>): (e: seq<seq<u8>>)
    requires AllShort(rs)
    ensures |e| == |rs| && [] !in e
  {
    if rs == [] then [] else [Encoded(rs[0])] + Encodings(rs[1..])
  }

  lemma FlagsOfHeader(tnf: u8, first: bool, last: bool)
    requires tnf < 8
    ensures var h: u8 := (MB + ME + SR + tnf % 8) % 0x40 + (if first then MB else 0) + (if last then ME else 0);
            h != 0 && !Has(h, CF) && Has(h, SR) && !Has(h, IL) && h % 8 == tnf && (Has(h, ME) <==> last)
  {
    hide Has;
    assert tnf % 8 == tnf && (MB + ME + SR + tnf) % 0x40 == 0x10 + tnf;
    HeaderBits(tnf, if first then 2 else 0, if last then 1 else 0);
  }

  lemma HeaderBits(tnf: u8, first: nat, last: nat)
    requires tnf < 8 && (first == 0 || first == 2) && (last == 0 || last == 1)
    ensures var h: u8 := 0x10 + tnf + 0x40 * (first + last);
            h != 0 && !Has(h, CF) && Has(h, SR) && !Has(h, IL) && h % 8 == tnf && (Has(h, ME) <==> last == 1)
  {
    var h, k := 0x10 + tnf + 0x40 * (first + last), first + last;
    assert h / 0x40 == k && h / 0x20 == 2 * k && h / 0x10 == 4 * k + 1 && h / 0x08 == 8 * k + 2 && h % 8 == tnf;
  }

  /** What the walk makes of the header of a short record without ID. */
  lemma ShortHeaderIsFound(msg: seq<u8>, pos: nat, kindLen: nat, payloadLen: nat)
    requires |msg| <= 0xFFFF && pos + 3 + kindLen + payloadLen <= |msg|
    requires msg[pos] != 0 && !Has(msg[pos], CF) && Has(msg[pos], SR) && !Has(msg[pos], IL)
    requires msg[pos + 1] == kindLen && msg[pos + 2] == payloadLen
    ensures var at := pos + 3;
            Next(msg, pos)
            == Found(msg[pos] % 8, at, kindLen, at + kindLen, payloadLen, at + kindLen + payloadLen, Has(msg[pos], ME))
  {
    hide Has;
  }

  lemma MarkedBytes(r: Record, first: bool, last: bool)
    requires r.Short()
    ensures var h := (MB + ME + SR + r.tnf % 8) % 0x40 + (if first then MB else 0) + (if last then ME else 0);
            Marked(Encoded(r), first, last) == [h, |r.kind|, |r.payload|] + r.kind + r.payload
  {
    var h := MB + ME + SR + r.tnf % 8;
    assert Encoded(r) == [h, |r.kind|, |r.payload|] + r.kind + r.payload;
  }

  lemma ThreeBytes(msg: seq<u8>, pos: nat, a: u8, b: u8, c: u8)
    requires At(msg, pos, [a, b, c])
    ensures pos + 3 <= |msg| && msg[pos] == a && msg[pos + 1] == b && msg[pos + 2] == c
  {
    var w := msg[pos..pos + 3];
    assert w[0] == a && w[1] == b && w[2] == c;
  }

  /** A marked short record is found for what it is, wherever it stands. */
  lemma MarkedIsFound(msg: seq<u8>, pos: nat, r: Record, first: bool, last: bool)
    requires |msg| <= 0xFFFF && r.Short() && At(msg, pos, Marked(Encoded(r), first, last))
    ensures pos <= |msg|
    ensures var s := Next(msg, pos);
            && s.Found? && s.last == last && s.next == pos + |Encoded(r)| && s.payloadLen == |r.payload|
            && LocatedRecord(msg, pos) == r
  {
    hide Next, Has, Marked, Encoded, At;
    var h: u8 := (MB + ME + SR + r.tnf % 8) % 0x40 + (if first then MB else 0) + (if last then ME else 0);
    FlagsOfHeader(r.tnf, first, last);
    MarkedBytes(r, first, last);
    var head := [h, |r.kind|, |r.payload|];
    AtConcat(msg, pos, head + r.kind, r.payload);
    AtConcat(msg, pos, head, r.kind);
    ThreeBytes(msg, pos, h, |r.kind|, |r.payload|);
    AtFits(msg, pos + 3, r.kind);
    AtFits(msg, pos + 3 + |r.kind|, r.payload);
    ShortHeaderIsFound(msg, pos, |r.kind|, |r.payload|);
  }

  /** The walk takes the joined records one by one until it has its 64. */
  lemma {:induction false} WalkOfJoined(msg: seq<u8>, pos: nat, rs: seq<Record>, first: bool, count: nat, total: nat)
    requires |msg| <= 0xFFFF && AllShort(rs)
    requires At(msg, pos, Joined(Encodings(rs), first)) && pos + |Joined(Encodings(rs), first)| == |msg|
    requires count <= MAX_RECORDS && total <= count * SHORT_MAX
    ensures Records(Walk(msg, pos, count, total)) == rs[..Min(64 - count, |rs|)]
    decreases |rs|
  {
    hide Next, At, Marked, Encoded, LocatedRecord, Records, Walk;
    if rs == [] {
      NothingAtTheEnd(msg);
      WalkStops(msg, pos, count, total);
      NoRecords();
    } else {
      var r, rest := rs[0], Encodings(rs)[1..];
      assert r in rs;
      assert rest == Encodings(rs[1..]);
      var m := Marked(Encoded(r), first, |rs| == 1);
      AtConcat(msg, pos, m, Joined(rest, false));
      MarkedIsFound(msg, pos, r, first, |rs| == 1);
      if count == MAX_RECORDS {
        WalkStops(msg, pos, count, total);
        NoRecords();
      } else {
        RecordsSplit(msg, pos, count, total);
        if |rs| > 1 {
          WalkOfJoined(msg, pos + |m|, rs[1..], false, count + 1, total + |r.payload|);
          assert [r] + rs[1..][..Min(MAX_RECORDS - count - 1, |rs| - 1)] == rs[..Min(MAX_RECORDS - count, |rs|)];
        }
      }
    }
  }

  lemma NoRecords()
    ensures Records([]) == []
  {
  }

  lemma {:induction false} JoinedFits(rs: seq<Record>, first: bool)
    requires AllShort(rs)
    ensures |Joined(Encodings(rs), first)| <= 513 * |rs|
  {
    if rs != [] {
      assert Encodings(rs)[1..] == Encodings(rs[1..]) && rs[0] in rs;
      JoinedFits(rs[1..], false);
    }
  }

  lemma ParseIsWalk(msg: seq<u8>)
    ensures |msg| <= 0xFFFF ==> Parse(msg) == Records(Walk(msg, 0, 0, 0))
    ensures |msg| > 0xFFFF ==> Parse(msg) == []
  {
  }

  lemma BuiltMessageWalksBack(rs: seq<Record>)
    requires AllShort(rs) && |rs| <= MAX_RECORDS
    ensures var msg := Joined(Encodings(rs), true); |msg| <= 0xFFFF && Records(Walk(msg, 0, 0, 0)) == rs
  {
    hide Walk, Joined, Records, Encodings;
    var msg := Joined(Encodings(rs), true);
    JoinedFits(rs, true);
    assert msg[0..0 + |msg|] == msg;
    WalkOfJoined(msg, 0, rs, true, 0, 0);
    assert rs[..|rs|] == rs;
  }

  /** Parsing a built message gives back the records, in order, exactly when there are at most 64 of them. */
  lemma ParseUndoesBuild(rs: seq<Record>)
    requires AllShort(rs)
    ensures Parse(Joined(Encodings(rs), true)) == rs <==> |rs| <= 64
  {
    hide Walk, Joined, Records, Encodings, Parse;
    var msg := Joined(Encodings(rs), true);
    ParseIsWalk(msg);
    if |rs| <= MAX_RECORDS {
      BuiltMessageWalksBack(rs);
    } else if |msg| <= 0xFFFF {
      WalkIsInOrder(msg, 0, 0, 0);
    }
  }
}
