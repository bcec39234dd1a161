/** The grammar of NDEF records with all their optional fields, and what the walk of NdefRecords makes of it. */
module NdefGrammar {
  import opened Bytes
  import opened NdefRecords

  // ---- Printed records ----

  /** A record as it stands in a message: with or without an ID, its payload length in one byte or in four. */
  datatype Printed = Printed(record: Record, id: Option<seq<u8>>, wide: bool, begin: bool, end: bool) {
    predicate Ok() {
      && record.tnf < 8 && |record.kind| <= 255 && (id.Some? ==> |id.value| <= 255)
      && |record.payload| <= (if wide then 0xFFFF_FFFF else 255)
      && Header() != 0
    }

    function Header(): nat {
      (if begin then 0x80 else 0) + (if end then 0x40 else 0) + (if wide then 0 else 0x10) + (if id.Some? then 0x08 else 0)
      + record.tnf
    }

    /** Header, lengths, type, ID, payload: section 3 of the NDEF specification. */
    function Print(): seq<u8>
      requires Ok()
    {
      Lengths() + record.kind + Id() + record.payload
    }

    function Lengths(): seq<u8>
      requires Ok()
    {
      [Header(), |record.kind|] + (if wide then Bytes32(|record.payload|) else [|record.payload|])
      + (if id.Some? then [|id.value|] else [])
    }

    function Id(): seq<u8> { if id.Some? then id.value else [] }

    function LengthsSize(): nat { (if wide then 6 else 3) + (if id.Some? then 1 else 0) }
  }

  lemma Bits(mb: nat, me: nat, sr: nat, il: nat, tnf: nat)
    requires mb < 2 && me < 2 && sr < 2 && il < 2 && tnf < 8
    ensures var h := 0x80 * mb + 0x40 * me + 0x10 * sr + 0x08 * il + tnf;
            && h % 8 == tnf && h / 0x08 % 2 == il && h / 0x10 % 2 == sr && h / 0x20 % 2 == 0 && h / 0x40 % 2 == me
  {
    var a := 2 * (2 * (2 * (2 * mb + me)) + sr) + il;
    var h := 8 * a + tnf;
    assert h / 0x08 == a && h / 0x10 == a / 2 && h / 0x20 == a / 4 && h / 0x40 == a / 8;
  }

  lemma BitsOf(h: u8)
    requires h / 0x20 % 2 == 0
    ensures h == 0x80 * (h / 0x80) + 0x40 * (h / 0x40 % 2) + 0x10 * (h / 0x10 % 2) + 0x08 * (h / 0x08 % 2) + h % 8
    ensures h / 0x80 < 2
  {
    var a := h / 8;
    var b := a / 2;
    var c := b / 2;
    var d := c / 2;
    assert b == h / 0x10 && c == h / 0x20 && d == h / 0x40 && d / 2 == h / 0x80;
  }

  lemma HeaderFlags(p: Printed)
    requires p.Ok()
    ensures var h := p.Header();
            && h < 256 && h % 8 == p.record.tnf && !Has(h, CF) && (Has(h, SR) <==> !p.wide) && (Has(h, IL) <==> p.id.Some?)
            && (Has(h, ME) <==> p.end)
  {
    Bits(if p.begin then 1 else 0, if p.end then 1 else 0, if p.wide then 0 else 1, if p.id.Some? then 1 else 0, p.record.tnf);
  }

  // ---- A record that stands in a message is found ----

  /** What the lengths in front of a record say. */
  lemma LengthsAt(msg: seq<u8>, pos: nat, p: Printed)
    requires p.Ok() && At(msg, pos, p.Lengths())
    ensures |p.Lengths()| == p.LengthsSize() && pos + p.LengthsSize() <= |msg|
    ensures msg[pos] == p.Header() && msg[pos + 1] == |p.record.kind|
    ensures if p.wide then Be32(msg[pos + 2], msg[pos + 3], msg[pos + 4], msg[pos + 5]) == |p.record.payload|
            else msg[pos + 2] == |p.record.payload|
    ensures p.id.Some? ==> msg[pos + p.LengthsSize() - 1] == |p.id.value|
  {
    hide Be32, Bytes32;
    var s, n := p.Lengths(), |p.record.payload|;
    SameBytes(msg, pos, s);
    assert s[0] == p.Header() && s[1] == |p.record.kind|;
    if p.wide {
      Be32Inverse(n);
      assert s[2..6] == Bytes32(n);
      assert s[2] == Bytes32(n)[0] && s[3] == Bytes32(n)[1] && s[4] == Bytes32(n)[2] && s[5] == Bytes32(n)[3];
      assert p.id.Some? ==> s[6] == |p.id.value|;
    } else {
      assert s[2] == n && (p.id.Some? ==> s[3] == |p.id.value|);
    }
  }

  lemma SameBytes(msg: seq<u8>, pos: nat, s: seq<u8>)
    requires At(msg, pos, s)
    ensures pos + |s| <= |msg| && forall i {:trigger s[i]} :: 0 <= i < |s| ==> msg[pos + i] == s[i]
  {
    assert forall i {:trigger s[i]} :: 0 <= i < |s| ==> msg[pos..pos + |s|][i] == s[i];
  }

  /** What the walk makes of such lengths. */
  lemma LengthsAreFound(msg: seq<u8>, pos: nat, wide: bool, withId: bool, kindLen: nat, idLen: nat, payloadLen: nat)
    requires |msg| <= 0xFFFF
    requires var fixed := pos + if wide then 6 else 3;
             && fixed + (if withId then 1 + idLen else 0) + kindLen + payloadLen <= |msg|
             && msg[pos] != 0 && !Has(msg[pos], CF) && (Has(msg[pos], SR) <==> !wide) && (Has(msg[pos], IL) <==> withId)
             && msg[pos + 1] == kindLen && (withId ==> msg[fixed] == idLen)
             && if wide then Be32(msg[pos + 2], msg[pos + 3], msg[pos + 4], msg[pos + 5]) == payloadLen
                else msg[pos + 2] == payloadLen
    ensures var typeAt := pos + (if wide then 6 else 3) + if withId then 1 else 0;
            var payloadAt := typeAt + kindLen + if withId then idLen else 0;
            Next(msg, pos)
            == Found(msg[pos] % 8, typeAt, kindLen, payloadAt, payloadLen, payloadAt + payloadLen, Has(msg[pos], ME))
  {
    hide Has, Be32;
  }

  lemma PartsAt(msg: seq<u8>, pos: nat, p: Printed)
    requires p.Ok() && At(msg, pos, p.Print())
    ensures At(msg, pos, p.Lengths()) && |p.Print()| == |p.Lengths()| + |p.record.kind| + |p.Id()| + |p.record.payload|
    ensures pos + |p.Print()| <= |msg|
    ensures var kindAt := pos + |p.Lengths()|;
            var payloadAt := kindAt + |p.record.kind| + |p.Id()|;
            && msg[kindAt..kindAt + |p.record.kind|] == p.record.kind
            && msg[payloadAt..payloadAt + |p.record.payload|] == p.record.payload
  {
    hide At, Printed.Lengths, Printed.Id;
    var r, lens, id := p.record, p.Lengths(), p.Id();
    AtConcat(msg, pos, lens + r.kind + id, r.payload);
    AtConcat(msg, pos, lens + r.kind, id);
    AtConcat(msg, pos, lens, r.kind);
    AtFits(msg, pos + |lens|, r.kind);
    AtFits(msg, pos + |lens| + |r.kind| + |id|, r.payload);
  }

  /** A record of any form, wherever it stands, is found with its own type name format, type and payload, up to its end. */
  lemma PrintedIsFound(msg: seq<u8>, pos: nat, p: Printed)
    requires |msg| <= 0xFFFF && p.Ok() && At(msg, pos, p.Print())
    ensures pos <= |msg|
    ensures var s := Next(msg, pos);
            && s.Found? && s.last == p.end && s.next == pos + |p.Print()| && s.payloadLen == |p.record.payload|
            && LocatedRecord(msg, pos) == p.record
  {
    hide Next, Has, At, Be32, Bytes32, Printed.Print, Printed.Lengths;
    var r, id := p.record, p.Id();
    PartsAt(msg, pos, p);
    LengthsAt(msg, pos, p);
    HeaderFlags(p);
    LengthsAreFound(msg, pos, p.wide, p.id.Some?, |r.kind|, |id|, |r.payload|);
  }

  // ---- Whatever is found is such a record ----

  /** The record that the walk has seen. */
  function Seen(msg: seq<u8>, pos: nat): Printed
    requires |msg| <= 0xFFFF && pos <= |msg| && Next(msg, pos).Found?
  {
    var s, h := Next(msg, pos), msg[pos];
    Printed(LocatedRecord(msg, pos), if Has(h, IL) then Some(msg[s.typeAt + s.typeLen..s.payloadAt]) else None,
            !Has(h, SR), Has(h, MB), s.last)
  }

  lemma SeenShape(msg: seq<u8>, pos: nat)
    requires |msg| <= 0xFFFF && pos <= |msg| && Next(msg, pos).Found?
    ensures var s, p := Next(msg, pos), Seen(msg, pos);
            && p.Ok() && p.Header() == msg[pos] && s.typeAt == pos + p.LengthsSize() <= |msg| && p.end == s.last
            && s.payloadAt == s.typeAt + s.typeLen + |p.Id()| && |p.record.kind| == s.typeLen == msg[pos + 1] as int
            && |p.record.payload| == s.payloadLen
            && (p.id.Some? ==> msg[s.typeAt - 1] == |p.id.value|)
            && s.payloadLen == if p.wide then Be32(msg[pos + 2], msg[pos + 3], msg[pos + 4], msg[pos + 5]) else msg[pos + 2]
  {
    hide Be32;
    var h := msg[pos];
    BitsOf(h);
    assert Has(h, MB) <==> h / 0x80 == 1;
  }

  lemma SeenLengths(msg: seq<u8>, pos: nat)
    requires |msg| <= 0xFFFF && pos <= |msg| && Next(msg, pos).Found?
    ensures Seen(msg, pos).Ok() && At(msg, pos, Seen(msg, pos).Lengths())
    ensures |Seen(msg, pos).Lengths()| == Seen(msg, pos).LengthsSize()
  {
    hide Next, Has, Seen, LocatedRecord, Be32, Bytes32;
    SeenShape(msg, pos);
    var p := Seen(msg, pos);
    var at := pos + p.LengthsSize();
    AtSlice(msg, pos, at);
    SameBytes(msg, pos, msg[pos..at]);
    LengthsFrom(msg[pos..at], p);
  }

  lemma LengthsFrom(lens: seq<u8>, p: Printed)
    requires p.Ok() && |lens| == p.LengthsSize() && lens[0] == p.Header() && lens[1] == |p.record.kind|
    requires if p.wide then Be32(lens[2], lens[3], lens[4], lens[5]) == |p.record.payload| else lens[2] == |p.record.payload|
    requires p.id.Some? ==> lens[|lens| - 1] == |p.id.value|
    ensures lens == p.Lengths()
  {
    hide Be32, Bytes32;
    if p.wide {
      Bytes32Inverse(lens[2], lens[3], lens[4], lens[5]);
      assert lens[2..6] == [lens[2], lens[3], lens[4], lens[5]] == Bytes32(|p.record.payload|);
      assert lens[..2] == [p.Header(), |p.record.kind|];
      assert lens[6..] == if p.id.Some? then [|p.id.value|] else [];
      assert lens == lens[..2] + lens[2..6] + lens[6..];
    }
  }

  /** Every record found is the print of one of these, with the same content, and ends where that ends. */
  lemma FoundIsPrinted(msg: seq<u8>, pos: nat) returns (p: Printed)
    requires |msg| <= 0xFFFF && pos <= |msg| && Next(msg, pos).Found?
    ensures p.Ok() && At(msg, pos, p.Print()) && Next(msg, pos).next == pos + |p.Print()|
    ensures p.record == LocatedRecord(msg, pos) && p.end == Next(msg, pos).last
  {
    hide Has, At, Be32, Bytes32;
    p := Seen(msg, pos);
    SeenShape(msg, pos);
    SeenLengths(msg, pos);
    var s, r, id := Next(msg, pos), p.record, p.Id();
    AtSlice(msg, s.typeAt, s.typeAt + s.typeLen);
    AtSlice(msg, s.typeAt + s.typeLen, s.payloadAt);
    AtSlice(msg, s.payloadAt, s.next);
    assert id == msg[s.typeAt + s.typeLen..s.payloadAt];
    AtConcat(msg, pos, p.Lengths(), r.kind);
    AtConcat(msg, pos, p.Lengths() + r.kind, id);
    AtConcat(msg, pos, p.Lengths() + r.kind + id, r.payload);
  }

  /** So the walk finds a record exactly where one stands; it skips exactly a zero byte, and refuses exactly a chunk. */
  lemma NextExactlyWhen(msg: seq<u8>, pos: nat)
    requires |msg| <= 0xFFFF && pos <= |msg|
    ensures Next(msg, pos).Found? <==> exists p: Printed :: p.Ok() && At(msg, pos, p.Print())
    ensures Next(msg, pos).Empty? <==> pos < |msg| && msg[pos] == 0
    ensures Next(msg, pos).Unsupported? <==> pos < |msg| && msg[pos] / 0x20 % 2 == 1
  {
    if Next(msg, pos).Found? {
      var p := FoundIsPrinted(msg, pos);
    }
    forall p: Printed | p.Ok() && At(msg, pos, p.Print()) ensures Next(msg, pos).Found? {
      PrintedIsFound(msg, pos, p);
    }
    if pos < |msg| && msg[pos] == 0 {
      assert msg[pos] as int / 0x20 % 2 == 0;
    }
  }

  // ---- Messages ----

  /** What a message may hold besides records: zero bytes, which are skipped. */
  datatype Element = Zero | Rec(p: Printed) {
    predicate Ok() { Rec? ==> p.Ok() }

    function Print(): seq<u8>
      requires Ok()
    {
      match this
      case Zero => [0]
      case Rec(p) => p.Print()
    }
  }

  ghost predicate AllOk(es: seq<Element>) { forall e :: e in es ==> e.Ok() }

  function PrintAll(es: seq<Element>): seq<u8>
    requires AllOk(es)
  {
    if es == [] then [] else es[0].Print() + PrintAll(es[1..])
  }

  /** The first `limit` records, up to one that is marked as the last. */
  function RecordsOf(es: seq<Element>, limit: nat): seq<Record> {
    if es == [] || limit == 0 then []
    else
      match es[0]
      case Zero => RecordsOf(es[1..], limit)
      case Rec(p) => [p.record] + if p.end then [] else RecordsOf(es[1..], limit - 1)
  }

  lemma ZeroIsEmpty(msg: seq<u8>, pos: nat)
    requires |msg| <= 0xFFFF && At(msg, pos, [0])
    ensures pos < |msg| && Next(msg, pos) == Empty(pos + 1)
  {
    AtByte(msg, pos, 0);
  }

  lemma {:induction false} WalkOfElements(msg: seq<u8>, pos: nat, es: seq<Element>, count: nat, total: nat)
    requires |msg| <= 0xFFFF && AllOk(es) && At(msg, pos, PrintAll(es)) && pos + |PrintAll(es)| == |msg|
    requires count <= MAX_RECORDS && total <= pos
    ensures Records(Walk(msg, pos, count, total)) == RecordsOf(es, MAX_RECORDS - count)
    decreases |es|
  {
    hide Next, At, LocatedRecord, Records, Walk, Printed.Print, Printed.Ok;
    NoRecords();
    if es == [] {
      NothingAtTheEnd(msg);
      WalkStops(msg, pos, count, total);
    } else {
      var e := es[0];
      assert e in es && forall x :: x in es[1..] ==> x in es;
      AtConcat(msg, pos, e.Print(), PrintAll(es[1..]));
      match e
      case Zero =>
        ZeroIsEmpty(msg, pos);
        WalkSkips(msg, pos, count, total);
        WalkOfElements(msg, pos + 1, es[1..], count, total);
      case Rec(p) =>
        PrintedIsFound(msg, pos, p);
        PayloadIsInside(p);
        if count == MAX_RECORDS {
          WalkStops(msg, pos, count, total);
        } else {
          RecordsSplit(msg, pos, count, total);
          if !p.end {
            WalkOfElements(msg, pos + |p.Print()|, es[1..], count + 1, total + |p.record.payload|);
          }
        }
    }
  }

  lemma PayloadIsInside(p: Printed)
    requires p.Ok()
    ensures |p.record.payload| <= |p.Print()|
  {
  }

  /** A message of records of any form, with zero bytes between them, parses to its first 64 records up to the last. */
  lemma ParseOfElements(es: seq<Element>)
    requires AllOk(es) && |PrintAll(es)| <= 0xFFFF
    ensures Parse(PrintAll(es)) == RecordsOf(es, 64)
  {
    hide Walk, Records, PrintAll, RecordsOf, Parse;
    var msg := PrintAll(es);
    ParseIsWalk(msg);
    assert msg[0..0 + |msg|] == msg;
    WalkOfElements(msg, 0, es, 0, 0);
  }

  /** How the elements that were taken end: with the last record, with the 64th, or where no further element stands. */
  ghost predicate Stops(msg: seq<u8>, pos: nat, es: seq<Element>, room: nat)
    requires |msg| <= 0xFFFF && AllOk(es) && pos + |PrintAll(es)| <= |msg|
  {
    || (es != [] && es[|es| - 1].Rec? && es[|es| - 1].p.end)
    || |RecordsOf(es, room)| == room
    || (var q := pos + |PrintAll(es)|; Next(msg, q).Unsupported? || Next(msg, q).Truncated?)
  }

  lemma {:induction false} WalkIsSound(msg: seq<u8>, pos: nat, count: nat, total: nat) returns (es: seq<Element>)
    requires |msg| <= 0xFFFF && pos <= |msg| && count <= MAX_RECORDS && total <= pos
    ensures AllOk(es) && At(msg, pos, PrintAll(es)) && pos + |PrintAll(es)| <= |msg|
    ensures Records(Walk(msg, pos, count, total)) == RecordsOf(es, MAX_RECORDS - count)
    ensures Stops(msg, pos, es, MAX_RECORDS - count)
    decreases |msg| - pos
  {
    hide Next, At, LocatedRecord, Records, Walk, Printed.Print, Printed.Ok, AllOk, PrintAll, RecordsOf, Stops, Element.Print;
    NoRecords();
    NoElements(msg, pos, MAX_RECORDS - count);
    var s := Next(msg, pos);
    if s.Empty? {
      NextExactlyWhen(msg, pos);
      AtByte(msg, pos, 0);
      WalkSkips(msg, pos, count, total);
      var rest := WalkIsSound(msg, pos + 1, count, total);
      es := [Zero] + rest;
      ElementPrints(Zero);
      OneMoreElement(Zero, rest, MAX_RECORDS - count);
      AtConcat(msg, pos, [0], PrintAll(rest));
      AtFits(msg, pos + 1, PrintAll(rest));
      StopsBehind(msg, pos, Zero, rest, MAX_RECORDS - count);
    } else if s.Found? && count < MAX_RECORDS {
      var p := FoundIsPrinted(msg, pos);
      PayloadIsInside(p);
      AtFits(msg, pos, p.Print());
      RecordsSplit(msg, pos, count, total);
      var rest := [];
      NoElements(msg, s.next, MAX_RECORDS - count - 1);
      AtSlice(msg, s.next, s.next);
      if !s.last {
        rest := WalkIsSound(msg, s.next, count + 1, total + s.payloadLen);
      }
      es := [Rec(p)] + rest;
      ElementPrints(Rec(p));
      OneMoreElement(Rec(p), rest, MAX_RECORDS - count);
      AtConcat(msg, pos, p.Print(), PrintAll(rest));
      AtFits(msg, s.next, PrintAll(rest));
      StopsBehind(msg, pos, Rec(p), rest, MAX_RECORDS - count);
    } else {
      es := [];
      AtSlice(msg, pos, pos);
      WalkStops(msg, pos, count, total);
    }
  }

  lemma ElementPrints(e: Element)
    ensures e.Ok() <==> (e.Rec? ==> e.p.Ok())
    ensures e.Ok() ==> e.Print() == match e case Zero => [0] case Rec(p) => p.Print()
  {
  }

  lemma NoElements(msg: seq<u8>, pos: nat, room: nat)
    requires |msg| <= 0xFFFF && pos <= |msg|
    ensures AllOk([]) && PrintAll([]) == [] && RecordsOf([], room) == []
    ensures room == 0 || Next(msg, pos).Unsupported? || Next(msg, pos).Truncated? ==> Stops(msg, pos, [], room)
  {
    hide Next;
  }

  /** An element more in front, and the elements end as before, or with that element if it is the last record. */
  lemma StopsBehind(msg: seq<u8>, pos: nat, e: Element, rest: seq<Element>, room: nat)
    requires |msg| <= 0xFFFF && e.Ok() && AllOk(rest) && pos + |e.Print()| + |PrintAll(rest)| <= |msg|
    requires e.Rec? ==> room > 0
    requires if e.Rec? && e.p.end then rest == []
             else Stops(msg, pos + |e.Print()|, rest, if e.Rec? then room - 1 else room)
    ensures AllOk([e] + rest) && PrintAll([e] + rest) == e.Print() + PrintAll(rest)
    ensures Stops(msg, pos, [e] + rest, room)
  {
    hide Next, AllOk, PrintAll, RecordsOf, Element.Print, Element.Ok;
    OneMoreElement(e, rest, room);
  }

  lemma OneMoreElement(e: Element, rest: seq<Element>, limit: nat)
    requires e.Ok() && AllOk(rest)
    ensures AllOk([e] + rest) && PrintAll([e] + rest) == e.Print() + PrintAll(rest)
    ensures rest != [] ==> ([e] + rest)[|rest|] == rest[|rest| - 1]
    ensures limit == 0 ==> RecordsOf([e] + rest, limit) == RecordsOf(rest, limit) == []
    ensures limit > 0 ==>
              RecordsOf([e] + rest, limit)
              == match e
                 case Zero => RecordsOf(rest, limit)
                 case Rec(p) => [p.record] + if p.end then [] else RecordsOf(rest, limit - 1)
  {
    assert ([e] + rest)[1..] == rest;
  }

  /** Whatever the bytes: what is parsed are the records of the elements at the front of the message, and nothing follows them. */
  lemma ParseIsSound(msg: seq<u8>) returns (es: seq<Element>)
    requires |msg| <= 0xFFFF
    ensures AllOk(es) && At(msg, 0, PrintAll(es)) && |PrintAll(es)| <= |msg|
    ensures Parse(msg) == RecordsOf(es, 64) && Stops(msg, 0, es, 64)
  {
    hide Walk, Records, Next, At;
    ParseIsWalk(msg);
    es := WalkIsSound(msg, 0, 0, 0);
  }
}
