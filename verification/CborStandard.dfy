/** Every span has one reading as an item, and which of the accepted items RFC 8949 calls well-formed. */
module CborStandard {
  import opened Bytes
  import opened CborGrammar

  // ---- One reading ----

  /** What tells two readings of the same bytes apart, or not: an open head, or a head with its argument. */
  datatype Lead = Open(m: major) | Closed(m: major, arg: Arg)

  function LeadOf(it: Item): Lead {
    match it
    case Scalar(m, arg) => Closed(m, arg)
    case Str(m, arg, _) => Closed(m, arg)
    case OpenStr(m, _) => Open(m)
    case Nest(m, arg, _) => Closed(m, arg)
    case OpenNest(m, _) => Open(m)
    case Tagged(arg, _) => Closed(6, arg)
  }

  /** What stands behind the head. */
  function BodyOf(it: Item): seq<u8> {
    match it
    case Scalar(_, _) => []
    case Str(_, _, body) => body
    case OpenStr(m, chunks) => PrintChunks(m, chunks) + [BREAK_BYTE]
    case Nest(_, _, items) => PrintAll(items)
    case OpenNest(_, items) => PrintAll(items) + [BREAK_BYTE]
    case Tagged(_, item) => Print(item)
  }

  function PrintLead(lead: Lead): seq<u8> {
    match lead
    case Open(m) => [32 * m + 31]
    case Closed(m, arg) => PrintHead(m, arg)
  }

  lemma PrintIs(it: Item)
    ensures Print(it) == PrintLead(LeadOf(it)) + BodyOf(it)
  {
    hide PrintHead, PrintAll, PrintChunks;
    if it.Scalar? {
      assert PrintHead(it.m, it.arg) + [] == PrintHead(it.m, it.arg);
    }
  }

  /** The bytes at a position have at most one lead. */
  lemma OneLead(d: seq<u8>, p: nat, a: Lead, b: Lead)
    requires At(d, p, PrintLead(a)) && At(d, p, PrintLead(b))
    ensures a == b
  {
    hide PrintHead, At, HeadAt;
    LeadIsRead(d, p, a);
    LeadIsRead(d, p, b);
  }

  lemma LeadIsRead(d: seq<u8>, p: nat, a: Lead)
    requires At(d, p, PrintLead(a))
    ensures p < |d|
    ensures match a
            case Open(m) => d[p] % 32 == 31 && d[p] / 32 == m
            case Closed(m, arg) =>
              d[p] % 32 != 31 && HeadAt(d, p).Some? && HeadAt(d, p).value.m == m && HeadAt(d, p).value.arg == arg
  {
    hide PrintHead, At, HeadAt;
    match a
    case Open(m) =>
      AtByte(d, p, 32 * m + 31);
      LeadByte(m, 31);
    case Closed(m, arg) =>
      HeadOfPrint(d, p, m, arg);
      HeadIsInside(d, p);
  }

  lemma HeadIsInside(d: seq<u8>, p: nat)
    requires HeadAt(d, p).Some?
    ensures p < |d|
  {
  }

  /** Two well-formed items printed at the same place are the same item. */
  lemma {:induction false} OneReading(d: seq<u8>, p: nat, a: Item, b: Item)
    requires WF(a) && WF(b) && At(d, p, Print(a)) && At(d, p, Print(b))
    ensures a == b
    decreases a, 0
  {
    hide At, Print, PrintHead, PrintLead, PrintAll, PrintChunks, Count, WFs;
    PrintIs(a);
    PrintIs(b);
    AtConcat(d, p, PrintLead(LeadOf(a)), BodyOf(a));
    AtConcat(d, p, PrintLead(LeadOf(b)), BodyOf(b));
    OneLead(d, p, LeadOf(a), LeadOf(b));
    var q := p + |PrintLead(LeadOf(a))|;
    match a
    case Scalar(_, _) =>
    case Str(_, _, body) =>
      AtFits(d, q, body);
      AtFits(d, q, b.body);
    case OpenStr(m, chunks) =>
      EndsInBreak(d, q, PrintChunks(m, chunks));
      EndsInBreak(d, q, PrintChunks(m, b.chunks));
      OneReadingOfChunks(d, q, m, chunks, b.chunks);
    case Nest(_, _, items) => OneReadingOfAll(d, q, items, b.items);
    case OpenNest(_, items) =>
      EndsInBreak(d, q, PrintAll(items));
      EndsInBreak(d, q, PrintAll(b.items));
      OneReadingOfAll(d, q, items, b.items);
    case Tagged(_, item) => OneReading(d, q, item, b.item);
  }

  /** A break stands behind `s`. */
  predicate BreakBehind(d: seq<u8>, p: nat, s: seq<u8>) { p + |s| < |d| && d[p + |s|] == BREAK_BYTE }

  lemma EndsInBreak(d: seq<u8>, p: nat, s: seq<u8>)
    requires At(d, p, s + [BREAK_BYTE])
    ensures At(d, p, s) && BreakBehind(d, p, s)
  {
    hide At;
    AtConcat(d, p, s, [BREAK_BYTE]);
    AtByte(d, p + |s|, BREAK_BYTE);
  }

  /** Two lists of items printed at the same place, as many of them or each up to a break, are the same list. */
  lemma {:induction false} OneReadingOfAll(d: seq<u8>, p: nat, a: Items, b: Items)
    requires WFs(a) && WFs(b) && At(d, p, PrintAll(a)) && At(d, p, PrintAll(b))
    requires Count(a) == Count(b) || (BreakBehind(d, p, PrintAll(a)) && BreakBehind(d, p, PrintAll(b)))
    ensures a == b
    decreases a, 1
  {
    hide At, Print, WF;
    if a.Cons? && b.Cons? {
      AtConcat(d, p, Print(a.head), PrintAll(a.tail));
      AtConcat(d, p, Print(b.head), PrintAll(b.tail));
      OneReading(d, p, a.head, b.head);
      OneReadingOfAll(d, p + |Print(a.head)|, a.tail, b.tail);
    } else if a.Cons? {
      NoItemAtBreak(d, p, a);
    } else if b.Cons? {
      NoItemAtBreak(d, p, b);
    }
  }

  lemma NoItemAtBreak(d: seq<u8>, p: nat, items: Items)
    requires items.Cons? && WFs(items) && At(d, p, PrintAll(items))
    ensures p < |d| && d[p] != BREAK_BYTE
  {
    hide At, Print, WF;
    NotBreak(items.head);
    AtConcat(d, p, Print(items.head), PrintAll(items.tail));
    FirstByte(d, p, Print(items.head));
  }

  predicate ChunksFit(chunks: seq<Chunk>) { forall i :: 0 <= i < |chunks| ==> chunks[i].arg.Value() == |chunks[i].body| }

  /** The same of the chunks of a string. */
  lemma {:induction false} OneReadingOfChunks(d: seq<u8>, p: nat, m: major, a: seq<Chunk>, b: seq<Chunk>)
    requires ChunksFit(a) && ChunksFit(b)
    requires At(d, p, PrintChunks(m, a)) && At(d, p, PrintChunks(m, b))
    requires BreakBehind(d, p, PrintChunks(m, a)) && BreakBehind(d, p, PrintChunks(m, b))
    ensures a == b
    decreases |a|
  {
    hide At, PrintHead, HeadAt;
    if a != [] && b != [] {
      ChunkIsRead(d, p, m, a);
      ChunkIsRead(d, p, m, b);
      OneReadingOfChunks(d, p + |PrintHead(m, a[0].arg)| + |a[0].body|, m, a[1..], b[1..]);
      assert a == [a[0]] + a[1..] && b == [b[0]] + b[1..];
    } else if a != [] {
      ChunkIsRead(d, p, m, a);
    } else if b != [] {
      ChunkIsRead(d, p, m, b);
    }
  }

  lemma ChunkIsRead(d: seq<u8>, p: nat, m: major, chunks: seq<Chunk>)
    requires chunks != [] && ChunksFit(chunks) && At(d, p, PrintChunks(m, chunks)) && BreakBehind(d, p, PrintChunks(m, chunks))
    ensures var c := chunks[0];
            var q := p + |PrintHead(m, c.arg)|;
            && p < |d| && d[p] != BREAK_BYTE && HeadAt(d, p) == Some(Head(m, c.arg, q))
            && q + c.arg.Value() <= |d| && c.body == d[q..q + c.arg.Value()]
            && ChunksFit(chunks[1..]) && At(d, q + |c.body|, PrintChunks(m, chunks[1..]))
            && BreakBehind(d, q + |c.body|, PrintChunks(m, chunks[1..]))
  {
    hide At, PrintHead, HeadAt;
    var c, rest := chunks[0], PrintChunks(m, chunks[1..]);
    var q := p + |PrintHead(m, c.arg)|;
    AtConcat(d, p, PrintHead(m, c.arg), c.body + rest);
    AtConcat(d, q, c.body, rest);
    HeadOfPrint(d, p, m, c.arg);
    HeadIsInside(d, p);
    AtFits(d, q, c.body);
  }

  // ---- The standard ----

  /** Section 3.3 of RFC 8949: a simple value below 32 is not written in two bytes. */
  predicate Standard(it: Item) {
    match it
    case Scalar(m, arg) => m == 7 && arg.One? ==> arg.v1 >= 32
    case Nest(_, _, items) => StandardAll(items)
    case OpenNest(_, items) => StandardAll(items)
    case Tagged(_, item) => Standard(item)
    case _ => true
  }

  predicate StandardAll(items: Items) {
    match items
    case Nil => true
    case Cons(head, tail) => Standard(head) && StandardAll(tail)
  }

  /** The item is printed at exactly `d[p..q]` and is within the depth limit. */
  predicate Reads(d: seq<u8>, p: nat, q: nat, it: Item) {
    WF(it) && Height(it) <= 32 && At(d, p, Print(it)) && q == p + |Print(it)|
  }

  /** An accepted span is well-formed for the standard exactly if its one reading holds no short simple value in two bytes. */
  lemma StandardExactlyWhen(d: seq<u8>, p: nat, q: nat)
    requires p <= |d|
    ensures (exists it :: Reads(d, p, q, it) && Standard(it))
            <==> End(d, p, 0) == Some(q) && forall it :: Reads(d, p, q, it) ==> Standard(it)
  {
    hide WF, Height, Print, At, End, Standard;
    if it :| Reads(d, p, q, it) && Standard(it) {
      Complete(d, p, 0, it);
      forall other | Reads(d, p, q, other) ensures Standard(other) {
        OneReading(d, p, it, other);
      }
    }
    if End(d, p, 0) == Some(q) && forall it :: Reads(d, p, q, it) ==> Standard(it) {
      var it := Sound(d, p, 0);
      assert Reads(d, p, q, it);
    }
  }

  /** And there are such spans: F8 10 is accepted, and the standard does not allow it. */
  lemma TwoByteSimpleValueIsAccepted()
    ensures var d: seq<u8> := [0xF8, 0x10]; End(d, 0, 0) == Some(2) && forall it :: Reads(d, 0, 2, it) ==> !Standard(it)
  {
    var d: seq<u8> := [0xF8, 0x10];
    var simple := Scalar(7, One(0x10));
    assert HeadAt(d, 0) == Some(Head(7, One(0x10), 2));
    assert Print(simple) == d && d[0..2] == d;
    forall it | Reads(d, 0, 2, it) ensures !Standard(it) {
      OneReading(d, 0, it, simple);
    }
  }
}
