/** NFC Forum TLV blocks: the scanner, the message builder, and the arithmetic of how much fits a data area. */
module NdefTlv {
  import opened Bytes

  const NULL_TLV: u8 := 0x00
  const MESSAGE: u8 := 0x03
  const TERMINATOR: u8 := 0xFE
  const EXTENDED: u8 := 0xFF

  // ---- Grammar of a TLV area ----

  /** A block in front of the terminator; `wide` is the three-byte length form. */
  datatype Block = Pad | Tlv(kind: u8, body: seq<u8>, wide: bool) {
    predicate Ok() {
      Tlv? ==> kind != NULL_TLV && kind != TERMINATOR && |body| <= (if wide then 0xFFFF else 254)
    }

    predicate Message() { Tlv? && kind == MESSAGE }

    function Code(): seq<u8>
      requires Ok()
    {
      match this
      case Pad => [NULL_TLV]
      case Tlv(kind, body, wide) => Header(kind, |body|, wide) + body
    }
  }

  function Header(kind: u8, len: u16, wide: bool): seq<u8>
    requires !wide ==> len < 0x100
  {
    [kind] + if wide then [EXTENDED] + Bytes16(len) else [len]
  }

  predicate Skippable(blocks: seq<Block>) {
    forall b :: b in blocks ==> b.Ok() && !b.Message()
  }

  function Codes(blocks: seq<Block>): seq<u8>
    requires Skippable(blocks)
  {
    if blocks == [] then [] else blocks[0].Code() + Codes(blocks[1..])
  }

  // ---- Scanning ----

  /** What a scan meets: a block with its value range, the end (after a terminator or at the end of data), or a cut-off block. */
  datatype Scan =
    | Hit(kind: u8, header: nat, value: nat, len: u16)
    | Stop(at: nat, terminated: bool)
    | Cut

  function Next(d: seq<u8>, p: nat): (r: Scan)
    requires p <= |d|
    ensures r.Hit? ==> p <= r.header < r.value && r.value + r.len <= |d|
    ensures r.Stop? ==> p <= r.at <= |d| && (!r.terminated ==> r.at == |d|)
    decreases |d| - p
  {
    if p == |d| then Stop(p, false)
    else if d[p] == NULL_TLV then Next(d, p + 1)
    else if d[p] == TERMINATOR then Stop(p + 1, true)
    else if p + 1 == |d| then Cut
    else if d[p + 1] == EXTENDED then
      if p + 4 > |d| then Cut else Value(d, p, p + 4, Be16(d[p + 2], d[p + 3]))
    else Value(d, p, p + 2, d[p + 1])
  }

  function Value(d: seq<u8>, header: nat, value: nat, len: u16): Scan
    requires header < |d|
  {
    if value + len > |d| then Cut else Hit(d[header], header, value, len)
  }

  /** The first message block, or how the area ends. */
  function Find(d: seq<u8>, p: nat): (r: Scan)
    requires p <= |d|
    ensures r.Hit? ==> p <= r.header < r.value && r.value + r.len <= |d|
    ensures r.Stop? ==> p <= r.at <= |d| && (!r.terminated ==> r.at == |d|)
    decreases |d| - p
  {
    var r := Next(d, p);
    if r.Hit? && r.kind != MESSAGE then Find(d, r.value + r.len) else r
  }

  function Content(d: seq<u8>, r: Scan): seq<u8>
    requires r.Hit? && r.value + r.len <= |d|
  {
    d[r.value..r.value + r.len]
  }

  datatype Status = Found | NotFound | Truncated | InvalidArg

  method NextTlv(d: Span, start: u16) returns (status: Status, tlv: Scan, next: u16)
    ensures status.InvalidArg? <==> start > |d|
    ensures start <= |d| ==>
              var r := Next(d, start);
              && (status.Found? <==> r.Hit?) && (status.Truncated? <==> r.Cut?)
              && (r.Hit? ==> tlv == r && next == r.value + r.len)
              && (r.Stop? ==> next == r.at)
  {
    tlv, next := Cut, 0;
    if start > |d| {
      return InvalidArg, tlv, next;
    }
    var pos: u16 := start;
    while pos < |d|
      invariant start <= pos <= |d| && Next(d, start) == Next(d, pos)
      decreases |d| - pos
    {
      var header := pos;
      var kind := d[pos];
      pos := pos + 1;
      if kind == NULL_TLV {
        continue;
      }
      if kind == TERMINATOR {
        return NotFound, tlv, pos;
      }
      if pos >= |d| {
        return Truncated, tlv, next;
      }
      var len: u16;
      if d[pos] == EXTENDED {
        if pos + 3 > |d| {
          return Truncated, tlv, next;
        }
        len := Be16(d[pos + 1], d[pos + 2]);
        pos := pos + 3;
      } else {
        len := d[pos];
        pos := pos + 1;
      }
      if pos + len > |d| {
        return Truncated, tlv, next;
      }
      return Found, Hit(kind, header, pos, len), pos + len;
    }
    return NotFound, tlv, pos;
  }

  method FindMessageTlv(d: Span, start: u16) returns (status: Status, tlv: Scan)
    ensures status.InvalidArg? <==> start > |d|
    ensures start <= |d| ==>
              var r := Find(d, start);
              (status.Found? <==> r.Hit?) && (status.Truncated? <==> r.Cut?) && (r.Hit? ==> tlv == r)
  {
    tlv := Cut;
    if start > |d| {
      return InvalidArg, tlv;
    }
    var pos: u16 := start;
    while pos < |d|
      invariant start <= pos <= |d| && Find(d, start) == Find(d, pos)
      decreases |d| - pos
    {
      var next;
      status, tlv, next := NextTlv(d, pos);
      if status != Found {
        return;
      }
      if tlv.kind == MESSAGE {
        return;
      }
      pos := next;
    }
    return NotFound, tlv;
  }

  // ---- Scanning decides the grammar ----

  lemma HeaderAt(d: seq<u8>, p: nat, kind: u8, len: u16, wide: bool)
    requires !wide ==> len < 0x100
    ensures At(d, p, Header(kind, len, wide)) <==>
              if wide then p + 4 <= |d| && d[p] == kind && d[p + 1] == EXTENDED && Be16(d[p + 2], d[p + 3]) == len
              else p + 2 <= |d| && d[p] == kind && d[p + 1] == len
  {
    if wide {
      if p + 4 <= |d| {
        assert d[p..p + 4] == [d[p], d[p + 1], d[p + 2], d[p + 3]];
        Bytes16Inverse(d[p + 2], d[p + 3]);
        Be16Inverse(len);
      }
    } else if p + 2 <= |d| {
      assert d[p..p + 2] == [d[p], d[p + 1]];
    }
  }

  /** One block is recognised for what it is, wherever it stands. */
  lemma BlockIsHit(d: seq<u8>, p: nat, b: Block)
    requires b.Ok() && At(d, p, b.Code())
    ensures match b
            case Pad => Next(d, p) == Next(d, p + 1)
            case Tlv(kind, body, wide) =>
              var v := p + if wide then 4 else 2;
              Next(d, p) == Hit(kind, p, v, |body|) && v + |body| == p + |b.Code()| && d[v..v + |body|] == body
  {
    match b
    case Pad => AtByte(d, p, NULL_TLV);
    case Tlv(kind, body, wide) =>
      AtConcat(d, p, Header(kind, |body|, wide), body);
      HeaderAt(d, p, kind, |body|, wide);
  }

  lemma FindPasses(d: seq<u8>, p: nat, b: Block)
    requires b.Ok() && !b.Message() && At(d, p, b.Code())
    ensures Find(d, p) == Find(d, p + |b.Code()|)
  {
    hide At, Next;
    BlockIsHit(d, p, b);
    AtFits(d, p, b.Code());
  }

  /** Finding passes any padding and any blocks that are not messages. */
  lemma {:induction false} FindSkips(d: seq<u8>, p: nat, blocks: seq<Block>)
    requires Skippable(blocks) && At(d, p, Codes(blocks))
    ensures Find(d, p) == Find(d, p + |Codes(blocks)|)
    decreases |blocks|
  {
    hide Find, At;
    if blocks != [] {
      var b := blocks[0];
      assert b in blocks;
      AtConcat(d, p, b.Code(), Codes(blocks[1..]));
      FindPasses(d, p, b);
      FindSkips(d, p + |b.Code()|, blocks[1..]);
    } else {
      assert |Codes(blocks)| == 0;
    }
  }

  /** Where a scan ends, the blocks it passed, and what stands there. */
  ghost predicate Reaches(d: seq<u8>, p: nat, r: Scan, blocks: seq<Block>)
    requires p <= |d|
  {
    && Skippable(blocks) && At(d, p, Codes(blocks))
    && var q := p + |Codes(blocks)|;
       match r
       case Hit(kind, header, value, len) =>
         && kind == MESSAGE && header == q && value + len <= |d|
         && exists wide :: Tlv(kind, Content(d, r), wide).Ok() && At(d, q, Tlv(kind, Content(d, r), wide).Code())
       case Stop(at, terminated) =>
         if terminated then q < |d| && d[q] == TERMINATOR && at == q + 1 else at == q == |d|
       case Cut => q < |d| && forall b: Block :: b.Ok() ==> !At(d, q, b.Code())
  }

  /** A scan that is cut stands before something that is no block. */
  lemma CutIsNoBlock(d: seq<u8>, p: nat, b: Block)
    requires p < |d| && d[p] != NULL_TLV && Next(d, p).Cut? && b.Ok()
    ensures !At(d, p, b.Code())
  {
    if At(d, p, b.Code()) {
      AtByte(d, p, NULL_TLV);
      BlockIsHit(d, p, b);
    }
  }

  lemma HitIsBlock(d: seq<u8>, p: nat) returns (b: Block)
    requires p < |d| && d[p] != NULL_TLV && Next(d, p).Hit?
    ensures var r := Next(d, p);
            && r.header == p && b.Tlv? && b.kind == r.kind && b.body == Content(d, r) && b.Ok()
            && At(d, p, b.Code()) && p + |b.Code()| == r.value + r.len
  {
    var r := Next(d, p);
    var wide := d[p + 1] == EXTENDED;
    b := Tlv(r.kind, Content(d, r), wide);
    HeaderAt(d, p, r.kind, r.len, wide);
    AtConcat(d, p, Header(r.kind, r.len, wide), Content(d, r));
  }

  /** What the scanner makes of an area is its one reading as blocks: it can be nothing else. */
  lemma {:induction false} FindIsSound(d: seq<u8>, p: nat) returns (blocks: seq<Block>)
    requires p <= |d|
    ensures Reaches(d, p, Find(d, p), blocks)
    decreases |d| - p
  {
    blocks := [];
    if p == |d| || d[p] == TERMINATOR {
    } else if d[p] == NULL_TLV {
      AtByte(d, p, NULL_TLV);
      blocks := Prepend(d, p, Pad);
    } else if Next(d, p).Cut? {
      forall b: Block | b.Ok() ensures !At(d, p, b.Code()) {
        CutIsNoBlock(d, p, b);
      }
    } else {
      var b := HitIsBlock(d, p);
      if !b.Message() {
        blocks := Prepend(d, p, b);
      }
    }
  }

  lemma {:induction false} Prepend(d: seq<u8>, p: nat, b: Block) returns (blocks: seq<Block>)
    requires b.Ok() && !b.Message() && At(d, p, b.Code())
    ensures Reaches(d, p, Find(d, p), blocks)
    decreases |d| - p, 0
  {
    hide Find, At, Codes;
    var q := p + |b.Code()|;
    AtFits(d, p, b.Code());
    var rest := FindIsSound(d, q);
    blocks := [b] + rest;
    OneMoreBlock(b, rest);
    AtConcat(d, p, b.Code(), Codes(rest));
    FindPasses(d, p, b);
  }

  lemma OneMoreBlock(b: Block, rest: seq<Block>)
    requires b.Ok() && !b.Message() && Skippable(rest)
    ensures Skippable([b] + rest) && Codes([b] + rest) == b.Code() + Codes(rest)
  {
    assert ([b] + rest)[1..] == rest;
  }

  // ---- Building ----

  function MessageTlv(ndef: Span): seq<u8> {
    Tlv(MESSAGE, ndef, |ndef| >= 255).Code() + [TERMINATOR]
  }

  function EnvelopeLen(n: u16): nat {
    n + if n < 255 then 3 else 5
  }

  /** Writes the message block and a terminator to the front of `out`, or reports the room needed, clamped to 16 bits. */
  method BuildMessageTlv(ndef: Span, out: array<u8>) returns (ok: bool, outLen: u16)
    requires out.Length <= 0xFFFF
    modifies out
    ensures ok <==> EnvelopeLen(|ndef|) <= out.Length
    ensures ok ==> outLen == |MessageTlv(ndef)| && out[..outLen] == MessageTlv(ndef) && out[outLen..] == old(out[outLen..])
    ensures !ok ==> outLen == Min(EnvelopeLen(|ndef|), 0xFFFF) && out[..] == old(out[..])
  {
    var need := EnvelopeLen(|ndef|);
    if need > out.Length {
      return false, if need > 0xFFFF then 0xFFFF else need;
    }
    hide Header;
    BuildSize(ndef);
    var pos := Put(out, 0, Header(MESSAGE, |ndef|, |ndef| >= 255));
    assert out[..pos] == Header(MESSAGE, |ndef|, |ndef| >= 255);
    pos := Put(out, pos, ndef);
    pos := Put(out, pos, [TERMINATOR]);
    return true, pos;
  }

  lemma BuildSize(ndef: Span)
    ensures |MessageTlv(ndef)| == EnvelopeLen(|ndef|)
  {
  }

  lemma TerminatorStops(d: seq<u8>, p: nat)
    requires p < |d| && d[p] == 0xFE
    ensures Next(d, p) == Stop(p + 1, true)
  {
  }

  lemma MessageIsFound(d: seq<u8>, p: nat, b: Block)
    requires b.Ok() && b.Message() && At(d, p, b.Code())
    ensures p <= |d|
    ensures var r := Find(d, p);
            r.Hit? && r.header == p && r.value + r.len == p + |b.Code()| && Content(d, r) == b.body
  {
    BlockIsHit(d, p, b);
  }

  /** The bytes of the message block and the terminator. */
  lemma MessageTlvBytes(ndef: Span)
    ensures MessageTlv(ndef)
            == (if |ndef| < 255 then [0x03, |ndef|] else [0x03, 0xFF, |ndef| / 0x100, |ndef| % 0x100]) + ndef + [0xFE]
  {
  }

  lemma BuiltMessageIsFound(d: seq<u8>, p: nat, ndef: Span)
    requires At(d, p, MessageTlv(ndef))
    ensures p + |MessageTlv(ndef)| <= |d|
    ensures var r := Find(d, p);
            && r.Hit? && r.header == p && Content(d, r) == ndef
            && Next(d, r.value + r.len) == Stop(p + |MessageTlv(ndef)|, true)
  {
    hide Find, Next, At, Block.Code;
    var b := Tlv(MESSAGE, ndef, |ndef| >= 255);
    AtConcat(d, p, b.Code(), [TERMINATOR]);
    AtByte(d, p + |b.Code()|, TERMINATOR);
    MessageIsFound(d, p, b);
    TerminatorStops(d, p + |b.Code()|);
  }

  /** Build and find are inverse behind any padding and any blocks that are not messages, and a scan that goes on stops there. */
  lemma BuildThenFind(pre: seq<Block>, ndef: Span, rest: seq<u8>)
    requires Skippable(pre)
    ensures var d := Codes(pre) + MessageTlv(ndef) + rest;
            var r := Find(d, 0);
            && r.Hit? && r.header == |Codes(pre)| && Content(d, r) == ndef
            && Next(d, r.value + r.len) == Stop(|Codes(pre)| + |MessageTlv(ndef)|, true)
  {
    hide Find, Next, At, MessageTlv;
    var d := Codes(pre) + MessageTlv(ndef) + rest;
    AtParts(Codes(pre), MessageTlv(ndef), rest);
    FindSkips(d, 0, pre);
    BuiltMessageIsFound(d, |Codes(pre)|, ndef);
  }

  // ---- Capacity ----

  function MaxPayload(area: u16): u16 {
    if area <= 3 then 0 else if area <= 254 then area - 3 else area - 5
  }

  /** The advertised capacity is safe from three bytes up, and too small exactly for areas of 255 to 258 bytes, by at most two. */
  lemma MaxPayloadIsOptimalExactlyOutside255To258(area: u16)
    ensures EnvelopeLen(MaxPayload(area)) <= area <==> area >= 3
    ensures (forall n: u16 :: EnvelopeLen(n) <= area ==> n <= MaxPayload(area)) <==> !(255 <= area <= 258)
    ensures forall n: u16 :: EnvelopeLen(n) <= area ==> n <= MaxPayload(area) + 2
  {
    if 255 <= area <= 258 {
      var better: u16 := if area == 258 then 254 else area - 3;
      assert EnvelopeLen(better) <= area && better > MaxPayload(area);
    }
  }

  // ---- Scanning a prefix ----

  /** A scan of a prefix that meets a block or the terminator says what every longer scan says. */
  lemma {:induction false} NextIsStable(d: seq<u8>, n: nat, p: nat)
    requires p <= n <= |d|
    ensures var r := Next(d[..n], p); r.Hit? || (r.Stop? && r.terminated) ==> Next(d, p) == r
    ensures var r := Next(d, p);
            (r.Hit? && r.value + r.len <= n) || (r.Stop? && r.terminated && r.at <= n) ==> Next(d[..n], p) == r
    decreases n - p
  {
    if p < n && d[p] == NULL_TLV {
      NextIsStable(d, n, p + 1);
    }
  }

  /** A prefix that holds the block or the terminator to its end shows it, and what a prefix shows is there. */
  lemma {:induction false} FindIsStable(d: seq<u8>, n: nat, p: nat)
    requires p <= n <= |d|
    ensures var r := Find(d[..n], p); r.Hit? || (r.Stop? && r.terminated) ==> Find(d, p) == r
    ensures var r := Find(d, p);
            (r.Hit? && r.value + r.len <= n) || (r.Stop? && r.terminated && r.at <= n) ==> Find(d[..n], p) == r
    decreases n - p
  {
    hide Next;
    NextIsStable(d, n, p);
    var r := Next(d[..n], p);
    if r.Hit? && r.kind != MESSAGE {
      FindIsStable(d, n, r.value + r.len);
    } else {
      var whole := Next(d, p);
      if whole.Hit? && whole.kind != MESSAGE {
        FindIsBehind(d, p);
      }
    }
  }

  /** What is found behind a block ends behind it. */
  lemma FindIsBehind(d: seq<u8>, p: nat)
    requires p <= |d| && Next(d, p).Hit? && Next(d, p).kind != MESSAGE
    ensures var r, end := Find(d, p), Next(d, p).value + Next(d, p).len;
            (r.Hit? ==> end <= r.header) && (r.Stop? ==> end <= r.at)
  {
    hide Next;
  }

  /** If the whole area has a message, a prefix shows that message, is cut, or ends between blocks without a terminator. */
  lemma PrefixOfMessage(d: seq<u8>, n: nat, p: nat)
    requires p <= n <= |d| && Find(d, p).Hit?
    ensures var r := Find(d[..n], p);
            r == Find(d, p) || r.Cut? || r == Stop(n, false)
  {
    FindIsStable(d, n, p);
  }
}
