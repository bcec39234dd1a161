/** What the byte-string readers accept, stated on the grammar: the flexible read is exact, the tagged one is not. */
module CborStrings {
  import opened Bytes
  import opened CborGrammar
  import opened CborReader

  /** `it` is a byte string, in one piece or in chunks, with content `c`. */
  predicate IsByteString(it: Item, c: seq<u8>) {
    match it
    case Str(m, _, body) => m == MAJOR_BYTES && body == c
    case OpenStr(m, chunks) => m == MAJOR_BYTES && Bodies(chunks) == c
    case _ => false
  }

  predicate IsMaybeTaggedByteString(it: Item, c: seq<u8>) {
    IsByteString(it, c) || (it.Tagged? && IsByteString(it.item, c))
  }

  function Bodies(chunks: seq<Chunk>): seq<u8> {
    if chunks == [] then [] else chunks[0].body + Bodies(chunks[1..])
  }

  /** The item `it` occupies exactly `d[p..q]`. */
  predicate Spans(d: seq<u8>, p: nat, q: nat, it: Item) {
    WF(it) && At(d, p, Print(it)) && q == p + |Print(it)|
  }

  lemma NoChunk()
    ensures PrintChunks(MAJOR_BYTES, []) == [] && Bodies([]) == []
  {
  }

  lemma ConsChunk(c: Chunk, rest: seq<Chunk>)
    ensures PrintChunks(MAJOR_BYTES, [c] + rest) == PrintHead(MAJOR_BYTES, c.arg) + (c.body + PrintChunks(MAJOR_BYTES, rest))
    ensures Bodies([c] + rest) == c.body + Bodies(rest)
  {
    hide PrintHead;
    assert ([c] + rest)[1..] == rest;
  }

  lemma {:induction false} ChunksSound(d: seq<u8>, p: nat, acc: seq<u8>, cap: nat) returns (chunks: seq<Chunk>)
    requires p <= |d| && ChunksFrom(d, p, acc, cap).ok
    ensures forall i :: 0 <= i < |chunks| ==> chunks[i].arg.Value() == |chunks[i].body|
    ensures ChunksFrom(d, p, acc, cap).content == acc + Bodies(chunks)
    ensures var e := ChunksFrom(d, p, acc, cap).pos;
            p < e <= |d| && d[e - 1] == BREAK_BYTE
            && At(d, p, PrintChunks(MAJOR_BYTES, chunks)) && p + |PrintChunks(MAJOR_BYTES, chunks)| == e - 1
    decreases |d| - p
  {
    hide At, PrintHead, HeadAt, PrintChunks, Bodies;
    if d[p] == BREAK_BYTE {
      chunks := [];
      NoChunk();
      AtSlice(d, p, p);
    } else {
      PrintOfHead(d, p);
      var Head(_, arg, q) := HeadAt(d, p).value;
      var r := q + arg.Value();
      var c := Chunk(arg, d[q..r]);
      var rest := ChunksSound(d, r, acc + d[q..r], cap);
      chunks := [c] + rest;
      ConsChunk(c, rest);
      assert acc + d[q..r] + Bodies(rest) == acc + Bodies(chunks);
      AtSlice(d, q, r);
      AtConcat(d, q, c.body, PrintChunks(MAJOR_BYTES, rest));
      AtConcat(d, p, PrintHead(MAJOR_BYTES, arg), c.body + PrintChunks(MAJOR_BYTES, rest));
    }
  }

  lemma {:induction false} ChunksComplete(d: seq<u8>, p: nat, acc: seq<u8>, cap: nat, chunks: seq<Chunk>)
    requires cap <= 0xFFFF && |acc| + |Bodies(chunks)| <= cap
    requires forall i :: 0 <= i < |chunks| ==> chunks[i].arg.Value() == |chunks[i].body|
    requires At(d, p, PrintChunks(MAJOR_BYTES, chunks))
    requires p + |PrintChunks(MAJOR_BYTES, chunks)| < |d| && d[p + |PrintChunks(MAJOR_BYTES, chunks)|] == BREAK_BYTE
    ensures ChunksFrom(d, p, acc, cap)
         == Scan(true, acc + Bodies(chunks), p + |PrintChunks(MAJOR_BYTES, chunks)| + 1)
    decreases |chunks|
  {
    hide At, PrintHead, HeadAt;
    if chunks == [] {
      assert acc + [] == acc;
    } else {
      var c := chunks[0];
      var tail := PrintChunks(MAJOR_BYTES, chunks[1..]);
      var q := p + |PrintHead(MAJOR_BYTES, c.arg)|;
      AtConcat(d, p, PrintHead(MAJOR_BYTES, c.arg), c.body + tail);
      AtConcat(d, q, c.body, tail);
      HeadOfPrint(d, p, MAJOR_BYTES, c.arg);
      AtFits(d, q, c.body);
      assert acc + c.body + Bodies(chunks[1..]) == acc + Bodies(chunks);
      ChunksComplete(d, q + |c.body|, acc + c.body, cap, chunks[1..]);
      assert d[p] != BREAK_BYTE;
    }
  }

  lemma FlexibleSound(d: seq<u8>, p: nat, cap: nat) returns (it: Item)
    requires p <= |d| && FlexibleAt(d, p, cap).ok
    ensures IsByteString(it, FlexibleAt(d, p, cap).content) && Spans(d, p, FlexibleAt(d, p, cap).pos, it)
  {
    hide At, PrintHead, HeadAt, PrintChunks, ChunksFrom;
    var s := StrAt(d, p, MAJOR_BYTES);
    if s.Some? && |s.value.0| <= cap {
      PrintOfHead(d, p);
      var Head(m, arg, q) := HeadAt(d, p).value;
      it := Str(m, arg, s.value.0);
      AtSlice(d, q, s.value.1);
      AtConcat(d, p, PrintHead(m, arg), s.value.0);
    } else {
      var chunks := ChunksSound(d, p + 1, [], cap);
      it := OpenStr(MAJOR_BYTES, chunks);
      assert [] + Bodies(chunks) == Bodies(chunks);
      JoinOpen(d, p, MAJOR_BYTES, PrintChunks(MAJOR_BYTES, chunks));
    }
  }

  lemma FlexibleComplete(d: seq<u8>, p: nat, q: nat, cap: nat, it: Item, c: seq<u8>)
    requires p <= |d| && cap <= 0xFFFF && |c| <= cap
    requires IsByteString(it, c) && Spans(d, p, q, it)
    ensures FlexibleAt(d, p, cap) == Scan(true, c, q)
  {
    hide At, PrintHead, HeadAt, PrintChunks, ChunksFrom;
    match it
    case Str(m, arg, body) =>
      AtConcat(d, p, PrintHead(m, arg), body);
      HeadOfPrint(d, p, m, arg);
      AtFits(d, p + |PrintHead(m, arg)|, body);
    case OpenStr(m, chunks) =>
      SplitOpen(d, p, m, PrintChunks(m, chunks));
      ChunksComplete(d, p + 1, [], cap, chunks);
      assert [] + Bodies(chunks) == Bodies(chunks);
      NoHeadAtOpen(d, p);
  }

  lemma NoHeadAtOpen(d: seq<u8>, p: nat)
    requires p < |d| && d[p] % 32 == 31
    ensures HeadAt(d, p).None?
  {
  }

  /** The flexible read succeeds exactly on the byte strings that fit the buffer, whole or chunked, and yields their content. */
  lemma FlexibleReadsExactlyByteStrings(d: seq<u8>, p: nat, cap: nat, c: seq<u8>, q: nat)
    requires p <= |d| && cap <= 0xFFFF
    ensures FlexibleAt(d, p, cap) == Scan(true, c, q) <==>
            |c| <= cap && exists it :: IsByteString(it, c) && Spans(d, p, q, it)
  {
    if FlexibleAt(d, p, cap) == Scan(true, c, q) {
      var it := FlexibleSound(d, p, cap);
      assert IsByteString(it, c) && Spans(d, p, q, it);
      assert |c| <= cap;
    }
    forall it | IsByteString(it, c) && Spans(d, p, q, it) && |c| <= cap
      ensures FlexibleAt(d, p, cap) == Scan(true, c, q)
    {
      FlexibleComplete(d, p, q, cap, it, c);
    }
  }

  /** A failed chunked read has moved the cursor before the tag is looked for. */
  predicate RetriesFromMovedCursor(d: seq<u8>, p: nat, cap: nat)
    requires p <= |d|
  {
    p < |d| && d[p] == OPEN_BYTES && !FlexibleAt(d, p, cap).ok
  }

  /** Five bytes that are no item at all, yet are read as a tagged byte string. */
  lemma MaybeTaggedAcceptsGarbage()
    ensures var d: seq<u8> := [0x5F, 0xC0, 0xC1, 0x41, 0xAA];
            MaybeTaggedAt(d, 0, 16) == Scan(true, [0xAA], 5) && End(d, 0, 0).None?
  {
    var d: seq<u8> := [0x5F, 0xC0, 0xC1, 0x41, 0xAA];
    assert HeadAt(d, 1) == Some(Head(6, Inline(0), 2));
    assert HeadAt(d, 2) == Some(Head(6, Inline(1), 3));
    assert HeadAt(d, 3) == Some(Head(2, Inline(1), 4));
    hide HeadAt;
    assert FlexibleAt(d, 0, 16) == Scan(false, [], 2) by { NoHeadAtOpen(d, 0); }
    assert FlexibleAt(d, 3, 16) == Scan(true, [0xAA], 5) by { assert d[4..5] == [0xAA]; }
    hide FlexibleAt;
    assert ChunksEnd(d, 1, 2) == None;
  }

  /** A successful tagged read names what stands at the cursor exactly when it did not retry from a moved cursor. */
  lemma MaybeTaggedIsSoundExactlyWhen(d: seq<u8>, p: nat, cap: nat)
    requires p <= |d| && cap <= 0xFFFF && MaybeTaggedAt(d, p, cap).ok
    ensures !RetriesFromMovedCursor(d, p, cap) <==>
            exists it :: IsMaybeTaggedByteString(it, MaybeTaggedAt(d, p, cap).content)
                         && Spans(d, p, MaybeTaggedAt(d, p, cap).pos, it)
  {
    hide At, PrintHead, HeadAt, PrintChunks, ChunksFrom, StrAt;
    var r := MaybeTaggedAt(d, p, cap);
    var f := FlexibleAt(d, p, cap);
    if !RetriesFromMovedCursor(d, p, cap) {
      if f.ok {
        var it := FlexibleSound(d, p, cap);
        assert IsMaybeTaggedByteString(it, r.content) && Spans(d, p, r.pos, it);
      } else {
        PrintOfHead(d, p);
        var Head(m, arg, q) := HeadAt(d, p).value;
        var inner := FlexibleSound(d, q, cap);
        AtConcat(d, p, PrintHead(m, arg), Print(inner));
        assert IsMaybeTaggedByteString(Tagged(arg, inner), r.content) && Spans(d, p, r.pos, Tagged(arg, inner));
      }
    } else {
      assert |r.content| <= cap by { FlexibleContentFits(d, HeadAt(d, f.pos).value.end, cap); }
      forall it | IsMaybeTaggedByteString(it, r.content) && Spans(d, p, r.pos, it)
        ensures false
      {
        NotTagAtOpen(d, p, it);
        FlexibleComplete(d, p, r.pos, cap, it, r.content);
      }
    }
  }

  lemma FlexibleContentFits(d: seq<u8>, p: nat, cap: nat)
    requires p <= |d| && FlexibleAt(d, p, cap).ok
    ensures |FlexibleAt(d, p, cap).content| <= cap
  {
  }

  lemma NotTagAtOpen(d: seq<u8>, p: nat, it: Item)
    requires p < |d| && d[p] == OPEN_BYTES && At(d, p, Print(it))
    ensures !it.Tagged?
  {
    if it.Tagged? {
      AtConcat(d, p, PrintHead(6, it.arg), Print(it.item));
      HeadOfPrint(d, p, 6, it.arg);
    }
  }
}
