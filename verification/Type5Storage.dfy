/** NDEF on a Type 5 tag: four-byte blocks read one at a time, from block 0 on, the TLV area behind the capability container. */
module Type5Storage {
  import opened Bytes
  import opened NdefTlv
  import opened NdefScan
  import opened StorageWrite

  const BLOCK := 4
  const READ_MAX := 65535

  datatype Error = AddressRange | ReadRange | ReadFailed | CutOff

  datatype Result = Ok(ndef: seq<u8>) | Err(error: Error)

  /** The number of blocks to read; 0 if nothing can be. */
  function BlockLimit(start: u16, area: u16): u16 {
    if start >= READ_MAX then 0 else CeilDiv(start + Min(area, READ_MAX - start), BLOCK)
  }

  /** The length of those blocks, in 16 bits. */
  function TotalLen(blocks: u16): u16 { blocks * BLOCK % 0x1_0000 }

  /** What is left to read, in 16 bits. */
  function Remaining(total: u16, copied: nat): (r: u16)
    ensures copied <= total ==> r == total - copied
  {
    (total - copied) % 0x1_0000
  }

  /** The read loop at block `block`, with `raw` already read. */
  function ReadLoop(mem: seq<u8>, start: nat, total: u16, blocks: nat, block: nat, raw: seq<u8>): Result
    decreases blocks - block
  {
    if block >= blocks then Err(CutOff)
    else if BLOCK * (block + 1) > |mem| then Err(ReadFailed)
    else
      var want := Min(BLOCK, Remaining(total, |raw|));
      var longer := raw + mem[BLOCK * block..BLOCK * block + want];
      match Verdict(longer, start, total)
      case Some(ndef) => Ok(ndef)
      case None => ReadLoop(mem, start, total, blocks, block + 1, longer)
  }

  /** One round of the loop. */
  lemma ReadStep(mem: seq<u8>, start: nat, total: u16, blocks: nat, block: nat, raw: seq<u8>, longer: seq<u8>)
    requires block < blocks
    requires BLOCK * (block + 1) <= |mem| ==>
               longer == raw + mem[BLOCK * block..BLOCK * block + Min(BLOCK, Remaining(total, |raw|))]
    ensures ReadLoop(mem, start, total, blocks, block, raw)
            == if BLOCK * (block + 1) > |mem| then Err(ReadFailed)
               else match Verdict(longer, start, total)
                    case Some(ndef) => Ok(ndef)
                    case None => ReadLoop(mem, start, total, blocks, block + 1, longer)
  {
    hide Verdict, Remaining;
  }

  lemma LoopEnds(mem: seq<u8>, start: nat, total: u16, blocks: nat, raw: seq<u8>)
    ensures ReadLoop(mem, start, total, blocks, blocks, raw) == Err(CutOff)
  {
  }

  function ReadNdef(mem: seq<u8>, start: u16, area: u16): Result {
    if start + area > 0xFFFF then Err(AddressRange)
    else
      var blocks := BlockLimit(start, area);
      if blocks == 0 then Err(ReadRange) else ReadLoop(mem, start, TotalLen(blocks), blocks, 0, [])
  }

  method ReadType5NdefTlv(mem: UnitMemory, start: u16, area: u16) returns (r: Result)
    requires mem.unitSize == BLOCK
    ensures r == ReadNdef(mem.data, start, area)
  {
    if start + area > 0xFFFF {
      return Err(AddressRange);
    }
    var blocks := BlockLimit(start, area);
    if blocks == 0 {
      return Err(ReadRange);
    }
    r := ReadBlocks(mem, start, TotalLen(blocks), blocks);
  }

  method ReadBlocks(mem: UnitMemory, start: u16, total: u16, blocks: u16) returns (r: Result)
    requires mem.unitSize == BLOCK
    ensures r == ReadLoop(mem.data, start, total, blocks, 0, [])
  {
    hide Verdict, Remaining, ReadLoop, Off;
    var raw: seq<u8> := [];
    var block := 0;
    while block < blocks
      invariant block <= blocks <= 0xFFFF && |raw| <= BLOCK * block && (total == 0 ==> raw == []) && |raw| <= total
      invariant ReadLoop(mem.data, start, total, blocks, 0, []) == ReadLoop(mem.data, start, total, blocks, block, raw)
    {
      var remaining := Remaining(total, |raw|);
      OffOfFour(block);
      var data := mem.Read(block, BLOCK);
      if data.None? {
        ReadStep(mem.data, start, total, blocks, block, raw, []);
        return Err(ReadFailed);
      }
      var want := Min(|data.value|, remaining);
      assert data.value[..want] == mem.data[BLOCK * block..BLOCK * block + want];
      ReadStep(mem.data, start, total, blocks, block, raw, raw + data.value[..want]);
      raw := raw + data.value[..want];
      block := block + 1;
      var verdict := ScanRaw(raw, start, total);
      if verdict.Some? {
        return Ok(verdict.value);
      }
    }
    LoopEnds(mem.data, start, total, blocks, raw);
    return Err(CutOff);
  }

  // ---- Reading piecemeal and scanning at once ----

  /** How much has been read after each block from block `block` on. */
  function Rounds(block: nat, blocks: nat): (r: seq<nat>)
    ensures |r| == Max(blocks - block, 0) && forall i :: 0 <= i < |r| ==> r[i] == BLOCK * (block + 1 + i)
    decreases blocks - block
  {
    if block >= blocks then [] else [BLOCK * (block + 1)] + Rounds(block + 1, blocks)
  }

  function Read(v: Option<seq<u8>>): Result {
    match v
    case Some(ndef) => Ok(ndef)
    case None => Err(CutOff)
  }

  lemma {:induction false} ReadLoopIsFirstVerdict(mem: seq<u8>, start: u16, blocks: nat, block: nat)
    requires block <= blocks && BLOCK * blocks <= 0xFFFF && BLOCK * blocks <= |mem|
    ensures ReadLoop(mem, start, BLOCK * blocks, blocks, block, mem[..BLOCK * block])
            == Read(FirstVerdict(mem[..BLOCK * blocks], start, Rounds(block, blocks)))
    decreases blocks - block
  {
    hide Verdict;
    if block < blocks {
      var area, rounds := mem[..BLOCK * blocks], Rounds(block, blocks);
      assert mem[..BLOCK * block] + mem[BLOCK * block..BLOCK * block + BLOCK] == mem[..BLOCK * (block + 1)];
      assert area[..rounds[0]] == mem[..BLOCK * (block + 1)];
      assert rounds[1..] == Rounds(block + 1, blocks);
      ReadLoopIsFirstVerdict(mem, start, blocks, block + 1);
    }
  }

  lemma {:induction false} ReadLoopErrors(mem: seq<u8>, start: nat, total: u16, blocks: nat, block: nat, raw: seq<u8>)
    ensures var r := ReadLoop(mem, start, total, blocks, block, raw); r.Err? ==> r.error == CutOff || r.error == ReadFailed
    decreases blocks - block
  {
    hide Verdict, Remaining;
    if block < blocks && BLOCK * (block + 1) <= |mem| {
      var want := Min(BLOCK, Remaining(total, |raw|));
      ReadLoopErrors(mem, start, total, blocks, block + 1, raw + mem[BLOCK * block..BLOCK * block + want]);
    }
  }

  /** An area that does not end within 65535 bytes, or that has no block, is refused before anything is read. */
  lemma ReadIsRefusedExactlyWhen(mem: seq<u8>, start: u16, area: u16)
    ensures ReadNdef(mem, start, area) == Err(AddressRange) <==> start + area > 65535
    ensures ReadNdef(mem, start, area) == Err(ReadRange) <==> (start == 65535 || start == 0) && area == 0
  {
    hide ReadLoop, TotalLen;
    if start + area <= 65535 && BlockLimit(start, area) != 0 {
      var blocks := BlockLimit(start, area);
      ReadLoopErrors(mem, start, TotalLen(blocks), blocks, 0, []);
    }
  }

  /** The reader works up to an end of the area at 65532; beyond it the 16-bit length is 0 and every read fails at the end. */
  lemma ReadNdefIsFirstVerdictExactlyUpTo65532(mem: seq<u8>, start: u16, area: u16)
    requires start + area <= 0xFFFF && 0 < start + area && start < READ_MAX && BLOCK * CeilDiv(start + area, BLOCK) <= |mem|
    ensures var blocks := CeilDiv(start + area, BLOCK);
            if start + area <= 65532
            then ReadNdef(mem, start, area) == Read(FirstVerdict(mem[..BLOCK * blocks], start, Rounds(0, blocks)))
            else ReadNdef(mem, start, area) == Err(CutOff)
  {
    var blocks := CeilDiv(start + area, BLOCK);
    assert BlockLimit(start, area) == blocks > 0;
    assert TotalLen(blocks) == if start + area <= 65532 then BLOCK * blocks else 0;
    assert start + area > 65532 ==> blocks == 0x4000;
    assert mem[..0] == [];
    hide BlockLimit, TotalLen, CeilDiv, Verdict, ReadLoop, FirstVerdict;
    if start + area <= 65532 {
      ReadLoopIsFirstVerdict(mem, start, blocks, 0);
    } else {
      NothingIsCopied(mem, start, blocks, 0);
    }
  }

  lemma {:induction false} NothingIsCopied(mem: seq<u8>, start: u16, blocks: nat, block: nat)
    requires block <= blocks && BLOCK * blocks <= |mem|
    ensures ReadLoop(mem, start, 0, blocks, block, []) == Err(CutOff)
    decreases blocks - block
  {
    if block < blocks {
      assert mem[BLOCK * block..BLOCK * block + 0] == [];
      NothingIsCopied(mem, start, blocks, block + 1);
    }
  }

  /** A non-empty message that was read is the first message of the whole area. */
  lemma ReadMessageIsTheWholeAreas(mem: seq<u8>, start: u16, area: u16)
    requires start + area <= 65532 && 0 < start + area && start < READ_MAX && BLOCK * CeilDiv(start + area, BLOCK) <= |mem|
    requires ReadNdef(mem, start, area).Ok? && ReadNdef(mem, start, area).ndef != []
    ensures ReadNdef(mem, start, area) == Read(Whole(mem[..BLOCK * CeilDiv(start + area, BLOCK)], start))
  {
    var blocks := CeilDiv(start + area, BLOCK);
    ReadNdefIsFirstVerdictExactlyUpTo65532(mem, start, area);
    MessageIsTheWholeAreas(mem[..BLOCK * blocks], start, Rounds(0, blocks));
  }

  /** Reading block by block is scanning at once exactly when no block ends a misleading prefix. */
  lemma PiecemealIsWholeExactlyUnlessMisled(mem: seq<u8>, start: u16, area: u16)
    requires start + area <= 65532 && 0 < start + area && start < READ_MAX && BLOCK * CeilDiv(start + area, BLOCK) <= |mem|
    ensures var blocks := CeilDiv(start + area, BLOCK);
            var all := mem[..BLOCK * blocks];
            ReadNdef(mem, start, area) == Read(Whole(all, start))
            <==> Whole(all, start) == Some([])
                 || forall n :: 0 < n <= blocks ==> !Misleading(all, start, BLOCK * n)
  {
    var blocks := CeilDiv(start + area, BLOCK);
    var all, rounds := mem[..BLOCK * blocks], Rounds(0, blocks);
    ReadNdefIsFirstVerdictExactlyUpTo65532(mem, start, area);
    IncrementalIsWholeExactlyUnlessMisled(all, start, rounds);
    forall n | 0 < n <= blocks ensures rounds[n - 1] == BLOCK * n {
    }
  }

  /** A message built behind the capability container, inside the area, is read back. */
  lemma BuiltMessageIsReadBack(mem: seq<u8>, start: u16, area: u16, ndef: Span)
    requires start + area <= 65532 && 0 < start + area && start < READ_MAX && BLOCK * CeilDiv(start + area, BLOCK) <= |mem|
    requires At(mem, start, MessageTlv(ndef)) && |MessageTlv(ndef)| <= area
    ensures ReadNdef(mem, start, area) == Ok(ndef)
  {
    var blocks := CeilDiv(start + area, BLOCK);
    var all, rounds := mem[..BLOCK * blocks], Rounds(0, blocks);
    assert |MessageTlv(ndef)| >= 3;
    ReadNdefIsFirstVerdictExactlyUpTo65532(mem, start, area);
    AtFits(mem, start, MessageTlv(ndef));
    assert all[start..start + |MessageTlv(ndef)|] == MessageTlv(ndef);
    BuiltMessageIsRead(all, start, rounds, ndef);
    assert rounds[blocks - 1] >= start + |MessageTlv(ndef)| - 1;
  }
}
