/** NDEF on a Type 2 tag: pages of four bytes, the capability container in page 3, the TLV area from page 4 on. */
module Type2Storage {
  import opened Bytes
  import opened NdefTlv
  import opened NdefScan
  import opened StorageWrite

  const PAGE := 4
  const CC_PAGE := 3
  const DATA_PAGE := 4
  const READ_BYTES := 16
  const MAX_PAGE := 225
  const SCAN_MAX := 912
  /** The first end of a round that is past the last page a read looks at. */
  const LAST_READ := 900
  /** Offset of the TLV area in what is read, which starts with the capability container. */
  const TLV_START := 4
  const CC_MAGIC: u8 := 0xE1

  datatype Cc = Cc(area: u16, readOpen: bool, writeOpen: bool)

  datatype Error = ReadFailed | BadCc | ReadRestricted | WriteRestricted | TooLarge | PageRange | CutOff | WriteFailed

  datatype Result<+T> = Ok(value: T) | Err(error: Error)

  function ParseCc(cc: seq<u8>): Option<Cc>
    requires |cc| == PAGE
  {
    if cc[0] != CC_MAGIC || cc[2] == 0 then None else Some(Cc(cc[2] as int * 8, cc[3] / 16 == 0, cc[3] % 16 == 0))
  }

  function ReadCc(mem: seq<u8>): Result<Cc> {
    if |mem| < 16 then Err(ReadFailed)
    else match ParseCc(mem[12..16])
      case None => Err(BadCc)
      case Some(cc) => Ok(cc)
  }

  function Pages(n: nat): (p: nat)
    ensures n <= 4 * p < n + 4
  {
    CeilDiv(n, PAGE)
  }

  /** The number of pages, from the capability container on, that a read looks at. */
  function UnitLimit(area: u16): nat {
    Min(Pages(TLV_START + area), Min(Pages(TLV_START + Min(area, SCAN_MAX)), MAX_PAGE - CC_PAGE + 1))
  }

  /** The limit on pages is in the way of data areas above 888 bytes. */
  lemma UnitLimitIs(area: u16)
    ensures UnitLimit(area) == Min(Pages(TLV_START + area), MAX_PAGE - CC_PAGE + 1)
    ensures UnitLimit(area) <= Pages(TLV_START + area)
  {
    hide Pages;
  }

  // ---- Reading ----

  /** The read loop, with `raw` already read. */
  function ReadLoop(mem: seq<u8>, total: nat, units: nat, raw: seq<u8>): Result<seq<u8>>
    requires |raw| <= total && units <= Pages(total)
    decreases total - |raw|
  {
    if Pages(|raw|) >= units then Err(CutOff)
    else
      var at, want := PAGE * (CC_PAGE + Pages(|raw|)), Min(READ_BYTES, total - |raw|);
      if at + want > |mem| then Err(ReadFailed)
      else
        var longer := raw + mem[at..at + want];
        match Verdict(longer, TLV_START, total)
        case Some(ndef) => Ok(ndef)
        case None => ReadLoop(mem, total, units, longer)
  }

  function ReadNdef(mem: seq<u8>): Result<seq<u8>> {
    match ReadCc(mem)
    case Err(e) => Err(e)
    case Ok(cc) =>
      if !cc.readOpen then Err(ReadRestricted) else ReadLoop(mem, TLV_START + cc.area, UnitLimit(cc.area), mem[12..16])
  }

  /** The same with a capability container that is already known: left by an earlier read, or offered by the reader. */
  function ReadKnown(mem: seq<u8>, container: seq<u8>): Result<seq<u8>>
    requires |container| == PAGE
  {
    match ParseCc(container)
    case None => Err(BadCc)
    case Some(cc) =>
      if !cc.readOpen then Err(ReadRestricted) else ReadLoop(mem, TLV_START + cc.area, UnitLimit(cc.area), container)
  }

  /** A known container stands for the one on the tag: the read is that of a tag that has it in page 3. */
  lemma KnownContainerStandsForPageThree(mem: seq<u8>, container: seq<u8>)
    requires |container| == PAGE && 16 <= |mem|
    ensures ReadKnown(mem, container) == ReadNdef(Store(mem, 12, container))
  {
    hide ParseCc, ReadLoop, UnitLimit;
    var after := Store(mem, 12, container);
    assert after[12..16] == container;
    match ParseCc(container)
    case None =>
    case Some(cc) =>
      UnitLimitIs(cc.area);
      ReadLoopSkipsPageThree(mem, after, TLV_START + cc.area, UnitLimit(cc.area), container);
  }

  lemma {:induction false} ReadLoopSkipsPageThree(mem: seq<u8>, after: seq<u8>, total: nat, units: nat, raw: seq<u8>)
    requires |after| == |mem| >= 16 && after[16..] == mem[16..]
    requires PAGE <= |raw| <= total && units <= Pages(total)
    ensures ReadLoop(after, total, units, raw) == ReadLoop(mem, total, units, raw)
    decreases total - |raw|
  {
    hide Verdict, Pages;
    if Pages(|raw|) < units {
      PagesLeft(|raw|, total, units);
      var at, want := PAGE * (CC_PAGE + Pages(|raw|)), Min(READ_BYTES, total - |raw|);
      if at + want <= |mem| {
        SameBehind(mem, after, at, at + want);
        ReadLoopSkipsPageThree(mem, after, total, units, raw + mem[at..at + want]);
      }
    }
  }

  lemma SameBehind(mem: seq<u8>, after: seq<u8>, from: nat, to: nat)
    requires |after| == |mem| >= 16 && after[16..] == mem[16..] && 16 <= from <= to <= |mem|
    ensures after[from..to] == mem[from..to]
  {
    forall i | 16 <= i < |mem| ensures after[i] == mem[i] {
      assert after[16..][i - 16] == mem[16..][i - 16];
    }
  }

  /** One round of the loop. */
  lemma ReadRound(mem: seq<u8>, total: nat, units: nat, raw: seq<u8>, longer: seq<u8>)
    requires |raw| <= total && Pages(|raw|) < units <= Pages(total)
    requires var at, want := PAGE * (CC_PAGE + Pages(|raw|)), Min(READ_BYTES, total - |raw|);
             at + want <= |mem| ==> longer == raw + mem[at..at + want]
    requires |longer| <= total
    ensures ReadLoop(mem, total, units, raw)
            == if PAGE * (CC_PAGE + Pages(|raw|)) + Min(READ_BYTES, total - |raw|) > |mem| then Err(ReadFailed)
               else match Verdict(longer, TLV_START, total)
                    case Some(ndef) => Ok(ndef)
                    case None => ReadLoop(mem, total, units, longer)
  {
    hide Verdict;
  }

  lemma ReadEnds(mem: seq<u8>, total: nat, units: nat, raw: seq<u8>)
    requires |raw| <= total && units <= Pages(total) && Pages(|raw|) >= units
    ensures ReadLoop(mem, total, units, raw) == Err(CutOff)
  {
  }

  lemma PagesAdd(k: nat, want: nat)
    ensures Pages(PAGE * k + want) == k + Pages(want) && Pages(PAGE * k) == k
    ensures want == READ_BYTES ==> Pages(want) == 4
  {
    hide Pages;
  }

  lemma PagesLeft(n: nat, total: nat, units: nat)
    requires Pages(n) < units <= Pages(total) && n <= total
    ensures n < total
  {
  }

  lemma NextUnits(n: nat, unitIndex: nat, total: nat, units: nat, want: nat)
    requires n <= total && (n == PAGE * unitIndex || n == total) && unitIndex == Pages(n)
    requires unitIndex < units <= Pages(total) && want == Min(READ_BYTES, total - n)
    ensures n < total && Off(CC_PAGE + unitIndex, PAGE) == PAGE * (CC_PAGE + unitIndex)
    ensures (n + want == PAGE * (unitIndex + Pages(want)) || n + want == total) && unitIndex + Pages(want) == Pages(n + want)
  {
    hide Pages;
    PagesAdd(unitIndex, want);
    OffOfFour(CC_PAGE + unitIndex);
  }

  method ReadStorageNdefTlv(mem: UnitMemory, area: u16, seed: seq<u8>) returns (r: Result<seq<u8>>)
    requires mem.unitSize == PAGE && |seed| == PAGE && TLV_START + area <= 0xFFFF
    ensures r == ReadLoop(mem.data, TLV_START + area, UnitLimit(area), seed)
  {
    hide Verdict, UnitLimit, Pages, Off, ReadLoop;
    var total: u16 := TLV_START + area;
    var units := UnitLimit(area);
    var raw := seed;
    var unitIndex := 1;
    UnitLimitIs(area);
    while unitIndex < units
      invariant |raw| <= total && (|raw| == PAGE * unitIndex || |raw| == total) && unitIndex == Pages(|raw|)
      invariant ReadLoop(mem.data, total, units, seed) == ReadLoop(mem.data, total, units, raw)
      decreases total - |raw|
    {
      var want := Min(READ_BYTES, total - |raw|);
      NextUnits(|raw|, unitIndex, total, units, want);
      var chunk := mem.Read(CC_PAGE + unitIndex, want);
      if chunk.None? {
        ReadRound(mem.data, total, units, raw, raw);
        return Err(ReadFailed);
      }
      ReadRound(mem.data, total, units, raw, raw + chunk.value);
      raw := raw + chunk.value;
      unitIndex := unitIndex + Pages(want);
      var verdict := ScanRaw(raw, TLV_START, total);
      if verdict.Some? {
        return Ok(verdict.value);
      }
    }
    ReadEnds(mem.data, total, units, raw);
    return Err(CutOff);
  }

  /** `known` is what the caller has of the capability container, `offered` what the reader gives of it without a read. */
  method ReadType2StorageNdef(mem: UnitMemory, known: seq<u8>, offered: seq<u8>) returns (r: Result<seq<u8>>)
    requires mem.unitSize == PAGE
    ensures r == if |known| >= PAGE then ReadKnown(mem.data, known[..PAGE])
                 else if |offered| >= PAGE then ReadKnown(mem.data, offered[..PAGE])
                 else ReadNdef(mem.data)
  {
    hide ReadLoop, UnitLimit;
    var container := known;
    if |container| < PAGE && offered != [] {
      container := offered;
    }
    if |container| < PAGE {
      var page := mem.Read(CC_PAGE, PAGE);
      if page.None? {
        return Err(ReadFailed);
      }
      container := page.value;
      assert container[..PAGE] == mem.data[12..16];
    }
    container := container[..PAGE];
    var cc := ParseCc(container);
    if cc.None? {
      return Err(BadCc);
    }
    if !cc.value.readOpen {
      return Err(ReadRestricted);
    }
    r := ReadStorageNdefTlv(mem, cc.value.area, container);
  }

  // ---- Writing ----

  /** What is to be written, or why nothing is. */
  function WritePlan(mem: seq<u8>, ndef: seq<u8>): Result<seq<u8>> {
    match ReadCc(mem)
    case Err(e) => Err(e)
    case Ok(cc) =>
      if !cc.writeOpen then Err(WriteRestricted)
      else if |ndef| > 0xFFFF || EnvelopeLen(|ndef|) > cc.area then Err(TooLarge)
      else if DATA_PAGE + Pages(EnvelopeLen(|ndef|)) - 1 > MAX_PAGE then Err(PageRange)
      else Ok(Padded(MessageTlv(ndef), PAGE))
  }

  method WriteType2StorageNdef(mem: UnitMemory, ndef: seq<u8>) returns (r: Result<()>)
    requires mem.unitSize == PAGE
    modifies mem
    ensures match WritePlan(old(mem.data), ndef)
            case Err(e) => r == Err(e) && mem.data == old(mem.data)
            case Ok(image) =>
              if r.Ok? then
                DATA_PAGE * PAGE + |image| <= |old(mem.data)| && mem.data == Store(old(mem.data), DATA_PAGE * PAGE, image)
              else r.error == WriteFailed && Progress(old(mem.data), mem.data, DATA_PAGE * PAGE, 0, image)
    ensures WritePlan(old(mem.data), ndef).Ok? ==>
              (r.Ok? <==> DATA_PAGE * PAGE + |WritePlan(old(mem.data), ndef).value| <= |old(mem.data)|
                          && mem.faults == old(mem.faults))
  {
    var page := mem.Read(CC_PAGE, PAGE);
    if page.None? {
      return Err(ReadFailed);
    }
    var cc := ParseCc(page.value);
    if cc.None? {
      return Err(BadCc);
    }
    if !cc.value.writeOpen {
      return Err(WriteRestricted);
    }
    if |ndef| > 0xFFFF {
      return Err(TooLarge);
    }
    var area := new u8[cc.value.area](_ => 0);
    var built, len := BuildMessageTlv(ndef, area);
    if !built {
      return Err(TooLarge);
    }
    if DATA_PAGE + Pages(len) - 1 > MAX_PAGE {
      return Err(PageRange);
    }
    assert area[..len] == MessageTlv(ndef);
    var done := WriteUnits(mem, DATA_PAGE, area[..len]);
    if !done {
      return Err(WriteFailed);
    }
    CompleteIsStored(old(mem.data), mem.data, DATA_PAGE * PAGE, Padded(MessageTlv(ndef), PAGE));
    return Ok(());
  }

  // ---- What the bytes of the container mean ----

  lemma {:induction false} ReadLoopErrors(mem: seq<u8>, total: nat, units: nat, raw: seq<u8>)
    requires |raw| <= total && units <= Pages(total)
    ensures var r := ReadLoop(mem, total, units, raw); r.Err? ==> r.error == CutOff || r.error == ReadFailed
    decreases total - |raw|
  {
    hide Verdict, Pages;
    if Pages(|raw|) < units {
      PagesLeft(|raw|, total, units);
      var at, want := PAGE * (CC_PAGE + Pages(|raw|)), Min(READ_BYTES, total - |raw|);
      if at + want <= |mem| {
        ReadLoopErrors(mem, total, units, raw + mem[at..at + want]);
      }
    }
  }

  /** Of a known container: the first byte must be E1 and the third not zero, the high half of the fourth governs reading. */
  lemma KnownContainerMeans(mem: seq<u8>, container: seq<u8>)
    requires |container| == PAGE
    ensures ReadKnown(mem, container) == Err(BadCc) <==> container[0] != 0xE1 || container[2] == 0
    ensures ReadKnown(mem, container) == Err(ReadRestricted)
            <==> container[0] == 0xE1 && container[2] != 0 && container[3] >= 0x10
  {
    hide ReadLoop, UnitLimit;
    if container[0] == 0xE1 && container[2] != 0 {
      var area: u16 := container[2] as int * 8;
      UnitLimitIs(area);
      ReadLoopErrors(mem, TLV_START + area, UnitLimit(area), container);
    }
  }

  /** The same of a tag: bytes 12, 14 and 15 decide on reading, and the low half of byte 15 on writing. */
  lemma ContainerMeans(mem: seq<u8>, ndef: seq<u8>)
    requires 16 <= |mem|
    ensures ReadNdef(mem) == Err(BadCc) <==> mem[12] != 0xE1 || mem[14] == 0
    ensures WritePlan(mem, ndef) == Err(BadCc) <==> mem[12] != 0xE1 || mem[14] == 0
    ensures mem[12] == 0xE1 && mem[14] != 0 ==>
              && (ReadNdef(mem) == Err(ReadRestricted) <==> mem[15] >= 0x10)
              && (WritePlan(mem, ndef) == Err(WriteRestricted) <==> mem[15] % 0x10 != 0)
              && ReadCc(mem).Ok? && ReadCc(mem).value.area == 8 * mem[14] as int
              && (mem[15] % 0x10 == 0 ==>
                    (WritePlan(mem, ndef) == Err(TooLarge)
                     <==> |ndef| > 0xFFFF || |ndef| + (if |ndef| < 255 then 3 else 5) > 8 * mem[14] as int)
                    && (WritePlan(mem, ndef) == Err(PageRange)
                        <==> 888 < |ndef| + 5 <= 8 * mem[14] as int))
  {
    hide ReadLoop, UnitLimit, Pages;
    assert mem[12..16] == [mem[12], mem[13], mem[14], mem[15]];
    if mem[12] == 0xE1 && mem[14] != 0 {
      var area: u16 := mem[14] as int * 8;
      UnitLimitIs(area);
      ReadLoopErrors(mem, TLV_START + area, UnitLimit(area), mem[12..16]);
    }
  }

  // ---- What is written can be read ----

  /** An accepted image lies in the data area and on pages that a read looks at. */
  lemma CapsNeverHideAWrittenPage(mem: seq<u8>, ndef: Span)
    requires WritePlan(mem, ndef).Ok?
    ensures var area, image := ReadCc(mem).value.area, WritePlan(mem, ndef).value;
            && |image| <= area && |image| % PAGE == 0
            && DATA_PAGE * PAGE + |image| <= PAGE * (CC_PAGE + UnitLimit(area)) <= PAGE * (MAX_PAGE + 1)
  {
    hide UnitLimit, MessageTlv, Pages, ReadCc, EnvelopeLen, Padded;
    var area, n := ReadCc(mem).value.area, |MessageTlv(ndef)|;
    BuildSize(ndef);
    PaddedToPages(MessageTlv(ndef));
    UnitLimitIs(area);
    var eights := AreaInEights(mem);
    EnvelopeIsNotEmpty(|ndef|);
    PagesFit(n, eights);
  }

  lemma EnvelopeIsNotEmpty(n: u16)
    ensures EnvelopeLen(n) > 0
  {
  }

  lemma AreaInEights(mem: seq<u8>) returns (eights: nat)
    requires ReadCc(mem).Ok?
    ensures ReadCc(mem).value.area == 8 * eights
  {
    eights := mem[14];
  }

  lemma PaddedToPages(bytes: seq<u8>)
    ensures |Padded(bytes, PAGE)| == 4 * Pages(|bytes|) && |Padded(bytes, PAGE)| % PAGE == 0
  {
    hide CeilDiv, Off, Padded;
    OffOfFour(CeilDiv(|bytes|, PAGE));
    FourTimes(Pages(|bytes|));
  }

  lemma FourTimes(k: nat)
    ensures (4 * k) % PAGE == 0
  {
  }

  lemma PagesFit(n: nat, eights: nat)
    requires 0 < n <= 8 * eights && DATA_PAGE + Pages(n) - 1 <= MAX_PAGE
    ensures 4 * Pages(n) <= 8 * eights
    ensures 4 + Pages(n) <= CC_PAGE + Min(Pages(TLV_START + 8 * eights), MAX_PAGE - CC_PAGE + 1)
  {
    hide Pages;
  }

  function Reads(n: nat): (k: nat)
    ensures n <= 16 * k < n + 16
  {
    CeilDiv(n, READ_BYTES)
  }

  /** How much is read before a message whose last byte has offset `end` in what is read can be given out. */
  function Reach(total: nat, end: nat): nat {
    Min(total, TLV_START + 16 * Reads(Max(end - TLV_START, 0)))
  }

  /** Where the rounds of the read loop end, but for the last: whole reads of sixteen bytes behind the container. */
  predicate RoundEnd(n: nat) { n % 16 == TLV_START }

  lemma RoundIndex(n: nat) returns (k: nat)
    requires RoundEnd(n)
    ensures n == TLV_START + 16 * k
  {
    k := n / 16;
  }

  lemma NextRoundEnd(n: nat)
    requires RoundEnd(n)
    ensures RoundEnd(n + READ_BYTES) && RoundEnd(LAST_READ) && n % PAGE == 0
  {
  }

  lemma ReachFrom(n: nat, total: nat, end: nat)
    requires RoundEnd(n) && n < end <= total
    ensures n % PAGE == 0
    ensures var m, need := Min(n + READ_BYTES, total), Reach(total, end);
            m <= need && (end <= m ==> need == m) && (m < end ==> RoundEnd(m))
  {
    hide Reach, RoundEnd;
    NextRoundEnd(n);
    var k := RoundIndex(n);
    ReachFromRound(k, total, end);
  }

  lemma ReachFromRound(k: nat, total: nat, end: nat)
    requires TLV_START + 16 * k < end <= total
    ensures var m, need := Min(TLV_START + 16 * (k + 1), total), Reach(total, end);
            m <= need && (end <= m ==> need == m)
  {
    hide Reads;
  }

  /** One round of the read loop on a page boundary. */
  lemma ReadStep(mem: seq<u8>, total: nat, units: nat, n: nat)
    requires n < total && n % PAGE == 0 && 12 + n <= |mem| && n < PAGE * units && units <= Pages(total)
    ensures var m := Min(n + READ_BYTES, total);
            ReadLoop(mem, total, units, mem[12..12 + n])
            == if 12 + m > |mem| then Err(ReadFailed)
               else match Verdict(mem[12..12 + m], TLV_START, total)
                    case Some(ndef) => Ok(ndef)
                    case None => ReadLoop(mem, total, units, mem[12..12 + m])
  {
    hide Verdict, Pages;
    var m := Min(n + READ_BYTES, total);
    assert PAGE * Pages(n) == n;
    if 12 + m <= |mem| {
      assert mem[12..12 + n] + mem[12 + n..12 + m] == mem[12..12 + m];
    }
  }

  lemma {:induction false} ReadLoopFindsTheMessage(mem: seq<u8>, total: nat, units: nat, n: nat, ndef: Span)
    requires RoundEnd(n) && n <= total && 12 + n <= |mem|
    requires units <= Pages(total)
    requires At(mem, DATA_PAGE * PAGE, MessageTlv(ndef))
    requires n < TLV_START + |MessageTlv(ndef)| - 1 <= Min(total, PAGE * units)
    ensures var need := Reach(total, TLV_START + |MessageTlv(ndef)| - 1);
            ReadLoop(mem, total, units, mem[12..12 + n]) == if 12 + need <= |mem| then Ok(ndef) else Err(ReadFailed)
    decreases total - n
  {
    hide Verdict, MessageTlv, Reach, Pages, ReadLoop, RoundEnd, At;
    var m, end := Min(n + READ_BYTES, total), TLV_START + |MessageTlv(ndef)| - 1;
    ReachFrom(n, total, end);
    ReadStep(mem, total, units, n);
    if 12 + m <= |mem| {
      VerdictOnMemory(mem, total, m, ndef);
      if m < end {
        ReadLoopFindsTheMessage(mem, total, units, m, ndef);
      }
    }
  }

  /**
    * Reading after a write gives the message back exactly when the memory reaches as far as the read that completes it,
    * and read access is open.
    */
  lemma ReadAfterWrite(mem: seq<u8>, ndef: Span)
    requires WritePlan(mem, ndef).Ok? && DATA_PAGE * PAGE + |WritePlan(mem, ndef).value| <= |mem|
    ensures var cc, image := ReadCc(mem).value, WritePlan(mem, ndef).value;
            var r := ReadNdef(Store(mem, DATA_PAGE * PAGE, image));
            if !cc.readOpen then r == Err(ReadRestricted)
            else if 12 + Reach(TLV_START + cc.area, TLV_START + |MessageTlv(ndef)| - 1) <= |mem| then r == Ok(ndef)
            else r == Err(ReadFailed)
  {
    hide ReadLoop, Reach, MessageTlv, ParseCc;
    var cc, image := ReadCc(mem).value, WritePlan(mem, ndef).value;
    var after := Store(mem, DATA_PAGE * PAGE, image);
    CapsNeverHideAWrittenPage(mem, ndef);
    var t := MessageTlv(ndef);
    assert after[16..16 + |t|] == image[..|t|] == t;
    assert after[12..16] == after[..16][12..16] == mem[12..16];
    BuildSize(ndef);
    ReadLoopFindsTheMessage(after, TLV_START + cc.area, UnitLimit(cc.area), TLV_START, ndef);
  }

  /** On a memory that covers the declared data area every message that can be written can be read. */
  lemma EveryWrittenMessageIsRead(mem: seq<u8>, ndef: Span)
    requires WritePlan(mem, ndef).Ok? && ReadCc(mem).value.readOpen
    requires DATA_PAGE * PAGE + ReadCc(mem).value.area <= |mem|
    ensures DATA_PAGE * PAGE + |WritePlan(mem, ndef).value| <= |mem|
    ensures ReadNdef(Store(mem, DATA_PAGE * PAGE, WritePlan(mem, ndef).value)) == Ok(ndef)
  {
    CapsNeverHideAWrittenPage(mem, ndef);
    ReadAfterWrite(mem, ndef);
  }

  lemma ReachWithinPage225(area: nat, n: nat)
    requires 0 < n <= 888
    ensures 12 + Reach(TLV_START + area, TLV_START + n - 1) <= PAGE * (MAX_PAGE + 1) <==> n <= 881 || area <= 888
  {
    hide Reads;
  }

  /** A memory that ends with page 225, as the firmware's own span check has it, gives back all but the longest messages. */
  lemma LastPagesCannotBeReadBack(mem: seq<u8>, ndef: Span)
    requires WritePlan(mem, ndef).Ok? && ReadCc(mem).value.readOpen && |mem| == PAGE * (MAX_PAGE + 1)
    ensures DATA_PAGE * PAGE + |WritePlan(mem, ndef).value| <= |mem|
    ensures ReadNdef(Store(mem, DATA_PAGE * PAGE, WritePlan(mem, ndef).value)) == Ok(ndef)
            <==> |MessageTlv(ndef)| <= 881 || ReadCc(mem).value.area <= 888
  {
    hide ReadNdef, Reach, Pages, Store, MessageTlv, ReadCc, UnitLimit;
    CapsNeverHideAWrittenPage(mem, ndef);
    ReadAfterWrite(mem, ndef);
    BuildSize(ndef);
    ReachWithinPage225(ReadCc(mem).value.area, |MessageTlv(ndef)|);
  }

  lemma VerdictOnMemory(mem: seq<u8>, total: nat, m: nat, ndef: Span)
    requires 12 + m <= |mem| && At(mem, DATA_PAGE * PAGE, MessageTlv(ndef))
    ensures Verdict(mem[12..12 + m], TLV_START, total)
            == if m >= TLV_START + |MessageTlv(ndef)| - 1 then Some(ndef) else None
  {
    AtFits(mem, DATA_PAGE * PAGE, MessageTlv(ndef));
    assert mem[12..][TLV_START..TLV_START + |MessageTlv(ndef)|] == MessageTlv(ndef);
    PrefixOfBuilt(mem[12..], TLV_START, m, total, ndef);
    assert mem[12..][..m] == mem[12..12 + m];
  }

  // ---- Reading piecemeal and scanning at once ----

  /** How much has been read after each round, from `n` bytes on. */
  function Rounds(n: nat, total: nat, units: nat): seq<nat>
    requires n <= total && units <= Pages(total)
    decreases total - n
  {
    if Pages(n) >= units then []
    else
      PagesLeft(n, total, units);
      var m := Min(n + READ_BYTES, total);
      [m] + Rounds(m, total, units)
  }

  lemma {:induction false} RoundsGrow(n: nat, total: nat, units: nat)
    requires RoundEnd(n) && n <= total && units <= Pages(total)
    ensures var r := Rounds(n, total, units); Increasing(r, total) && forall i :: 0 <= i < |r| ==> r[i] > n
    decreases total - n
  {
    hide Pages, RoundEnd;
    if Pages(n) < units {
      PagesLeft(n, total, units);
      NextRoundEnd(n);
      var m := Min(n + READ_BYTES, total);
      if m < total {
        RoundsGrow(m, total, units);
      } else {
        assert Rounds(m, total, units) == [];
      }
    }
  }

  lemma RoundEndsApart(n: nat, m: nat)
    requires RoundEnd(n) && RoundEnd(m) && n < m
    ensures n + READ_BYTES <= m
  {
    hide RoundEnd;
    var j := RoundIndex(n);
    var k := RoundIndex(m);
  }

  /** The rounds look at every sixteenth byte up to the last, which is the end of the area or byte 900. */
  lemma {:induction false} RoundsAre(n: nat, total: nat, units: nat)
    requires RoundEnd(n) && n < Min(total, LAST_READ) && units == Min(Pages(total), MAX_PAGE - CC_PAGE + 1)
    ensures var r := Rounds(n, total, units);
            && r != [] && r[|r| - 1] == Min(total, LAST_READ)
            && forall m: nat :: m < total ==> (m in r <==> RoundEnd(m) && n < m <= LAST_READ)
    decreases total - n
  {
    hide Pages, RoundEnd;
    NextRoundEnd(n);
    RoundGoesOn(n, total);
    var m, r := Min(n + READ_BYTES, total), Rounds(n, total, units);
    forall k: nat | RoundEnd(k) && n < k ensures n + READ_BYTES <= k {
      RoundEndsApart(n, k);
    }
    if m < Min(total, LAST_READ) {
      RoundsAre(m, total, units);
      assert r == [m] + Rounds(m, total, units);
    } else {
      if m < LAST_READ {
        assert m == total;
      } else {
        RoundEndsApart(n, LAST_READ);
      }
      RoundsStop(m, total);
      assert r == [m];
    }
  }

  lemma RoundGoesOn(n: nat, total: nat)
    requires RoundEnd(n) && n < Min(total, LAST_READ)
    ensures Pages(n) < Min(Pages(total), MAX_PAGE - CC_PAGE + 1)
  {
    hide Pages, RoundEnd;
    NextRoundEnd(n);
    RoundEndsApart(n, LAST_READ);
  }

  lemma RoundsStop(m: nat, total: nat)
    requires m == Min(total, LAST_READ)
    ensures Pages(m) >= Min(Pages(total), MAX_PAGE - CC_PAGE + 1)
  {
    hide Pages;
  }

  lemma {:induction false} ReadLoopIsFirstVerdict(mem: seq<u8>, total: nat, units: nat, n: nat)
    requires RoundEnd(n) && n <= total && 12 + total <= |mem| && units <= Pages(total)
    ensures Increasing(Rounds(n, total, units), total)
    ensures ReadLoop(mem, total, units, mem[12..12 + n])
            == match FirstVerdict(mem[12..12 + total], TLV_START, Rounds(n, total, units))
               case Some(ndef) => Ok(ndef)
               case None => Err(CutOff)
    decreases total - n
  {
    hide Verdict, RoundEnd, Pages;
    RoundsGrow(n, total, units);
    if Pages(n) < units {
      PagesLeft(n, total, units);
      NextRoundEnd(n);
      var m := Min(n + READ_BYTES, total);
      ReadStep(mem, total, units, n);
      assert mem[12..12 + total][..m] == mem[12..12 + m];
      assert Rounds(n, total, units)[1..] == Rounds(m, total, units);
      if m < total {
        ReadLoopIsFirstVerdict(mem, total, units, m);
      } else {
        assert Rounds(m, total, units) == [];
      }
    }
  }

  /** What a scan of the whole area gives. */
  function WholeResult(mem: seq<u8>, total: nat): Result<seq<u8>>
    requires 12 + total <= |mem|
  {
    match Whole(mem[12..12 + total], TLV_START)
    case Some(ndef) => Ok(ndef)
    case None => Err(CutOff)
  }

  /** A non-empty message that was read is the first message of the whole area. */
  lemma ReadMessageIsTheWholeAreas(mem: seq<u8>)
    requires ReadNdef(mem).Ok? && ReadNdef(mem).value != []
    requires 12 + TLV_START + ReadCc(mem).value.area <= |mem|
    ensures ReadNdef(mem) == WholeResult(mem, TLV_START + ReadCc(mem).value.area)
  {
    var area := ReadCc(mem).value.area;
    var total, units := TLV_START + area, UnitLimit(area);
    assert mem[12..12 + TLV_START] == mem[12..16];
    ReadLoopIsFirstVerdict(mem, total, units, TLV_START);
    MessageIsTheWholeAreas(mem[12..12 + total], TLV_START, Rounds(TLV_START, total, units));
  }

  /** One of the looks taken at the area, sixteen bytes apart and never past byte 900, misleads. */
  predicate Misled(area: seq<u8>) {
    exists n: nat :: RoundEnd(n) && TLV_START < n <= LAST_READ && n < |area| && Misleading(area, TLV_START, n)
  }

  /** What reading piecemeal gives, for every data area in terms of a scan of all of it. */
  lemma PiecemealReadIs(mem: seq<u8>)
    requires ReadCc(mem).Ok? && ReadCc(mem).value.readOpen
    requires 12 + TLV_START + ReadCc(mem).value.area <= |mem|
    ensures var total := TLV_START + ReadCc(mem).value.area;
            var area := mem[12..12 + total];
            ReadNdef(mem) == if Misled(area) then Ok([])
                             else if Reached(area, TLV_START, Min(total, LAST_READ)) then WholeResult(mem, total)
                             else Err(CutOff)
  {
    hide ReadLoop, FirstVerdict, Misleading, Misled, Whole, Reached, Rounds, RoundEnd, UnitLimit;
    UnitLimitIs(ReadCc(mem).value.area);
    FirstRoundEnd();
    var total, units := TLV_START + ReadCc(mem).value.area, UnitLimit(ReadCc(mem).value.area);
    var area, rounds := mem[12..12 + total], Rounds(TLV_START, total, units);
    assert mem[12..12 + TLV_START] == mem[12..16];
    ReadLoopIsFirstVerdict(mem, total, units, TLV_START);
    RoundsAre(TLV_START, total, units);
    FirstVerdictIs(area, TLV_START, rounds);
    MisledByRounds(area, rounds);
  }

  /**
    * So it is scanning at once exactly when no look misleads and what the whole scan stops at ends by byte 900; or when one
    * misleads and the message is empty anyway.
    */
  lemma PiecemealIsWholeExactly(mem: seq<u8>)
    requires ReadCc(mem).Ok? && ReadCc(mem).value.readOpen
    requires 12 + TLV_START + ReadCc(mem).value.area <= |mem|
    ensures var total := TLV_START + ReadCc(mem).value.area;
            var area := mem[12..12 + total];
            ReadNdef(mem) == WholeResult(mem, total)
            <==> if Misled(area) then Whole(area, TLV_START) == Some([]) else Reached(area, TLV_START, Min(total, LAST_READ))
  {
    hide ReadNdef, Misled, Find;
    PiecemealReadIs(mem);
  }

  lemma FirstRoundEnd()
    ensures RoundEnd(TLV_START)
  {
  }

  lemma MisledByRounds(area: seq<u8>, rounds: seq<nat>)
    requires Increasing(rounds, |area|)
    requires forall m: nat :: m < |area| ==> (m in rounds <==> RoundEnd(m) && TLV_START < m <= LAST_READ)
    ensures Misled(area) <==> exists i :: 0 <= i < |rounds| && Misleading(area, TLV_START, rounds[i])
  {
    hide RoundEnd, Misleading;
    assert forall n: nat :: n <= |area| && Misleading(area, TLV_START, n) ==> n < |area| by { MisleadingIsInside(area); }
    if i :| 0 <= i < |rounds| && Misleading(area, TLV_START, rounds[i]) {
      assert rounds[i] in rounds;
    }
    if n: nat :| RoundEnd(n) && TLV_START < n <= LAST_READ && n < |area| && Misleading(area, TLV_START, n) {
      var i :| 0 <= i < |rounds| && rounds[i] == n;
    }
  }

  lemma MisleadingIsInside(area: seq<u8>)
    ensures forall n: nat :: n <= |area| && Misleading(area, TLV_START, n) ==> n < |area|
  {
  }

  /** The container of a tag with 904 bytes of data area, and a message of 900 bytes that fills it. */
  function FullTag(ndef: Span): seq<u8>
    requires |ndef| == 900
  {
    Zeros(12) + [CC_MAGIC, 0x10, 113, 0x00] + (Header(MESSAGE, 900, true) + ndef)
  }

  /** Such a message is in the area, and no terminator is needed behind it; but it ends at byte 908 and is not read. */
  lemma AMessagePastByte900IsNotRead(ndef: Span)
    requires |ndef| == 900
    ensures var mem := FullTag(ndef); |mem| == 920 && WholeResult(mem, 908) == Ok(ndef) && ReadNdef(mem) == Err(CutOff)
  {
    hide Header, Find, Misleading, ReadNdef, RoundEnd, Next, At;
    var mem, b := FullTag(ndef), Tlv(MESSAGE, ndef, true);
    HeaderSize(MESSAGE, 900);
    assert mem[12..16] == [CC_MAGIC, 0x10, 113, 0x00];
    var area := mem[12..920];
    assert area[TLV_START..] == b.Code();
    AtSlice(area, TLV_START, |area|);
    MessageIsFound(area, TLV_START, b);
    forall n: nat | TLV_START < n < |area| ensures !Misleading(area, TLV_START, n) {
      CleanAreaNeverMisleads(area, TLV_START, n);
    }
    PiecemealReadIs(mem);
  }

  lemma HeaderSize(kind: u8, n: u16)
    ensures |Header(kind, n, true)| == 4
  {
  }

  /** A tag with 24 bytes of data area: a 14-byte block that begins with FE, and behind it a message of one byte. */
  predicate StrayTag(mem: seq<u8>) {
    && |mem| == 40 && mem[12] == CC_MAGIC && mem[14] == 3 && mem[15] == 0
    && mem[16..19] == [0x01, 14, TERMINATOR] && mem[32..35] == [MESSAGE, 1, 0xD0]
  }

  lemma StrayTagBytes(mem: seq<u8>)
    requires StrayTag(mem)
    ensures mem[16] == 0x01 && mem[17] == 14 && mem[18] == TERMINATOR && mem[32] == MESSAGE && mem[33] == 1 && mem[34] == 0xD0
  {
    assert mem[16..19][0] == 0x01 && mem[16..19][1] == 14 && mem[16..19][2] == TERMINATOR;
    assert mem[32..35][0] == MESSAGE && mem[32..35][1] == 1 && mem[32..35][2] == 0xD0;
  }

  lemma StrayTagScan(area: seq<u8>)
    requires |area| == 28 && area[4] == 0x01 && area[5] == 14 && area[20] == MESSAGE && area[21] == 1
    ensures Find(area, 4) == Hit(MESSAGE, 20, 22, 1) && Find(area[..20], 4) == Stop(20, false)
  {
    assert Next(area, 4) == Hit(1, 4, 6, 14) && Next(area, 20) == Hit(MESSAGE, 20, 22, 1);
    assert Next(area[..20], 4) == Hit(1, 4, 6, 14) && Next(area[..20], 20) == Stop(20, false);
    hide Next;
    assert Find(area, 20) == Next(area, 20) && Find(area[..20], 20) == Next(area[..20], 20);
  }

  /** On every such tag the message is in the area, yet the tag is reported empty: the first look ends between the blocks. */
  lemma AStrayTerminatorMakesATagEmpty(mem: seq<u8>)
    requires StrayTag(mem)
    ensures ReadCc(mem).Ok? && ReadCc(mem).value.area == 24
    ensures WholeResult(mem, 28) == Ok([0xD0]) && ReadNdef(mem) == Ok([])
  {
    hide Find, ReadNdef, FirstVerdict;
    StrayTagBytes(mem);
    assert mem[12..16] == [mem[12], mem[13], mem[14], mem[15]];
    var area := mem[12..40];
    StrayTagScan(area);
    assert area[22..23] == [0xD0];
    assert area[TLV_START..20][2] == TERMINATOR;
    assert RoundEnd(20) && Misleading(area, TLV_START, 20);
    PiecemealReadIs(mem);
  }
}
