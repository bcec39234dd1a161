/** The chunked unit writer over a tag memory whose writes can fail half-way. */
module StorageWrite {
  import opened Bytes

  const APDU_DATA_MAX := 252

  /** The byte at which unit `i` starts; also the size of `i` units. */
  function Off(i: nat, unitSize: nat): nat { i * unitSize }

  lemma OffAdds(i: nat, n: nat, unitSize: nat)
    ensures Off(i + n, unitSize) == Off(i, unitSize) + Off(n, unitSize)
  {
  }

  lemma OffOfFour(i: nat)
    ensures Off(i, 4) == 4 * i
  {
  }

  lemma OffMonotone(i: nat, j: nat, unitSize: nat)
    requires i <= j
    ensures Off(i, unitSize) <= Off(j, unitSize)
  {
  }

  lemma OffIsMonotone(i: nat, j: nat, unitSize: nat)
    ensures i <= j ==> Off(i, unitSize) <= Off(j, unitSize)
  {
    if i <= j {
      OffMonotone(i, j, unitSize);
    }
  }

  /** The largest chunk handed to one write. */
  function ChunkMax(unitSize: nat): nat { Max(APDU_DATA_MAX, unitSize) }

  /** The image written: the bytes, zero-padded to a whole unit. */
  function Padded(bytes: seq<u8>, unitSize: nat): (p: seq<u8>)
    requires unitSize > 0
    ensures |p| == Off(CeilDiv(|bytes|, unitSize), unitSize) && bytes <= p
  {
    CeilDivCovers(|bytes|, unitSize);
    bytes + Zeros(Off(CeilDiv(|bytes|, unitSize), unitSize) - |bytes|)
  }

  lemma CeilDivCovers(n: nat, unit: nat)
    requires unit > 0
    ensures n <= Off(CeilDiv(n, unit), unit) < n + unit
    ensures CeilDiv(n, unit) <= n
  {
    var q, r := (n + unit - 1) / unit, (n + unit - 1) % unit;
    assert n + unit - 1 == unit * q + r;
    assert unit * q == q * unit;
    OffMonotone(1, unit, n);
    assert (n + 1) * unit == n * unit + unit && unit * n == n * unit;
    if q > n {
      OffMonotone(n + 1, q, unit);
      assert false;
    }
  }

  lemma PaddedWithZeros(bytes: seq<u8>, unitSize: nat)
    requires unitSize > 0
    ensures var p := Padded(bytes, unitSize); |p| < |bytes| + unitSize && forall k :: |bytes| <= k < |p| ==> p[k] == 0
  {
    CeilDivCovers(|bytes|, unitSize);
  }

  /** `mem` with `s` stored at byte `at`. */
  function Store(mem: seq<u8>, at: nat, s: seq<u8>): (m: seq<u8>)
    requires at + |s| <= |mem|
    ensures |m| == |mem| && m[at..at + |s|] == s && m[..at] == mem[..at] && m[at + |s|..] == mem[at + |s|..]
  {
    mem[..at] + s + mem[at + |s|..]
  }

  /** `a` and `b` agree outside the bytes `lo` to `hi`. */
  predicate SameOutside(a: seq<u8>, b: seq<u8>, lo: nat, hi: nat) {
    |a| == |b| && lo <= hi <= |a| && a[..lo] == b[..lo] && a[hi..] == b[hi..]
  }

  datatype Call = Call(unit: u16, bytes: seq<u8>)

  /** A tag's memory in units. A write reaches only the units it names; if it fails, it may have left anything in them. */
  class UnitMemory {
    var data: seq<u8>
    const unitSize: u8
    ghost var calls: seq<Call>
    /** How many writes of a single unit inside the memory have failed. */
    ghost var faults: nat
    /** How many writes have failed. */
    ghost var failures: nat

    constructor (data: seq<u8>, unitSize: u8)
      ensures this.data == data && this.unitSize == unitSize && calls == [] && faults == 0 && failures == 0
    {
      this.data, this.unitSize, calls, faults, failures := data, unitSize, [], 0, 0;
    }

    method Write(unit: u16, bytes: seq<u8>) returns (ok: bool)
      modifies this
      ensures calls == old(calls) + [Call(unit, bytes)]
      ensures var at := Off(unit, unitSize);
              if at + |bytes| > |data| then !ok && data == old(data)
              else SameOutside(data, old(data), at, at + |bytes|) && (ok ==> data == Store(old(data), at, bytes))
      ensures var fault := !ok && Off(unit, unitSize) + |bytes| <= |data| && |bytes| == unitSize;
              faults == old(faults) + if fault then 1 else 0
      ensures failures == old(failures) + if ok then 0 else 1
    {
      calls := calls + [Call(unit, bytes)];
      var at := Off(unit, unitSize);
      if at + |bytes| > |data| {
        failures := failures + 1;
        return false;
      }
      ok := *;
      var left := bytes;
      if !ok {
        var some: seq<u8> :| |some| == |bytes|;
        left := some;
        faults, failures := faults + (if |bytes| == unitSize then 1 else 0), failures + 1;
      }
      data := Store(data, at, left);
    }

    method Read(unit: nat, len: nat) returns (r: Option<seq<u8>>)
      ensures var at := Off(unit, unitSize); r == if at + len <= |data| then Some(data[at..at + len]) else None
    {
      var at := Off(unit, unitSize);
      r := if at + len <= |data| then Some(data[at..at + len]) else None;
    }
  }

  /** Why a write image is refused before any unit is touched. */
  predicate Refused(first: u16, unitSize: u8, n: nat) {
    unitSize == 0 || n > 0xFFFF || (CeilDiv(n, unitSize) != 0 && first + CeilDiv(n, unitSize) > 0x1_0000)
  }

  /** An image is refused if the units have no size, it has more than 65535 bytes, or its last unit has no 16-bit number. */
  lemma RefusedExactlyWhen(first: u16, unitSize: u8, n: nat)
    ensures Refused(first, unitSize, n) <==> unitSize == 0 || n > 65535 || first + CeilDiv(n, unitSize) - 1 > 65535
  {
  }

  /** The `n` units of the image from unit `i` on. */
  function Chunk(bytes: seq<u8>, unitSize: nat, i: nat, n: nat): (c: seq<u8>)
    requires unitSize > 0 && i + n <= CeilDiv(|bytes|, unitSize)
    ensures |c| == Off(n, unitSize)
  {
    OffAdds(i, n, unitSize);
    OffMonotone(i + n, CeilDiv(|bytes|, unitSize), unitSize);
    Padded(bytes, unitSize)[Off(i, unitSize)..Off(i + n, unitSize)]
  }

  /** Fills a zeroed chunk with the bytes that are left, as the writer does. */
  method MakeChunk(bytes: seq<u8>, unitSize: u8, i: nat, n: nat) returns (chunk: seq<u8>)
    requires unitSize > 0 && 0 < n && i + n <= CeilDiv(|bytes|, unitSize)
    ensures chunk == Chunk(bytes, unitSize, i, n)
  {
    var size, off := Off(n, unitSize), Off(i, unitSize);
    CeilDivCovers(|bytes|, unitSize);
    OffAdds(i, n, unitSize);
    OffAdds(i, 1, unitSize);
    OffMonotone(i + 1, CeilDiv(|bytes|, unitSize), unitSize);
    OffMonotone(i + n, CeilDiv(|bytes|, unitSize), unitSize);
    var left := |bytes| - off;
    var take := Min(size, left);
    chunk := bytes[off..off + take] + Zeros(size - take);
  }

  /** Every call is aligned, within the image, and no larger than one APDU (or one unit). */
  ghost predicate CallsOk(calls: seq<Call>, first: u16, units: nat, unitSize: nat) {
    forall c :: c in calls ==>
      0 < |c.bytes| <= ChunkMax(unitSize) && first <= c.unit
      && Off(c.unit, unitSize) + |c.bytes| <= Off(first + units, unitSize)
  }

  /** After `done` bytes: they hold the image, and nothing outside the target of `size` bytes at `at` has changed. */
  ghost predicate Progress(before: seq<u8>, now: seq<u8>, at: nat, done: nat, image: seq<u8>) {
    && |now| == |before| && done <= |image|
    && (done > 0 ==> at + done <= |now| && now[at..at + done] == image[..done])
    && (forall k :: 0 <= k < |now| && !(at <= k < at + |image|) ==> now[k] == before[k])
  }

  lemma CompleteIsStored(before: seq<u8>, now: seq<u8>, at: nat, image: seq<u8>)
    requires Progress(before, now, at, |image|, image) && image != []
    ensures at + |image| <= |before| && now == Store(before, at, image)
  {
    assert image[..|image|] == image;
    assert now == now[..at] + now[at..at + |image|] + now[at + |image|..];
    assert now[..at] == before[..at] && now[at + |image|..] == before[at + |image|..];
  }

  lemma FailedWriteKeepsProgress(before: seq<u8>, m: seq<u8>, m': seq<u8>, at: nat, done: nat, image: seq<u8>, len: nat)
    requires Progress(before, m, at, done, image) && done + len <= |image|
    requires m' == m || SameOutside(m', m, at + done, at + done + len)
    ensures Progress(before, m', at, done, image)
  {
    if m' != m {
      assert forall k :: 0 <= k < at + done ==> m'[k] == m'[..at + done][k] == m[k];
      forall k | at + done + len <= k < |m| ensures m'[k] == m[k] {
        assert m'[at + done + len..][k - at - done - len] == m[at + done + len..][k - at - done - len];
      }
    }
  }

  lemma WriteMakesProgress(before: seq<u8>, m: seq<u8>, m': seq<u8>, at: nat, done: nat, image: seq<u8>, chunk: seq<u8>)
    requires Progress(before, m, at, done, image) && done + |chunk| <= |image| && chunk == image[done..done + |chunk|]
    requires |chunk| > 0 && at + done + |chunk| <= |m| && m' == Store(m, at + done, chunk)
    ensures Progress(before, m', at, done + |chunk|, image)
  {
    FailedWriteKeepsProgress(before, m, m', at, done, image, |chunk|);
    var n := done + |chunk|;
    assert image[..n] == image[..done] + chunk;
    assert m'[at..at + n] == m'[at..at + done] + m'[at + done..at + n];
    assert m'[at..at + done] == image[..done];
  }

  /** How many units are written at once: what fits one APDU, or one. */
  function BatchUnits(unitSize: nat): (n: nat)
    requires unitSize > 0
    ensures n > 0
  {
    Max(1, APDU_DATA_MAX / unitSize)
  }

  /** A batch of several units fits one APDU, and one unit more would not. */
  lemma BatchFits(n: nat, unitSize: nat)
    requires unitSize > 0
    ensures 1 < n <= BatchUnits(unitSize) ==> Off(n, unitSize) <= 252
    ensures BatchUnits(unitSize) < n ==> Off(n, unitSize) > 252
  {
    var q, r := APDU_DATA_MAX / unitSize, APDU_DATA_MAX % unitSize;
    assert Off(q, unitSize) + r == APDU_DATA_MAX && Off(1, unitSize) == unitSize;
    OffAdds(q, 1, unitSize);
    if n <= q {
      OffMonotone(n, q, unitSize);
    } else {
      OffMonotone(q + 1, n, unitSize);
    }
  }

  lemma ChunkFits(unitSize: nat, n: nat)
    requires unitSize > 0 && n > 0 && (n == 1 || Off(n, unitSize) <= APDU_DATA_MAX)
    ensures 0 < Off(n, unitSize) <= ChunkMax(unitSize)
  {
    OffMonotone(1, n, unitSize);
  }

  lemma SizeInUnits(n: nat, unitSize: nat)
    requires n > 0 && unitSize > 0
    ensures Off(n, unitSize) == unitSize <==> n == 1
  {
    if n > 1 {
      OffMonotone(2, n, unitSize);
    }
  }

  lemma ProgressKeepsSize(before: seq<u8>, now: seq<u8>, at: nat, done: nat, image: seq<u8>)
    requires Progress(before, now, at, done, image)
    ensures |now| == |before| && (done > 0 ==> at + done <= |before|)
  {
  }

  lemma OneMoreCall(calls: seq<Call>, from: nat, c: Call, first: u16, units: nat, unitSize: nat)
    requires from <= |calls| && CallsOk(calls[from..], first, units, unitSize) && CallsOk([c], first, units, unitSize)
    ensures CallsOk((calls + [c])[from..], first, units, unitSize)
  {
    assert (calls + [c])[from..] == calls[from..] + [c];
  }

  /** One write of `n` units of the image, from unit `i` on. */
  method WriteChunk(mem: UnitMemory, first: u16, bytes: seq<u8>, i: u16, n: nat, ghost before: seq<u8>, ghost from: nat)
    returns (done: bool)
    requires mem.unitSize > 0 && 0 < n && i + n <= CeilDiv(|bytes|, mem.unitSize) && first + i <= 0xFFFF
    requires n == 1 || Off(n, mem.unitSize) <= APDU_DATA_MAX
    requires from <= |mem.calls| && CallsOk(mem.calls[from..], first, CeilDiv(|bytes|, mem.unitSize), mem.unitSize)
    requires Progress(before, mem.data, Off(first, mem.unitSize), Off(i, mem.unitSize), Padded(bytes, mem.unitSize))
    modifies mem
    ensures |mem.calls| == |old(mem.calls)| + 1 && old(mem.calls) <= mem.calls
    ensures CallsOk(mem.calls[from..], first, CeilDiv(|bytes|, mem.unitSize), mem.unitSize)
    ensures Progress(before, mem.data, Off(first, mem.unitSize), Off(if done then i + n else i, mem.unitSize),
                     Padded(bytes, mem.unitSize))
    ensures done ==> Off(first + i + n, mem.unitSize) <= |before|
    ensures var fault := !done && n == 1 && Off(first + i + n, mem.unitSize) <= |before|;
            mem.faults == old(mem.faults) + if fault then 1 else 0
    ensures mem.failures == old(mem.failures) + if done then 0 else 1
  {
    hide Off, Padded, CeilDiv, Progress, Store, SameOutside, ChunkMax;
    var chunk := MakeChunk(bytes, mem.unitSize, i, n);
    ghost var us, units, image, m := mem.unitSize, CeilDiv(|bytes|, mem.unitSize), Padded(bytes, mem.unitSize), mem.data;
    ChunkFits(us, n);
    OffAdds(first, i, us);
    OffAdds(first + i, n, us);
    OffAdds(i, n, us);
    OffMonotone(i + n, units, us);
    OffMonotone(first + i + n, first + units, us);
    OneMoreCall(mem.calls, from, Call(first + i, chunk), first, units, us);
    SizeInUnits(n, us);
    ProgressKeepsSize(before, m, Off(first, us), Off(i, us), image);
    done := mem.Write(first + i, chunk);
    if done {
      WriteMakesProgress(before, m, mem.data, Off(first, us), Off(i, us), image, chunk);
    } else {
      FailedWriteKeepsProgress(before, m, mem.data, Off(first, us), Off(i, us), image, |chunk|);
    }
  }

  lemma FullBatches(k: nat, n: nat, most: nat)
    requires most > 0 && n <= most
    ensures CeilDiv(Off(k, most) + n, most) == k + if n > 0 then 1 else 0
  {
    hide CeilDiv, Off;
    var x := Off(k, most) + n;
    var q := CeilDiv(x, most);
    CeilDivCovers(x, most);
    OffAdds(k, 1, most);
    OffAdds(k + 1, 1, most);
    OneBatch(most);
    OffAdds(q, 1, most);
    OffIsMonotone(q + 1, k, most);
    OffIsMonotone(q, k, most);
    OffIsMonotone(k + 2, q, most);
  }

  /** `calls` writes have stored `i` of the units: two for each batch that was refused, and full batches for the rest. */
  ghost predicate Counted(calls: int, i: nat, refused: int, units: nat, most: nat) {
    && most > 0 && 0 <= refused <= i && calls == 2 * refused + CeilDiv(i - refused, most)
    && (i < units ==> i - refused == Off(CeilDiv(i - refused, most), most))
  }

  lemma NothingCounted(units: nat, most: nat)
    requires most > 0
    ensures Counted(0, 0, 0, units, most)
  {
    hide CeilDiv, Off;
    FullBatches(0, 0, most);
    OneBatch(most);
  }

  /** What one round adds: a batch, or a batch that is refused and a single unit. */
  lemma OneMoreRound(calls: int, i: nat, refused: int, units: nat, most: nat)
    requires Counted(calls, i, refused, units, most) && i < units
    ensures Counted(calls + 1, i + Min(units - i, most), refused, units, most)
    ensures Counted(calls + 2, i + 1, refused + 1, units, most)
  {
    hide CeilDiv, Off;
    var k, n := CeilDiv(i - refused, most), Min(units - i, most);
    FullBatches(k, n, most);
    FullBatches(k, 0, most);
    OffAdds(k, 1, most);
    OneBatch(most);
  }

  lemma OneBatch(most: nat)
    ensures Off(1, most) == most && Off(0, most) == 0
  {
  }

  /** What holds of the memory after `i` units of the image have been written. */
  ghost predicate Going(mem: UnitMemory, first: u16, bytes: seq<u8>, i: nat, before: seq<u8>, from: nat)
    requires mem.unitSize > 0
    reads mem
  {
    && from <= |mem.calls| && CallsOk(mem.calls[from..], first, CeilDiv(|bytes|, mem.unitSize), mem.unitSize)
    && Progress(before, mem.data, Off(first, mem.unitSize), Off(i, mem.unitSize), Padded(bytes, mem.unitSize))
  }

  /** One round of the writer: a batch of units, or, where that is one or is refused, a single unit. */
  method WriteRound(mem: UnitMemory, first: u16, bytes: seq<u8>, i: u16, units: u16, most: nat,
                    ghost before: seq<u8>, ghost from: nat)
    returns (done: bool, next: u16)
    requires mem.unitSize > 0 && units == CeilDiv(|bytes|, mem.unitSize) && i < units && first + units <= 0x1_0000
    requires most == BatchUnits(mem.unitSize) && Going(mem, first, bytes, i, before, from)
    modifies mem
    ensures Going(mem, first, bytes, next, before, from) && old(mem.calls) <= mem.calls
    ensures if done then
              && (|mem.calls| - |old(mem.calls)|, mem.failures - old(mem.failures), next)
                 in {(1, 0, i + Min(units - i, most)), (2, 1, i + 1)}
              && mem.faults == old(mem.faults) && Off(first + next, mem.unitSize) <= |before|
            else next == i && |mem.calls| - |old(mem.calls)| <= 2
    ensures !done ==> Off(first + i + 1, mem.unitSize) > |before| || mem.faults > old(mem.faults)
  {
    hide Off, Padded, CeilDiv, Progress, CallsOk, BatchUnits;
    var n := Min(units - i, most);
    if n > 1 {
      BatchFits(n, mem.unitSize);
      done := WriteChunk(mem, first, bytes, i, n, before, from);
      if done {
        return done, i + n;
      }
    }
    done := WriteChunk(mem, first, bytes, i, 1, before, from);
    next := if done then i + 1 else i;
  }

  /**
    * Writes many units at once where it can and falls back to single units where a write fails; so it succeeds exactly if
    * the image lies inside the memory and no write of a single unit has failed.
    */
  method WriteUnits(mem: UnitMemory, first: u16, bytes: seq<u8>) returns (ok: bool)
    modifies mem
    ensures Refused(first, mem.unitSize, |bytes|) ==> !ok && mem.data == old(mem.data) && mem.calls == old(mem.calls)
    ensures !Refused(first, mem.unitSize, |bytes|) ==>
              var units, image := CeilDiv(|bytes|, mem.unitSize), Padded(bytes, mem.unitSize);
              && old(mem.calls) <= mem.calls && |mem.calls| - |old(mem.calls)| <= 2 * units
              && CallsOk(mem.calls[|old(mem.calls)|..], first, units, mem.unitSize)
              && Progress(old(mem.data), mem.data, Off(first, mem.unitSize), if ok then |image| else 0, image)
              && (ok <==> (image == [] || Off(first, mem.unitSize) + |image| <= |old(mem.data)|)
                          && mem.faults == old(mem.faults))
              && (ok ==> Counted(|mem.calls| - |old(mem.calls)|, units, mem.failures - old(mem.failures), units,
                                 BatchUnits(mem.unitSize)))
  {
    var unitSize := mem.unitSize;
    if unitSize == 0 || |bytes| > 0xFFFF {
      return false;
    }
    CeilDivCovers(|bytes|, unitSize);
    var units: u16 := CeilDiv(|bytes|, unitSize);
    if units != 0 && first + units > 0x1_0000 {
      return false;
    }
    var most := BatchUnits(unitSize);
    var i: u16 := 0;
    ghost var before, calls := mem.data, mem.calls;
    assert Going(mem, first, bytes, 0, before, |calls|);
    assert i < units ==> first + units <= 0x1_0000;
    hide Padded, CeilDiv, Off, BatchUnits, Counted, Going;
    NothingCounted(units, most);
    while i < units
      invariant i <= units && Going(mem, first, bytes, i, before, |calls|)
      invariant calls <= mem.calls && |mem.calls| - |calls| <= 2 * i
      invariant mem.faults == old(mem.faults) && (i > 0 ==> Off(first + i, unitSize) <= |before|)
      invariant Counted(|mem.calls| - |calls|, i, mem.failures - old(mem.failures), units, most)
      decreases units - i
    {
      OneMoreRound(|mem.calls| - |calls|, i, mem.failures - old(mem.failures), units, most);
      OffMonotone(first + i + 1, first + units, unitSize);
      var done;
      done, i := WriteRound(mem, first, bytes, i, units, most, before, |calls|);
      if !done {
        WriteStopped(mem, first, bytes, i, before, |calls|);
        return false;
      }
    }
    WriteEnded(mem, first, bytes, i, before, |calls|);
    return true;
  }

  lemma WriteStopped(mem: UnitMemory, first: u16, bytes: seq<u8>, i: nat, before: seq<u8>, from: nat)
    requires mem.unitSize > 0 && Going(mem, first, bytes, i, before, from)
    ensures var units, image := CeilDiv(|bytes|, mem.unitSize), Padded(bytes, mem.unitSize);
            && CallsOk(mem.calls[from..], first, units, mem.unitSize)
            && Progress(before, mem.data, Off(first, mem.unitSize), 0, image)
            && (i < units ==> image != [] && Off(first, mem.unitSize) + |image| == Off(first + units, mem.unitSize)
                              && Off(first + i + 1, mem.unitSize) <= Off(first + units, mem.unitSize))
  {
    hide CallsOk, CeilDiv;
    var units := CeilDiv(|bytes|, mem.unitSize);
    OffAdds(first, units, mem.unitSize);
    if i < units {
      OffMonotone(first + i + 1, first + units, mem.unitSize);
      OffMonotone(1, units, mem.unitSize);
    }
  }

  lemma WriteEnded(mem: UnitMemory, first: u16, bytes: seq<u8>, i: nat, before: seq<u8>, from: nat)
    requires mem.unitSize > 0 && Going(mem, first, bytes, i, before, from) && i == CeilDiv(|bytes|, mem.unitSize)
    ensures var image := Padded(bytes, mem.unitSize);
            && CallsOk(mem.calls[from..], first, i, mem.unitSize)
            && Progress(before, mem.data, Off(first, mem.unitSize), |image|, image)
            && Off(first, mem.unitSize) + |image| == Off(first + i, mem.unitSize) && (i == 0 ==> image == [])
  {
    hide CallsOk, CeilDiv;
    OffAdds(first, i, mem.unitSize);
  }
}
