/** The NDEF file of a Type 4 tag: reading it, and the write transaction with its two NLEN updates. */
module Type4File {
  import opened Bytes
  import opened StorageWrite

  const NLEN_LEN := 2
  const READ_MAX := 254
  const UPDATE_MAX := 240
  const MLE_MIN := 15
  const MLC_MIN := 1

  datatype Error = Failed | BadCc | NoRoomForNlen | ReadRestricted | WriteRestricted | TooLong | SmallMlc | NotVerified

  datatype Result<+T> = Ok(value: T) | Err(error: Error)

  /** What the capability container declares. */
  datatype Cc = Cc(mle: u16, mlc: u16, fileSize: u16, readOpen: bool, writeOpen: bool) {
    predicate Legal() { mle >= MLE_MIN && mlc >= MLC_MIN }
  }

  function MaxMessage(cc: Cc): Option<u16> { if cc.fileSize < NLEN_LEN then None else Some(cc.fileSize - NLEN_LEN) }

  /** The message a file holds, or why it cannot be read. */
  function Content(cc: Cc, data: seq<u8>): Result<seq<u8>> {
    if !cc.Legal() then Err(BadCc)
    else if MaxMessage(cc).None? then Err(NoRoomForNlen)
    else if !cc.readOpen then Err(ReadRestricted)
    else if |data| < NLEN_LEN then Err(Failed)
    else
      var n := Be16(data[0], data[1]);
      if n > MaxMessage(cc).value || n > 0xFFFE then Err(TooLong)
      else if NLEN_LEN + n > |data| then Err(Failed)
      else Ok(data[NLEN_LEN..NLEN_LEN + n])
  }

  /** In terms of the bytes: two of them, the high one first, are the length of the message behind them. */
  lemma ContentExactlyWhen(cc: Cc, data: seq<u8>, ndef: seq<u8>)
    ensures Content(cc, data) == Ok(ndef)
            <==> && cc.mle >= 15 && cc.mlc >= 1 && cc.readOpen && 2 + |ndef| <= |data|
                 && data[0] as int * 0x100 + data[1] as int == |ndef| <= 0xFFFE && 2 + |ndef| <= cc.fileSize
                 && data[2..2 + |ndef|] == ndef
  {
  }

  /** Why a file cannot be read, in the order in which it is found out. */
  lemma ContentErrors(cc: Cc, data: seq<u8>)
    ensures Content(cc, data) == Err(BadCc) <==> cc.mle < 15 || cc.mlc < 1
    ensures Content(cc, data) == Err(NoRoomForNlen) <==> cc.mle >= 15 && cc.mlc >= 1 && cc.fileSize < 2
    ensures Content(cc, data) == Err(ReadRestricted) <==> cc.mle >= 15 && cc.mlc >= 1 && cc.fileSize >= 2 && !cc.readOpen
    ensures Content(cc, data) == Err(TooLong)
            <==> && cc.mle >= 15 && cc.mlc >= 1 && cc.fileSize >= 2 && cc.readOpen && |data| >= 2
                 && data[0] as int * 0x100 + data[1] as int > Min(cc.fileSize - 2, 0xFFFE)
  {
  }

  datatype Update = Update(offset: u16, bytes: seq<u8>, before: seq<u8>, after: seq<u8>)

  /** The card. Any command may fail; a failed UPDATE BINARY has been carried out or not, but never in part. */
  class Card {
    const cc: Cc
    var data: seq<u8>
    /** The updates asked for so far, and the number of commands that failed for no fault of ours. */
    ghost var updates: seq<Update>
    ghost var faults: nat
    /** How much of the file, from its start, has been read since the last update; and the length of the longest read. */
    ghost var checked: nat
    ghost var longest: nat

    constructor (cc: Cc, data: seq<u8>)
      ensures this.cc == cc && this.data == data && updates == [] && faults == 0 && checked == 0 && longest == 0
    {
      this.cc, this.data, updates, faults, checked, longest := cc, data, [], 0, 0, 0;
    }

    method ReadBinary(offset: u16, len: u8) returns (r: Option<seq<u8>>)
      modifies this`faults, this`checked, this`longest
      ensures r.Some? ==> offset + len <= |data| && r.value == data[offset..offset + len] && faults == old(faults)
      ensures r.None? ==> faults >= old(faults) && (offset + len <= |data| ==> faults > old(faults))
      ensures longest == Max(old(longest), len)
      ensures checked == if r.Some? && offset <= old(checked) then Max(old(checked), offset + len) else old(checked)
    {
      longest := Max(longest, len);
      var fault := *;
      if offset + len > |data| {
        return None;
      }
      if fault {
        faults := faults + 1;
        return None;
      }
      checked := if offset <= checked then Max(checked, offset + len) else checked;
      return Some(data[offset..offset + len]);
    }

    method UpdateBinary(offset: u16, bytes: seq<u8>) returns (ok: bool)
      modifies this`data, this`updates, this`faults, this`checked
      ensures checked == 0
      ensures updates == old(updates) + [Update(offset, bytes, old(data), data)]
      ensures faults >= old(faults)
      ensures if bytes == [] || |bytes| > 0xFF || offset + |bytes| > |old(data)| then !ok && data == old(data)
              else (data == old(data) || data == Store(old(data), offset, bytes))
                   && (ok ==> data == Store(old(data), offset, bytes)) && (!ok ==> faults > old(faults))
    {
      ghost var before := data;
      checked := 0;
      if bytes == [] || |bytes| > 0xFF || offset + |bytes| > |data| {
        updates := updates + [Update(offset, bytes, before, data)];
        return false;
      }
      ok := *;
      var done := *;
      if ok || done {
        data := Store(data, offset, bytes);
      }
      if !ok {
        faults := faults + 1;
      }
      updates := updates + [Update(offset, bytes, before, data)];
    }
  }

  method ReadNdefFile(card: Card) returns (r: Result<seq<u8>>)
    modifies card`faults, card`checked, card`longest
    ensures card.faults >= old(card.faults) && card.longest <= Max(old(card.longest), Min(card.cc.mle, 254))
    ensures r.Ok? ==> NLEN_LEN + |r.value| <= card.checked
    ensures r == Content(card.cc, card.data) || r == Err(Failed)
    ensures card.faults == old(card.faults) ==> r == Content(card.cc, card.data)
  {
    var cc := card.cc;
    if !cc.Legal() {
      return Err(BadCc);
    }
    var room := MaxMessage(cc);
    if room.None? {
      return Err(NoRoomForNlen);
    }
    if !cc.readOpen {
      return Err(ReadRestricted);
    }
    var nlen := card.ReadBinary(0, NLEN_LEN);
    if nlen.None? {
      return Err(Failed);
    }
    var n: u16 := Be16(nlen.value[0], nlen.value[1]);
    if n > room.value || n > 0xFFFE {
      return Err(TooLong);
    }
    var chunkMax := Min(cc.mle, READ_MAX);
    var message: seq<u8> := [];
    var done: u16 := 0;
    while done < n
      invariant done <= n && NLEN_LEN + done <= |card.data| && message == card.data[NLEN_LEN..NLEN_LEN + done]
      invariant card.faults >= old(card.faults) && card.longest <= Max(old(card.longest), Min(cc.mle, 254))
      invariant NLEN_LEN + done <= card.checked
      decreases n - done
    {
      var chunk := Min(n - done, chunkMax);
      var bytes := card.ReadBinary(NLEN_LEN + done, chunk);
      if bytes.None? {
        return Err(Failed);
      }
      SliceGrows(card.data, NLEN_LEN, NLEN_LEN + done, NLEN_LEN + done + chunk);
      message := message + bytes.value;
      done := done + chunk;
    }
    return Ok(message);
  }

  /** The updates of the transaction: every chunk stays clear of NLEN and inside the declared file. */
  ghost predicate ChunksOk(updates: seq<Update>, cc: Cc) {
    forall u :: u in updates ==>
      (u.offset == 0 && |u.bytes| == NLEN_LEN)
      || (u.offset >= NLEN_LEN && u.offset + |u.bytes| <= cc.fileSize && 0 < |u.bytes| <= Min(cc.mlc, 240))
  }

  /** Whatever a step left behind reads as the old message, as the empty one, or as the new one. */
  ghost predicate NeverAMixture(updates: seq<Update>, cc: Cc, was: seq<u8>, ndef: seq<u8>) {
    forall u :: u in updates ==>
      Content(cc, u.after) == Content(cc, was) || Content(cc, u.after) == Ok([]) || Content(cc, u.after) == Ok(ndef)
  }

  /** While the chunks are written: NLEN is zero, the first `done` bytes are in place, what lies behind is untouched. */
  ghost predicate Filling(was: seq<u8>, now: seq<u8>, ndef: seq<u8>, done: nat) {
    && |now| == |was| && done <= |ndef| && NLEN_LEN + done <= |was|
    && now[0] == 0 && now[1] == 0
    && now[NLEN_LEN..NLEN_LEN + done] == ndef[..done]
    && (forall k :: NLEN_LEN + |ndef| <= k < |was| ==> now[k] == was[k])
  }

  /** The file after a successful transaction. */
  function Written(was: seq<u8>, ndef: seq<u8>): seq<u8>
    requires |ndef| <= 0xFFFE && NLEN_LEN + |ndef| <= |was|
  {
    Bytes16(|ndef|) + ndef + was[NLEN_LEN + |ndef|..]
  }

  lemma EmptyWhileFilling(cc: Cc, was: seq<u8>, now: seq<u8>, ndef: seq<u8>, done: nat)
    requires Filling(was, now, ndef, done) && Content(cc, was).Ok?
    ensures Content(cc, now) == Ok([])
  {
    ZeroNlenIsEmpty(cc, was, now);
  }

  lemma ZeroNlenIsEmpty(cc: Cc, was: seq<u8>, now: seq<u8>)
    requires Content(cc, was).Ok? && |now| == |was| && now[0] == 0 && now[1] == 0
    ensures Content(cc, now) == Ok([])
  {
    var n := Be16(now[0], now[1]);
    assert n == 0;
    assert now[NLEN_LEN..NLEN_LEN + n] == [];
  }

  lemma ClearingStartsFilling(was: seq<u8>, ndef: seq<u8>)
    requires NLEN_LEN <= |was|
    ensures Filling(was, Store(was, 0, [0, 0]), ndef, 0)
  {
    var now := Store(was, 0, [0, 0]);
    assert now[0] == now[..2][0] && now[1] == now[..2][1];
    forall k | NLEN_LEN + |ndef| <= k < |was| ensures now[k] == was[k] {
      assert now[2..][k - 2] == was[2..][k - 2];
    }
  }

  lemma ChunkFills(was: seq<u8>, now: seq<u8>, ndef: seq<u8>, done: nat, chunk: nat)
    requires Filling(was, now, ndef, done) && done + chunk <= |ndef| && NLEN_LEN + done + chunk <= |was|
    ensures Filling(was, Store(now, NLEN_LEN + done, ndef[done..done + chunk]), ndef, done + chunk)
  {
    var at, end := NLEN_LEN + done, NLEN_LEN + done + chunk;
    var next := Store(now, at, ndef[done..done + chunk]);
    assert next[0] == next[..at][0] && next[1] == next[..at][1];
    assert next[NLEN_LEN..at] == next[..at][NLEN_LEN..] == ndef[..done];
    assert next[NLEN_LEN..end] == next[NLEN_LEN..at] + next[at..end];
    forall k | NLEN_LEN + |ndef| <= k < |was| ensures next[k] == was[k] {
      assert next[end..][k - end] == now[end..][k - end];
    }
  }

  lemma RestoringCompletes(cc: Cc, was: seq<u8>, now: seq<u8>, ndef: seq<u8>)
    requires Filling(was, now, ndef, |ndef|) && |ndef| <= 0xFFFE
    ensures Store(now, 0, Bytes16(|ndef|)) == Written(was, ndef)
    ensures Content(cc, was).Ok? && |ndef| <= MaxMessage(cc).value ==> Content(cc, Written(was, ndef)) == Ok(ndef)
  {
    assert now[2 + |ndef|..] == was[2 + |ndef|..];
    assert now == now[..2] + now[2..2 + |ndef|] + now[2 + |ndef|..];
    assert ndef[..|ndef|] == ndef;
    var w := Written(was, ndef);
    Be16Inverse(|ndef|);
    assert w[2..2 + |ndef|] == ndef;
  }

  /** The tests made before the file is touched, on what inspecting it gave. */
  predicate Writable(cc: Cc, was: seq<u8>, ndef: seq<u8>) {
    && Content(cc, was).Ok? && cc.mlc >= NLEN_LEN && cc.writeOpen
    && |ndef| <= MaxMessage(cc).value && |ndef| <= 0xFFFE
  }

  /** Why the file is not touched, in the order in which it is found out. */
  function Refusal(cc: Cc, was: seq<u8>, ndef: seq<u8>): Option<Error> {
    match Content(cc, was)
    case Err(e) => Some(e)
    case Ok(_) =>
      if cc.mlc < 2 then Some(SmallMlc)
      else if !cc.writeOpen then Some(WriteRestricted)
      else if |ndef| > Min(cc.fileSize - 2, 0xFFFE) then Some(TooLong)
      else None
  }

  /** What the updates of one transaction keep, at any point of it. */
  ghost predicate Kept(ups: seq<Update>, now: seq<Update>, cc: Cc, was: seq<u8>, ndef: seq<u8>) {
    ups <= now && ChunksOk(now[|ups|..], cc) && NeverAMixture(now[|ups|..], cc, was, ndef)
  }

  lemma OneMoreUpdate(ups: seq<Update>, now: seq<Update>, u: Update, cc: Cc, was: seq<u8>, ndef: seq<u8>)
    requires Kept(ups, now, cc, was, ndef) && ChunksOk([u], cc) && NeverAMixture([u], cc, was, ndef)
    ensures Kept(ups, now + [u], cc, was, ndef)
  {
    assert (now + [u])[|ups|..] == now[|ups|..] + [u];
    assert u in [u];
  }

  method WriteType4NdefFile(card: Card, ndef: seq<u8>) returns (r: Result<()>)
    modifies card
    ensures Kept(old(card.updates), card.updates, card.cc, old(card.data), ndef)
    ensures card.updates == old(card.updates) ==> card.data == old(card.data)
    ensures !Writable(card.cc, old(card.data), ndef) ==> r.Err? && card.updates == old(card.updates)
    ensures Writable(card.cc, old(card.data), ndef) <==> Refusal(card.cc, old(card.data), ndef) == None
    ensures !Writable(card.cc, old(card.data), ndef) && card.faults == old(card.faults) ==>
              r == Err(Refusal(card.cc, old(card.data), ndef).value)
    ensures r.Ok? ==> NLEN_LEN + |ndef| <= |old(card.data)| && card.data == Written(old(card.data), ndef)
    ensures r.Ok? ==> Content(card.cc, card.data) == Ok(ndef) && NLEN_LEN + |ndef| <= card.checked
    ensures Writable(card.cc, old(card.data), ndef) && card.faults == old(card.faults) && card.cc.fileSize <= |old(card.data)|
            ==> r.Ok?
  {
    var cc := card.cc;
    ghost var was, ups := card.data, card.updates;
    assert card.updates[|ups|..] == [];
    var inspected := ReadNdefFile(card);
    if inspected.Err? {
      return Err(inspected.error);
    }
    if cc.mlc < NLEN_LEN {
      return Err(SmallMlc);
    }
    var mlc := Min(cc.mlc, UPDATE_MAX);
    if !cc.writeOpen {
      return Err(WriteRestricted);
    }
    if |ndef| > MaxMessage(cc).value {
      return Err(TooLong);
    }
    if |ndef| > 0xFFFE {
      return Err(TooLong);
    }
    hide Content, ChunksOk, NeverAMixture;
    ClearingStartsFilling(was, ndef);
    EmptyWhileFilling(cc, was, Store(was, 0, [0, 0]), ndef, 0);
    var ok := Record(card, 0, [0, 0], ups, was, ndef);
    if !ok {
      return Err(Failed);
    }
    ok := WriteChunks(card, ndef, mlc, ups, was);
    if !ok {
      return Err(Failed);
    }
    EmptyWhileFilling(cc, was, card.data, ndef, |ndef|);
    RestoringCompletes(cc, was, card.data, ndef);
    ok := Record(card, 0, Bytes16(|ndef|), ups, was, ndef);
    if !ok {
      return Err(Failed);
    }
    var verify := ReadNdefFile(card);
    if verify.Err? {
      return Err(verify.error);
    }
    if verify.value != ndef {
      return Err(NotVerified);
    }
    return Ok(());
  }

  /** Writes the message behind a cleared NLEN. */
  method WriteChunks(card: Card, ndef: seq<u8>, mlc: u16, ghost ups: seq<Update>, ghost was: seq<u8>) returns (ok: bool)
    requires Kept(ups, card.updates, card.cc, was, ndef) && |card.updates| > |ups|
    requires Writable(card.cc, was, ndef) && mlc == Min(card.cc.mlc, UPDATE_MAX) && Filling(was, card.data, ndef, 0)
    modifies card
    ensures Kept(ups, card.updates, card.cc, was, ndef) && |card.updates| > |ups| && card.faults >= old(card.faults)
    ensures ok ==> Filling(was, card.data, ndef, |ndef|)
    ensures !ok ==> card.faults > old(card.faults) || card.cc.fileSize > |was|
  {
    var cc := card.cc;
    assert MaxMessage(cc).value + NLEN_LEN == cc.fileSize;
    hide Content, NeverAMixture, ChunksOk;
    var done: u16 := 0;
    while done < |ndef|
      invariant done <= |ndef|
      invariant Kept(ups, card.updates, cc, was, ndef) && |card.updates| > |ups|
      invariant Filling(was, card.data, ndef, done) && card.faults >= old(card.faults)
      decreases |ndef| - done
    {
      var chunk := Min(|ndef| - done, mlc);
      ghost var filled := card.data;
      ChunkIsRecorded(cc, was, card.data, ndef, done, chunk);
      ok := Record(card, NLEN_LEN + done, ndef[done..done + chunk], ups, was, ndef);
      if !ok {
        return;
      }
      ChunkFills(was, filled, ndef, done, chunk);
      done := done + chunk;
    }
    return true;
  }

  lemma ChunkIsRecorded(cc: Cc, was: seq<u8>, now: seq<u8>, ndef: seq<u8>, done: nat, chunk: nat)
    requires Writable(cc, was, ndef) && Filling(was, now, ndef, done)
    requires 0 < chunk <= Min(cc.mlc, UPDATE_MAX) && done + chunk <= |ndef|
    ensures var at, bytes := NLEN_LEN + done, ndef[done..done + chunk];
            && ChunksOk([Update(at, bytes, [], [])], cc) && NeverAMixture([Update(at, bytes, [], now)], cc, was, ndef)
            && (at + chunk <= |now| ==> NeverAMixture([Update(at, bytes, [], Store(now, at, bytes))], cc, was, ndef))
  {
    EmptyWhileFilling(cc, was, now, ndef, done);
    if NLEN_LEN + done + chunk <= |was| {
      ChunkFills(was, now, ndef, done, chunk);
      EmptyWhileFilling(cc, was, Store(now, NLEN_LEN + done, ndef[done..done + chunk]), ndef, done + chunk);
    }
    hide Content;
  }

  /** One UPDATE BINARY of the transaction. */
  method Record(card: Card, offset: u16, bytes: seq<u8>, ghost ups: seq<Update>, ghost was: seq<u8>, ghost ndef: seq<u8>)
    returns (ok: bool)
    requires Kept(ups, card.updates, card.cc, was, ndef)
    requires bytes != [] && |bytes| <= UPDATE_MAX
    requires ChunksOk([Update(offset, bytes, [], [])], card.cc)
    requires NeverAMixture([Update(offset, bytes, [], card.data)], card.cc, was, ndef)
    requires offset + |bytes| <= |card.data| ==>
               NeverAMixture([Update(offset, bytes, [], Store(card.data, offset, bytes))], card.cc, was, ndef)
    modifies card
    ensures Kept(ups, card.updates, card.cc, was, ndef) && |card.updates| == |old(card.updates)| + 1
    ensures card.faults >= old(card.faults)
    ensures offset + |bytes| <= |old(card.data)| ==>
              (ok ==> card.data == Store(old(card.data), offset, bytes)) && (!ok ==> card.faults > old(card.faults))
    ensures offset + |bytes| > |old(card.data)| ==> !ok
  {
    hide Content;
    ghost var before := card.data;
    ok := card.UpdateBinary(offset, bytes);
    ghost var u := Update(offset, bytes, before, card.data);
    assert Update(offset, bytes, [], []) in [Update(offset, bytes, [], [])];
    assert Update(offset, bytes, [], before) in [Update(offset, bytes, [], before)];
    if offset + |bytes| <= |before| {
      ghost var v := Update(offset, bytes, [], Store(before, offset, bytes));
      assert v in [v];
    }
    OneMoreUpdate(ups, old(card.updates), u, card.cc, was, ndef);
  }
}
