/**
  * The ATR of a Type 4 tag: what an answer to RATS (ISO/IEC 14443-4) is kept of, and the ATR (ISO/IEC 7816-3) made of it.
  * A session is only opened on such an answer, and then the ATR can always be given.
  */
module CcidAtr {
  import opened Bytes
  import opened CcidFrame

  const ATS_MIN := 2
  const ATS_MAX := 64
  const HISTORICAL_MAX := 15
  const TS: u8 := 0x3B
  const TD1_FOLLOWS: u8 := 0x80
  const TD1_T1: u8 := 0x01

  // ---- The answer to RATS ----

  /** The answer to select among the bytes received, as long as its first byte says; None if it is refused. */
  function Ats(received: seq<u8>): (ats: Option<seq<u8>>)
    ensures ats.Some? ==> ATS_MIN <= |ats.value| <= ATS_MAX && ats.value <= received && |ats.value| == ats.value[0]
  {
    if |received| < ATS_MIN || received[0] < ATS_MIN || received[0] > |received| || received[0] > ATS_MAX then None
    else Some(received[..received[0]])
  }

  /** It is the front of what was received, of 2 to 64 bytes, as long as its first byte says. */
  lemma AtsExactlyWhen(received: seq<u8>, ats: seq<u8>)
    ensures Ats(received) == Some(ats) <==> 2 <= |ats| <= 64 && ats <= received && ats[0] == |ats|
  {
    if ats <= received {
      assert received[..|ats|] == ats;
    }
  }

  // ---- The ATR ----

  function Xor(a: u8, b: u8): u8 { ((a as bv8) ^ (b as bv8)) as int }

  function XorAll(s: seq<u8>): u8 {
    if s == [] then 0 else Xor(XorAll(s[..|s| - 1]), s[|s| - 1])
  }

  /** The ATR without its check byte. */
  function AtrHead(ats: seq<u8>): seq<u8> {
    [TS, TD1_FOLLOWS + Min(|ats|, HISTORICAL_MAX), TD1_T1] + ats[..Min(|ats|, HISTORICAL_MAX)]
  }

  /** The ATR that fits `cap` bytes. */
  function Atr(ats: seq<u8>, cap: nat): Option<seq<u8>> {
    if ats == [] || cap < Min(|ats|, HISTORICAL_MAX) + 4 then None
    else Some(AtrHead(ats) + [XorAll(AtrHead(ats)[1..])])
  }

  /** Writes the ATR to the front of `dst`, or nothing if there is no answer to select or no room. */
  method CopyAtr(ats: seq<u8>, dst: array<u8>) returns (ok: bool, len: nat)
    modifies dst
    ensures ok == Atr(ats, dst.Length).Some?
    ensures if ok then len == |Atr(ats, dst.Length).value| <= dst.Length && dst[..len] == Atr(ats, dst.Length).value
            else len == 0 && dst[..] == old(dst[..])
    ensures forall k :: len <= k < dst.Length ==> dst[k] == old(dst[k])
  {
    hide Xor, XorAll;
    if |ats| == 0 {
      return false, 0;
    }
    var histLen := if |ats| > HISTORICAL_MAX then HISTORICAL_MAX else |ats|;
    if dst.Length < histLen + 4 {
      return false, 0;
    }
    var end := Put(dst, 0, [TS, TD1_FOLLOWS + histLen, TD1_T1]);
    end := Put(dst, end, ats[..histLen]);
    assert dst[..end] == AtrHead(ats);
    ghost var head := AtrHead(ats);
    NoByte(head);
    var tck: u8 := 0;
    var i := 1;
    while i < end
      invariant 1 <= i <= end == |head| && dst[..end] == head && tck == XorAll(head[1..i])
      invariant forall k :: end <= k < dst.Length ==> dst[k] == old(dst[k])
    {
      NextByte(head, i);
      assert dst[i] == dst[..end][i];
      tck := Xor(tck, dst[i]);
      i := i + 1;
    }
    assert head[1..end] == head[1..];
    dst[end] := tck;
    assert dst[..end + 1] == dst[..end] + [tck];
    return true, end + 1;
  }

  lemma NoByte(s: seq<u8>)
    requires s != []
    ensures XorAll(s[1..1]) == 0
  {
  }

  lemma NextByte(s: seq<u8>, i: nat)
    requires 1 <= i < |s|
    ensures XorAll(s[1..i + 1]) == Xor(XorAll(s[1..i]), s[i])
  {
    hide Xor;
    var longer := s[1..i + 1];
    assert longer[..|longer| - 1] == s[1..i] && longer[|longer| - 1] == s[i];
  }

  lemma XorSelf(a: u8)
    ensures Xor(a, a) == 0
  {
    var v := a as bv8;
    assert v ^ v == 0;
  }

  /**
    * An ATR announces its historical bytes and T=1, carries the front of the answer to select as its historical bytes,
    * and all its bytes behind the first cancel out, as section 8.2.5 of ISO/IEC 7816-3 asks of its check byte.
    */
  lemma AtrIsWellFormed(ats: seq<u8>, cap: nat)
    requires Atr(ats, cap).Some?
    ensures var atr, n := Atr(ats, cap).value, Min(|ats|, 15);
            && |atr| == n + 4 <= Min(cap, 19) && atr[0] == 0x3B
            && atr[1] / 0x10 == 8 && atr[1] % 0x10 == n && atr[2] == 0x01 && atr[3..3 + n] == ats[..n]
            && XorAll(atr[1..]) == 0
  {
    hide Xor;
    var atr, head, n := Atr(ats, cap).value, AtrHead(ats), Min(|ats|, HISTORICAL_MAX);
    assert (TD1_FOLLOWS + n) / 0x10 == 8 && (TD1_FOLLOWS + n) % 0x10 == n;
    NextByte(atr, |head|);
    assert atr[1..|head|] == head[1..] && atr[1..|head| + 1] == atr[1..];
    XorSelf(XorAll(head[1..]));
  }

  /** The room in the reply buffer is enough for the ATR of every answer to RATS that opens a session. */
  lemma EveryAtsGivesAnAtr(received: seq<u8>)
    requires Ats(received).Some?
    ensures var atr := Atr(Ats(received).value, RSP_DATA_CAP); atr.Some? && 6 <= |atr.value| <= 19
  {
    AtrIsWellFormed(Ats(received).value, RSP_DATA_CAP);
  }
}
