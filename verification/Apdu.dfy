/** Recognition of ISO 7816-4 short command APDUs and of the CTAP NFC commands. */
module Apdu {
  import opened Bytes

  const CLA_ISO: u8 := 0x00
  const CLA_PROPRIETARY: u8 := 0xFF
  const CLA_CTAP: u8 := 0x80
  const INS_SELECT: u8 := 0xA4
  const INS_CTAP_MSG: u8 := 0x10
  const INS_CTAP_GETRESPONSE: u8 := 0x11
  const INS_CTAP_CONTROL: u8 := 0x12
  const P1_BY_DF_NAME: u8 := 0x04
  const CMD_MAKE_CREDENTIAL: u8 := 0x01
  const CMD_GET_ASSERTION: u8 := 0x02
  const CMD_CLIENT_PIN: u8 := 0x06

  const NDEF_AID: seq<u8> := [0xD2, 0x76, 0x00, 0x00, 0x85, 0x01, 0x01]
  const NDEF_AID_V0: seq<u8> := [0xD2, 0x76, 0x00, 0x00, 0x85, 0x01, 0x00]
  const FIDO_AID: seq<u8> := [0xA0, 0x00, 0x00, 0x06, 0x47, 0x2F, 0x00, 0x01]

  /** A short APDU of `n` bytes whose Lc is `lc`, without Le. */
  predicate BodyOk(n: nat, lc: u8) { n == 5 + lc }

  predicate BodyWithLeOk(n: nat, lc: u8) { n == 6 + lc }

  /** SELECT by DF name of the NFC Forum NDEF application. */
  predicate SelectsNdefApp(a: seq<u8>) {
    && |a| >= 5 && a[0] == CLA_ISO && a[1] == INS_SELECT && a[2] == P1_BY_DF_NAME
    && a[4] != 0 && (BodyOk(|a|, a[4]) || BodyWithLeOk(|a|, a[4]))
    && (a[5..5 + a[4]] == NDEF_AID || a[5..5 + a[4]] == NDEF_AID_V0)
  }

  /** SELECT by DF name of the FIDO application, in one of the four forms the reader knows. */
  predicate SelectsFido(a: seq<u8>) {
    && |a| >= 5 && a[0] == CLA_ISO && a[1] == INS_SELECT && a[2] == P1_BY_DF_NAME
    && (a[3] == 0x00 || a[3] == 0x0C)
    && a[4] == 8 && (BodyOk(|a|, 8) || BodyWithLeOk(|a|, 8))
    && a[5..13] == FIDO_AID
    && (BodyWithLeOk(|a|, 8) ==> a[13] == 0)
  }

  /** The CTAP command byte of an NFCCTAP_MSG APDU, short or extended. */
  function CtapCommand(a: seq<u8>): Option<u8> {
    if |a| < 5 || a[0] != CLA_CTAP || a[1] != INS_CTAP_MSG || a[2] % 0x80 != 0 || a[3] != 0 then None
    else if a[4] != 0 then
      if BodyOk(|a|, a[4]) || BodyWithLeOk(|a|, a[4]) then Some(a[5]) else None
    else if |a| < 8 then None
    else
      var lc := Be16(a[5], a[6]);
      if lc == 0 || (|a| != 7 + lc && |a| != 9 + lc) then None else Some(a[7])
  }

  predicate IsGetResponse(a: seq<u8>) {
    |a| >= 4 && a[0] == CLA_CTAP && a[1] == INS_CTAP_GETRESPONSE && a[3] == 0 && (a[2] == 0 || a[2] == 0x11)
  }

  predicate IsControlEnd(a: seq<u8>) {
    && |a| >= 4 && a[0] == CLA_CTAP && a[1] == INS_CTAP_CONTROL && a[2] == 0x01 && a[3] == 0
    && (|a| == 4 || (|a| == 5 && a[4] == 0))
  }

  /** Everything that would move or drive a FIDO session. */
  predicate DrivesFido(a: seq<u8>) {
    SelectsFido(a) || CtapCommand(a).Some? || IsGetResponse(a) || IsControlEnd(a)
  }

  predicate NeedsTimeExtension(a: seq<u8>) {
    || SelectsFido(a)
    || IsGetResponse(a)
    || (var c := CtapCommand(a);
        c.Some? && (c.value == CMD_MAKE_CREDENTIAL || c.value == CMD_GET_ASSERTION || c.value == CMD_CLIENT_PIN))
  }

  predicate StatusOk(r: seq<u8>) {
    |r| >= 2 && r[|r| - 2] == 0x90 && r[|r| - 1] == 0x00
  }

  // ---- The same on the bytes ----

  ghost predicate IsNdefSelect(a: seq<u8>, p2: u8, version: u8, le: seq<u8>) {
    version <= 1 && |le| <= 1 && a == [0x00, 0xA4, 0x04, p2, 7, 0xD2, 0x76, 0x00, 0x00, 0x85, 0x01, version] + le
  }

  /** The NDEF application is selected by its name of seven bytes, in either version, with any P2 and with or without Le. */
  lemma SelectsNdefAppExactlyWhen(a: seq<u8>)
    ensures SelectsNdefApp(a) <==> exists p2, version, le :: IsNdefSelect(a, p2, version, le)
  {
    if SelectsNdefApp(a) {
      var name := a[5..5 + a[4]];
      assert |name| == 7 && name[6] == a[11];
      assert a == [0x00, 0xA4, 0x04, a[3], 7] + name + a[12..];
      assert IsNdefSelect(a, a[3], name[6], a[12..]);
    }
    if p2: u8, version: u8, le: seq<u8> :| IsNdefSelect(a, p2, version, le) {
      assert a[5..12] == [0xD2, 0x76, 0x00, 0x00, 0x85, 0x01, version];
    }
  }

  /** The FIDO application is selected by exactly four commands. */
  lemma SelectsFidoExactlyWhen(a: seq<u8>)
    ensures SelectsFido(a)
            <==> || a == [0x00, 0xA4, 0x04, 0x00, 8, 0xA0, 0x00, 0x00, 0x06, 0x47, 0x2F, 0x00, 0x01]
                 || a == [0x00, 0xA4, 0x04, 0x00, 8, 0xA0, 0x00, 0x00, 0x06, 0x47, 0x2F, 0x00, 0x01, 0x00]
                 || a == [0x00, 0xA4, 0x04, 0x0C, 8, 0xA0, 0x00, 0x00, 0x06, 0x47, 0x2F, 0x00, 0x01]
                 || a == [0x00, 0xA4, 0x04, 0x0C, 8, 0xA0, 0x00, 0x00, 0x06, 0x47, 0x2F, 0x00, 0x01, 0x00]
  {
    if |a| >= 13 {
      assert a[5..13] == [a[5], a[6], a[7], a[8], a[9], a[10], a[11], a[12]];
    }
  }

  /** A CTAP command byte and its body in a short or an extended APDU, with or without Le. */
  ghost predicate IsCtapMsg(a: seq<u8>, p1: u8, c: u8, body: seq<u8>, le: seq<u8>) {
    && (p1 == 0x00 || p1 == 0x80)
    && (|| (|body| <= 254 && |le| <= 1 && a == [0x80, 0x10, p1, 0x00, |body| + 1, c] + body + le)
        || (|body| <= 0xFFFE && (|le| == 0 || |le| == 2)
            && a == [0x80, 0x10, p1, 0x00, 0x00] + Bytes16(|body| + 1) + [c] + body + le))
  }

  lemma CtapCommandExactlyWhen(a: seq<u8>, c: u8)
    ensures CtapCommand(a) == Some(c) <==> exists p1, body, le :: IsCtapMsg(a, p1, c, body, le)
  {
    if CtapCommand(a) == Some(c) {
      if a[4] != 0 {
        var end: nat := 5 + a[4] as int;
        assert a == [0x80, 0x10, a[2], 0x00, a[4], c] + a[6..end] + a[end..];
        assert IsCtapMsg(a, a[2], c, a[6..end], a[end..]);
      } else {
        var lc := Be16(a[5], a[6]);
        Bytes16Inverse(a[5], a[6]);
        assert a == [0x80, 0x10, a[2], 0x00, 0x00] + Bytes16(lc) + [c] + a[8..7 + lc] + a[7 + lc..];
        assert IsCtapMsg(a, a[2], c, a[8..7 + lc], a[7 + lc..]);
      }
    }
    if p1: u8, body: seq<u8>, le: seq<u8> :| IsCtapMsg(a, p1, c, body, le) {
      CtapMsgIsRecognised(a, p1, c, body, le);
    }
  }

  lemma CtapMsgIsRecognised(a: seq<u8>, p1: u8, c: u8, body: seq<u8>, le: seq<u8>)
    requires IsCtapMsg(a, p1, c, body, le)
    ensures CtapCommand(a) == Some(c)
  {
    if |body| <= 0xFFFE && a == [0x80, 0x10, p1, 0x00, 0x00] + Bytes16(|body| + 1) + [c] + body + le {
      Be16Inverse(|body| + 1);
      assert a[5] == Bytes16(|body| + 1)[0] && a[6] == Bytes16(|body| + 1)[1];
    }
  }

  /** The commands before which the host is asked for time: a FIDO SELECT, GET RESPONSE, and three CTAP commands. */
  lemma NeedsTimeExtensionExactlyWhen(a: seq<u8>)
    ensures IsGetResponse(a) <==> |a| >= 4 && a[..4] in {[0x80, 0x11, 0x00, 0x00], [0x80, 0x11, 0x11, 0x00]}
    ensures IsControlEnd(a) <==> a == [0x80, 0x12, 0x01, 0x00] || a == [0x80, 0x12, 0x01, 0x00, 0x00]
    ensures NeedsTimeExtension(a)
            <==> SelectsFido(a) || IsGetResponse(a) || CtapCommand(a) in {Some(0x01), Some(0x02), Some(0x06)}
  {
    hide CtapCommand, SelectsFido;
    if |a| >= 4 {
      assert a[..4] == [a[0], a[1], a[2], a[3]];
    }
  }

  lemma StatusOkExactlyWhen(r: seq<u8>)
    ensures StatusOk(r) <==> exists body :: r == body + [0x90, 0x00]
  {
    if StatusOk(r) {
      assert r == r[..|r| - 2] + [0x90, 0x00];
    }
  }
}
