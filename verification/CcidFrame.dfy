/** USB CCID Rev 1.10 bulk messages (section 6): the ten-byte header, its validation, and the replies the reader sends. */
module CcidFrame {
  import opened Bytes

  const HEADER_LEN := 10
  const WORK_BUF_SIZE := 2060
  const MAX_XFR_PAYLOAD := 2050
  const EXTENDED_RSP_BUF_SIZE := 2050
  const RSP_DATA_CAP := 510
  const RSP_FRAME_BYTES := 520
  const DATA_RATE_PAYLOAD_LEN := 8
  const T1_PARAMS_LEN := 7

  const SLOT := 5
  const SEQ := 6
  const PARAM1 := 7
  const PARAM2 := 8
  const PARAM3 := 9

  const SET_PARAMS: u8 := 0x61
  const ICC_ON: u8 := 0x62
  const ICC_OFF: u8 := 0x63
  const SLOT_STATUS: u8 := 0x65
  const SECURE: u8 := 0x69
  const T0_APDU: u8 := 0x6A
  const ESCAPE: u8 := 0x6B
  const GET_PARAMS: u8 := 0x6C
  const RESET_PARAMS: u8 := 0x6D
  const ICC_CLOCK: u8 := 0x6E
  const XFR: u8 := 0x6F
  const MECHANICAL: u8 := 0x71
  const ABORT: u8 := 0x72
  const SET_RATE_CLOCK: u8 := 0x73

  const RDR_DATABLOCK: u8 := 0x80
  const RDR_SLOTSTATUS: u8 := 0x81
  const RDR_PARAMETERS: u8 := 0x82
  const RDR_ESCAPE: u8 := 0x83
  const RDR_DATA_RATE: u8 := 0x84

  const LEVEL_SINGLE: u16 := 0x00
  const LEVEL_BEGIN: u16 := 0x01
  const LEVEL_END: u16 := 0x02
  const LEVEL_MIDDLE: u16 := 0x03
  const RESPONSE_CONTINUE: u16 := 0x10

  const ERR_CMD_ABORTED: u8 := 0xFF
  const ERR_ICC_MUTE: u8 := 0xFE
  const ERR_BAD_DWLENGTH: u8 := 0x01
  const ERR_NO_SLOT: u8 := 0x05
  const ERR_POWER_SELECT: u8 := 0x07
  const ERR_BAD_LEVEL: u8 := 0x08
  const ERR_PROTOCOL_TYPE: u8 := 0x09

  const PROTOCOL_T1: u8 := 0x01

  /** The ICC status of a reply: 0 active, 1 inactive, 2 no ICC. */
  type icc = x: int | 0 <= x < 3

  const ACTIVE: icc := 0
  const INACTIVE: icc := 1
  const NO_ICC: icc := 2
  const CMD_FAIL := 0x40
  const TIME_EXTENSION := 0x80

  function Le32(v: u32): (s: seq<u8>)
    ensures |s| == 4
  {
    [v % 0x100, v / 0x100 % 0x100, v / 0x1_0000 % 0x100, v / 0x100_0000]
  }

  function LoadLe32(s: seq<u8>, at: nat): u32
    requires at + 4 <= |s|
  {
    Be32(s[at + 3], s[at + 2], s[at + 1], s[at])
  }

  lemma Le32Inverse(s: seq<u8>, at: nat, v: u32)
    requires at + 4 <= |s| && s[at..at + 4] == Le32(v)
    ensures LoadLe32(s, at) == v
  {
    var w := Bytes32(v);
    Be32Inverse(v);
    assert s[at] == s[at..at + 4][0] && s[at + 1] == s[at..at + 4][1];
    assert s[at + 2] == s[at..at + 4][2] && s[at + 3] == s[at..at + 4][3];
  }

  /** The payload length of a well-formed message: the announced length is in range and is the length received. */
  function Validate(f: seq<u8>): (r: Option<nat>)
    ensures r.Some? <==> |f| >= HEADER_LEN && LoadLe32(f, 1) <= MAX_XFR_PAYLOAD && |f| == HEADER_LEN + LoadLe32(f, 1)
    ensures r.Some? ==> r.value == |f| - HEADER_LEN
  {
    if |f| < HEADER_LEN then None
    else
      var n := LoadLe32(f, 1);
      if n > MAX_XFR_PAYLOAD || HEADER_LEN + n != |f| then None else Some(n)
  }

  /** A message put together: command, length of the payload, five bytes of header, payload. */
  ghost predicate Frames(f: seq<u8>, cmd: u8, header: seq<u8>, payload: seq<u8>) {
    |header| == HEADER_LEN - 5 && |payload| <= MAX_XFR_PAYLOAD && f == [cmd] + Le32(|payload|) + header + payload
  }

  lemma StoredLengthIsLoaded(f: seq<u8>)
    requires |f| >= HEADER_LEN
    ensures f[1..5] == Le32(LoadLe32(f, 1))
  {
    Bytes32Inverse(f[4], f[3], f[2], f[1]);
  }

  /** The validation accepts exactly the messages put together that way, with the length of the payload. */
  lemma ValidExactlyWhen(f: seq<u8>, n: nat)
    ensures Validate(f) == Some(n) <==> exists cmd, header, payload :: Frames(f, cmd, header, payload) && |payload| == n
  {
    hide Le32, LoadLe32;
    if Validate(f) == Some(n) {
      StoredLengthIsLoaded(f);
      assert f == [f[0]] + f[1..5] + f[5..HEADER_LEN] + f[HEADER_LEN..];
      assert Frames(f, f[0], f[5..HEADER_LEN], f[HEADER_LEN..]);
    }
    if cmd, header, payload :| Frames(f, cmd, header, payload) && |payload| == n {
      assert f[1..5] == Le32(n);
      Le32Inverse(f, 1, n);
    }
  }

  // ---- Classification ----

  function ReplyType(cmd: u8): u8 {
    if cmd == ICC_ON || cmd == XFR || cmd == SECURE then RDR_DATABLOCK
    else if cmd == GET_PARAMS || cmd == RESET_PARAMS || cmd == SET_PARAMS then RDR_PARAMETERS
    else if cmd == ESCAPE then RDR_ESCAPE
    else if cmd == SET_RATE_CLOCK then RDR_DATA_RATE
    else RDR_SLOTSTATUS
  }

  predicate RequiresZeroLength(cmd: u8) {
    cmd in {SLOT_STATUS, ICC_ON, ICC_OFF, GET_PARAMS, RESET_PARAMS, ABORT, ICC_CLOCK, T0_APDU, MECHANICAL}
  }

  predicate RequiresRfuZero(cmd: u8) {
    cmd in {SLOT_STATUS, ICC_OFF, GET_PARAMS, RESET_PARAMS, ABORT}
  }

  function LevelParam(f: seq<u8>): u16
    requires |f| >= HEADER_LEN
  {
    Be16(f[PARAM3], f[PARAM2])
  }

  function XfrLevelError(level: u16, n: nat): u8 {
    if level == RESPONSE_CONTINUE then
      if n == 0 then 0 else ERR_BAD_DWLENGTH
    else if level == LEVEL_SINGLE || level == LEVEL_BEGIN || level == LEVEL_MIDDLE || level == LEVEL_END then 0
    else ERR_BAD_LEVEL
  }

  function ParamError(f: seq<u8>): u8
    requires |f| >= HEADER_LEN
  {
    if f[0] != SET_PARAMS then 0
    else if LoadLe32(f, 1) != T1_PARAMS_LEN then 0x01
    else if f[PARAM1] != PROTOCOL_T1 then 0x07
    else if f[PARAM2] != 0 then 0x08
    else if f[PARAM3] != 0 then 0x09
    else 0
  }

  // ---- Replies ----

  /** A message without payload. */
  function Status(msg: u8, seqNo: u8, status: u8, err: u8): seq<u8> {
    [msg, 0, 0, 0, 0, 0, seqNo, status, err, 0]
  }

  function BlockHeader(msg: u8, seqNo: u8, n: u32, status: u8, chain: u8): seq<u8> {
    [msg] + Le32(n) + [0, seqNo, status, 0, chain]
  }

  /** A successful data block. */
  function Block(seqNo: u8, payload: seq<u8>, chain: u8): seq<u8>
    requires |payload| <= 0xFFFF
  {
    BlockHeader(RDR_DATABLOCK, seqNo, |payload|, ACTIVE, chain) + payload
  }

  const DEFAULT_CLOCK_KHZ: u32 := 13560
  const DEFAULT_DATA_RATE_BPS: u32 := 106000

  function DataRate(seqNo: u8, status: u8, err: u8): seq<u8> {
    [RDR_DATA_RATE, 8, 0, 0, 0, 0, seqNo, status, err, 0] + Le32(DEFAULT_CLOCK_KHZ) + Le32(DEFAULT_DATA_RATE_BPS)
  }

  function ParamBody(protocol: u8): seq<u8> {
    if protocol == PROTOCOL_T1 then [0x11, 0, 0, 0x4D, 0, 0xFE, 0] else [0x11, 0, 0, 0x0A, 0]
  }

  function Params(seqNo: u8, status: u8, err: u8, protocol: u8): seq<u8> {
    [RDR_PARAMETERS, |ParamBody(protocol)|, 0, 0, 0, 0, seqNo, status, err, protocol] + ParamBody(protocol)
  }

  function TimeExtensionBlock(seqNo: u8): seq<u8> {
    [RDR_DATABLOCK, 0, 0, 0, 0, 0, seqNo, TIME_EXTENSION + ACTIVE, 0x0A, 0]
  }

  lemma SmallLe32(n: u8)
    ensures Le32(n) == [n, 0, 0, 0]
  {
  }

  function CommandFailed(cmd: u8, seqNo: u8, level: icc, err: u8): seq<u8> {
    if ReplyType(cmd) == RDR_DATA_RATE then DataRate(seqNo, CMD_FAIL + level, err)
    else Status(ReplyType(cmd), seqNo, CMD_FAIL + level, err)
  }

  function SlotAbsent(cmd: u8, slot: u8, seqNo: u8): seq<u8> {
    CommandFailed(cmd, seqNo, NO_ICC, ERR_NO_SLOT)[SLOT := slot]
  }
}
