/**
  * The CCID slot and transfer machine as a function from state and input to state and outputs.
  * What the firmware asks of the outside (the card, the clock, the USB queue) is an input.
  */
module CcidMachine {
  import opened Bytes
  import opened CcidFrame
  import opened Apdu

  datatype Kind = NoTag | Type2 | Type4 | Type5

  datatype Ccid = Ccid(
    sess: bool,
    present: bool,
    isoOpen: bool,
    fido: bool,
    deferred: bool,
    kind: Kind,
    protocol: u8,
    owner: bool,
    chain: seq<u8>,
    chainOff: nat,
    chainActive: bool,
    cmd: seq<u8>,
    cmdActive: bool)

  const Initial := Ccid(false, false, false, false, false, NoTag, PROTOCOL_T1, false, [], 0, false, [], false)

  /** What the machine does to the outside, in order. `TimeExtension(q)` sends `TimeExtensionBlock(q)`. */
  datatype Out =
    | Sent(bytes: seq<u8>)
    | TimeExtension(seqNo: u8)
    | Notify(present: bool)
    | IsoOpened
    | IsoReleased
    | Dispatched(payload: seq<u8>, response: seq<u8>)
    | Relayed(apdu: seq<u8>, wrapped: bool, response: seq<u8>)

  /** What the outside answers during one bulk message. */
  datatype Env = Env(
    sendOk: bool,                       // the USB queue takes the final reply
    abortBefore: Option<(u8, u8)>,      // pending abort request (slot, seq) when the message arrives
    abortAfter: Option<(u8, u8)>,       // the same after the card exchange
    opens: bool,                        // ISO-DEP activation succeeds
    prepared: bool,                     // the storage tag is ready for power-on
    atr: Option<seq<u8>>,               // the ATR, if one can be given
    waits: nat,                         // time extensions sent while a session is opened or the card works on a command
    card: seq<u8>,                      // the card's response to a relayed APDU
    handler: seq<u8>)                   // the response of a storage handler
  {
    /** The contract of the foreign calls: an ATR fits the reply buffer. */
    predicate Ok() {
      atr.Some? ==> |atr.value| <= RSP_DATA_CAP
    }
  }

  function Fit(s: seq<u8>, cap: nat): (r: seq<u8>)
    ensures |r| <= cap && (|s| <= cap ==> r == s)
  {
    if |s| <= cap then s else s[..cap]
  }

  function Level(s: Ccid): icc {
    if !s.present then NO_ICC else if s.sess then ACTIVE else INACTIVE
  }

  // ---- Session and chains ----

  function ClearChain(s: Ccid): Ccid { s.(chain := [], chainOff := 0, chainActive := false) }

  function ClearCmd(s: Ccid): Ccid { s.(cmd := [], cmdActive := false) }

  function Teardown(s: Ccid): Ccid {
    ClearCmd(ClearChain(s)).(fido := false, isoOpen := false, sess := false, owner := false)
  }

  function TeardownOuts(s: Ccid): seq<Out> { if s.isoOpen then [IsoReleased] else [] }

  function NoteActivity(s: Ccid): Ccid { if s.sess then s.(deferred := false) else s }

  function Removed(s: Ccid): Ccid { Teardown(s.(present := false, deferred := false, kind := NoTag)) }

  function RemovedOuts(s: Ccid): seq<Out> { TeardownOuts(s) + (if s.present then [Notify(false)] else []) }

  // ---- Dispatch of an APDU ----

  datatype Answer = Answer(rsp: seq<u8>, relayed: Option<Out>, fido: bool, active: bool)

  function Plain(s: Ccid, rsp: seq<u8>): Answer { Answer(rsp, None, s.fido, rsp != []) }

  function Pn53xStatus(code: u8, status: u8): seq<u8> { [0xD5, code, status, 0x90, 0x00] }

  function InDataExchange(s: Ccid, cmd: seq<u8>, cap: nat, env: Env): Answer
    requires cap >= 5
  {
    if |cmd| < 4 then Plain(s, [])
    else if cmd[2] != 1 then Plain(s, Pn53xStatus(0x41, 0x01))
    else if s.kind == Type2 then Plain(s, Fit(env.handler, cap))
    else if s.kind == Type4 then
      var inner := cmd[3..];
      if (s.fido && SelectsNdefApp(inner)) || DrivesFido(inner) then Plain(s, Pn53xStatus(0x41, 0x01))
      else
        var r := Fit(env.card, cap - 5);
        var rsp := if |r| < 2 then Pn53xStatus(0x41, 0x01) else [0xD5, 0x41, 0x00] + r + [0x90, 0x00];
        Answer(rsp, Some(Relayed(inner, true, r)), s.fido, true)
    else Plain(s, Pn53xStatus(0x41, 0x01))
  }

  function Acr122Direct(s: Ccid, a: seq<u8>, cap: nat, env: Env): Answer
    requires |a| >= 2 && cap >= 10
  {
    if |a| < 5 then Plain(s, [])
    else if a == [0xFF, 0x00, 0x48, 0x00, 0x00] then
      Plain(s, [0x41, 0x43, 0x52, 0x31, 0x32, 0x32, 0x55, 0x32, 0x30, 0x33])
    else if a[0] != 0xFF || a[1] != 0 || a[2] != 0 || a[3] != 0 then Plain(s, [0x6D, 0x00])
    else if !BodyOk(|a|, a[4]) || a[4] < 2 then Plain(s, [0x67, 0x00])
    else
      var cmd := a[5..];
      if cmd[0] != 0xD4 then Plain(s, [0x6D, 0x00])
      else if cmd[1] == 0x02 then Plain(s, [0xD5, 0x03, 0x32, 0x01, 0x06, 0x07, 0x90, 0x00])
      else if cmd[1] == 0x4A then Plain(s, if |cmd| < 4 then [] else Fit(env.handler, cap))
      else if cmd[1] == 0x40 then InDataExchange(s, cmd, cap, env)
      else if cmd[1] == 0x42 then
        Plain(s, if |cmd| < 3 then []
                 else if s.kind == Type2 || s.kind == Type5 then Fit(env.handler, cap) else Pn53xStatus(0x43, 0x01))
      else if cmd[1] == 0x44 then Plain(s, Pn53xStatus(0x45, 0x00))
      else if cmd[1] == 0x52 then Plain(s, Pn53xStatus(0x53, 0x00))
      else Plain(s, Pn53xStatus((cmd[1] as int + 1) % 0x100, 0x27))
  }

  function DirectRelay(s: Ccid, a: seq<u8>, cap: nat, env: Env): Answer {
    if s.fido && SelectsNdefApp(a) then Plain(s, [0x69, 0xFF])
    else
      var r := Fit(env.card, cap);
      Answer(if |r| >= 2 then r else [0x69, 0xFF], Some(Relayed(a, false, r)), s.fido || (SelectsFido(a) && StatusOk(r)), true)
  }

  function Dispatch(s: Ccid, a: seq<u8>, cap: nat, env: Env): (r: Answer)
    requires cap >= 10
    ensures |r.rsp| <= cap
  {
    if |a| < 2 then Answer([0x6F, 0x00], None, s.fido, false)
    else if a[0] == CLA_PROPRIETARY then
      if a[1] == 0x00 then Acr122Direct(s, a, cap, env)
      else if a[1] in {0xCA, 0xB0, 0xD6, 0xC2} then Plain(s, Fit(env.handler, cap))
      else Plain(s, [0x6D, 0x00])
    else if s.kind == Type2 || s.kind == Type5 then
      if a[0] != CLA_ISO then Answer([0x6E, 0x00], None, s.fido, false) else Plain(s, [0x6D, 0x00])
    else if s.kind == Type4 then DirectRelay(s, a, cap, env)
    else Plain(s, [0x6D, 0x00])
  }

  // ---- Response chaining ----

  function ChunkLen(s: Ccid): nat
    requires s.chainOff <= |s.chain|
  {
    Min(RSP_DATA_CAP, |s.chain| - s.chainOff)
  }

  function ChunkLevel(s: Ccid): u8
    requires s.chainOff <= |s.chain|
  {
    if s.chainOff == 0 then LEVEL_BEGIN else if s.chainOff + ChunkLen(s) >= |s.chain| then LEVEL_END else LEVEL_MIDDLE
  }

  function SendChunk(s: Ccid, seqNo: u8, sendOk: bool): (Ccid, seq<Out>) {
    if !s.chainActive || s.chainOff >= |s.chain| then (ClearChain(s), [])
    else
      var off := s.chainOff + ChunkLen(s);
      var reply := Sent(Block(seqNo, s.chain[s.chainOff..off], ChunkLevel(s)));
      (if !sendOk || off >= |s.chain| then ClearChain(s) else s.(chainOff := off), [reply])
  }

  function SendResponse(s: Ccid, seqNo: u8, data: seq<u8>, sendOk: bool): (Ccid, seq<Out>) {
    var s1 := ClearChain(s);
    if |data| <= RSP_DATA_CAP then (s1, [Sent(Block(seqNo, data, LEVEL_SINGLE))])
    else if |data| > EXTENDED_RSP_BUF_SIZE then (s1, [Sent(Block(seqNo, [0x6F, 0x00], LEVEL_SINGLE))])
    else SendChunk(s1.(chain := data, chainOff := 0, chainActive := true), seqNo, sendOk)
  }

  // ---- Bulk messages ----

  /** The reply of the checks made before any state is touched, if one of them fails. */
  function EarlyError(s: Ccid, f: seq<u8>): Option<seq<u8>>
    requires |f| >= HEADER_LEN
  {
    var c, q := f[0], f[SEQ];
    if Validate(f).None? then Some(CommandFailed(c, q, Level(s), ERR_BAD_DWLENGTH))
    else if f[SLOT] != 0 then Some(SlotAbsent(c, f[SLOT], q))
    else if RequiresZeroLength(c) && |f| != HEADER_LEN then Some(CommandFailed(c, q, Level(s), ERR_BAD_DWLENGTH))
    else if RequiresRfuZero(c) && (f[PARAM1] != 0 || f[PARAM2] != 0 || f[PARAM3] != 0) then
      Some(CommandFailed(c, q, Level(s), ERR_POWER_SELECT))
    else if c == XFR && XfrLevelError(LevelParam(f), |f| - HEADER_LEN) != 0 then
      Some(CommandFailed(c, q, Level(s), XfrLevelError(LevelParam(f), |f| - HEADER_LEN)))
    else if c == ICC_ON && (f[PARAM2] != 0 || f[PARAM3] != 0) then Some(CommandFailed(c, q, Level(s), ERR_BAD_LEVEL))
    else if c == SET_RATE_CLOCK && (f[PARAM1] != 0 || f[PARAM2] != 0 || f[PARAM3] != 0) then
      Some(CommandFailed(c, q, Level(s),
        if f[PARAM1] != 0 then ERR_POWER_SELECT else if f[PARAM2] != 0 then ERR_BAD_LEVEL else ERR_PROTOCOL_TYPE))
    else None
  }

  /** Whether a message passes those checks; the state has no say in it. */
  predicate Accepted(f: seq<u8>) {
    |f| >= HEADER_LEN && EarlyError(Initial, f).None?
  }

  predicate IsContinuation(f: seq<u8>) {
    Validate(f).Some? && f[0] == XFR && |f| == HEADER_LEN && LevelParam(f) == RESPONSE_CONTINUE
  }

  function Reply(s: Ccid, bytes: seq<u8>): (Ccid, seq<Out>) { (s, [Sent(bytes)]) }

  function Fail(s: Ccid, f: seq<u8>, err: u8): (Ccid, seq<Out>)
    requires |f| >= HEADER_LEN
  {
    Reply(s, CommandFailed(f[0], f[SEQ], Level(s), err))
  }

  /** The activation of the tag in the slot, from a torn-down state, and its reply. */
  function Activate(s: Ccid, q: u8, env: Env): (Ccid, seq<u8>)
    requires env.Ok()
  {
    var s1 := s.(protocol := PROTOCOL_T1);
    if !s.present || s.kind == NoTag then (s, Status(RDR_DATABLOCK, q, CMD_FAIL + NO_ICC, ERR_ICC_MUTE))
    else if s.kind == Type4 && (!env.opens || env.atr.None?) then
      (s1, Status(RDR_DATABLOCK, q, CMD_FAIL + INACTIVE, ERR_ICC_MUTE))
    else if s.kind != Type4 && !env.prepared then (s1, Status(RDR_DATABLOCK, q, CMD_FAIL + INACTIVE, ERR_ICC_MUTE))
    else if s.kind != Type4 && env.atr.None? then (s1, Status(RDR_DATABLOCK, q, CMD_FAIL + NO_ICC, ERR_ICC_MUTE))
    else
      (s1.(isoOpen := s.kind == Type4, sess := true, owner := true, deferred := false),
       Block(q, env.atr.value, LEVEL_SINGLE))
  }

  /** What opening the ISO-DEP session of a Type 4 tag sends on the way, and the session, whether or not an ATR follows. */
  function OpenOuts(s: Ccid, q: u8, env: Env): seq<Out> {
    if !s.present || s.kind != Type4 then [] else Waits(q, env.waits) + (if env.opens then [IsoOpened] else [])
  }

  function PowerOn(s: Ccid, f: seq<u8>, env: Env): (Ccid, seq<Out>)
    requires |f| >= HEADER_LEN && env.Ok()
  {
    if f[PARAM1] > 3 then Reply(s, Status(RDR_DATABLOCK, f[SEQ], CMD_FAIL + INACTIVE, ERR_POWER_SELECT))
    else
      var (s1, reply) := Activate(Teardown(s), f[SEQ], env);
      (s1, TeardownOuts(s) + OpenOuts(s, f[SEQ], env) + [Sent(reply)])
  }

  function Parameters(s: Ccid, f: seq<u8>): (Ccid, seq<Out>)
    requires |f| >= HEADER_LEN
  {
    var err := if !s.present then ERR_ICC_MUTE else ParamError(f);
    var status := if !s.present then CMD_FAIL + NO_ICC else if err != 0 then CMD_FAIL + Level(s) else Level(s);
    var protocol :=
      if s.present && f[0] == RESET_PARAMS then PROTOCOL_T1
      else if s.present && f[0] == SET_PARAMS && err == 0 then f[PARAM1] else s.protocol;
    (NoteActivity(s.(protocol := protocol)), [Sent(Params(f[SEQ], status, err, protocol))])
  }

  function ResponseCap(s: Ccid): nat { if s.kind == Type4 then EXTENDED_RSP_BUF_SIZE else RSP_DATA_CAP }

  predicate StorageNeedsTimeExtension(kind: Kind, a: seq<u8>) {
    (kind == Type2 || kind == Type5) && |a| >= 2 && a[0] == CLA_PROPRIETARY && (a[1] == 0xB0 || a[1] == 0xD6)
  }

  predicate AsksTimeFirst(kind: Kind, a: seq<u8>) {
    (kind == Type4 && NeedsTimeExtension(a)) || StorageNeedsTimeExtension(kind, a)
  }

  /** What a complete command APDU does before the reply is composed. */
  function ExchangeOuts(s: Ccid, f: seq<u8>, a: seq<u8>, env: Env): seq<Out>
    requires |f| >= HEADER_LEN
  {
    var r := Dispatch(s, a, ResponseCap(s), env);
    (if AsksTimeFirst(s.kind, a) then [TimeExtension(f[SEQ])] else [])
    + (if r.relayed.Some? then [r.relayed.value] else [])
    + (Waits(f[SEQ], if s.kind == Type4 || AsksTimeFirst(s.kind, a) then env.waits else 0) + [Dispatched(a, r.rsp)])
  }

  function Waits(q: u8, n: nat): seq<Out> { seq(n, _ => TimeExtension(q)) }

  function Exchanged(s: Ccid, f: seq<u8>, a: seq<u8>, env: Env): Ccid
    requires |f| >= HEADER_LEN
  {
    var r := Dispatch(s, a, ResponseCap(s), env);
    var s1 := s.(fido := r.fido);
    var s2 := if r.active then NoteActivity(s1) else s1;
    if LevelParam(f) == LEVEL_END then ClearCmd(s2) else s2
  }

  /** The transfer of a complete command APDU and of its response. */
  function Exchange(s: Ccid, f: seq<u8>, a: seq<u8>, env: Env): (Ccid, seq<Out>)
    requires |f| >= HEADER_LEN
  {
    var s1, outs := Exchanged(s, f, a, env), ExchangeOuts(s, f, a, env);
    if env.abortAfter == Some((f[SLOT], f[SEQ])) then
      (ClearChain(s1), outs + [Sent(CommandFailed(f[0], f[SEQ], Level(s1), ERR_CMD_ABORTED))])
    else
      var (s2, reply) := SendResponse(s1, f[SEQ], Dispatch(s, a, ResponseCap(s), env).rsp, env.sendOk);
      (s2, outs + reply)
  }

  function Transfer(s: Ccid, f: seq<u8>, env: Env): (Ccid, seq<Out>)
    requires |f| >= HEADER_LEN
  {
    var level, data := LevelParam(f), f[HEADER_LEN..];
    if !s.sess then Reply(s, CommandFailed(f[0], f[SEQ], NO_ICC, ERR_ICC_MUTE))
    else if level == LEVEL_SINGLE then
      if s.cmdActive then Fail(ClearCmd(s), f, ERR_BAD_LEVEL) else Exchange(s, f, data, env)
    else if data == [] then Fail(s, f, ERR_BAD_DWLENGTH)
    else
      var s1 := if level == LEVEL_BEGIN then ClearCmd(s) else s;
      if level != LEVEL_BEGIN && !s.cmdActive then Fail(s, f, ERR_BAD_DWLENGTH)
      else if |s1.cmd| + |data| > EXTENDED_RSP_BUF_SIZE then Fail(ClearCmd(s1), f, ERR_BAD_DWLENGTH)
      else
        var s2 := s1.(cmd := s1.cmd + data, cmdActive := true);
        if level == LEVEL_BEGIN || level == LEVEL_MIDDLE then Reply(s2, Block(f[SEQ], [], RESPONSE_CONTINUE))
        else Exchange(s2, f, s2.cmd, env)
  }

  function Command(s: Ccid, f: seq<u8>, env: Env): (Ccid, seq<Out>)
    requires |f| >= HEADER_LEN && env.Ok()
  {
    var c, q := f[0], f[SEQ];
    if c == SLOT_STATUS then Reply(s, Status(RDR_SLOTSTATUS, q, Level(s), 0))
    else if c == ICC_OFF then
      var s1 := Teardown(s).(protocol := PROTOCOL_T1);
      (s1, TeardownOuts(s) + [Sent(Status(RDR_SLOTSTATUS, q, if s.present then INACTIVE else NO_ICC, 0))])
    else if c == ICC_ON then PowerOn(s, f, env)
    else if c == GET_PARAMS || c == RESET_PARAMS || c == SET_PARAMS then Parameters(s, f)
    else if c == ABORT then Reply(ClearCmd(ClearChain(s)), Status(RDR_SLOTSTATUS, q, Level(s), 0))
    else if c == SECURE then Reply(s, Status(RDR_DATABLOCK, q, CMD_FAIL + Level(s), 0))
    else if c == ESCAPE then Fail(s, f, 0)
    else if c == SET_RATE_CLOCK then
      if |f| != HEADER_LEN + DATA_RATE_PAYLOAD_LEN then Reply(s, DataRate(q, CMD_FAIL + Level(s), ERR_BAD_DWLENGTH))
      else Reply(s, DataRate(q, Level(s), 0))
    else if c == XFR then Transfer(s, f, env)
    else Reply(s, Status(RDR_SLOTSTATUS, q, CMD_FAIL + Level(s), 0))
  }

  /** The state in which a message that passed the checks and is no continuation is executed: stale chains are gone. */
  function Prepared(s: Ccid, f: seq<u8>): Ccid
    requires |f| >= HEADER_LEN
  {
    var s1 := ClearChain(s);
    if f[0] != XFR then ClearCmd(s1) else s1
  }

  function HandleBulk(s: Ccid, f: seq<u8>, env: Env): (Ccid, seq<Out>)
    requires env.Ok()
  {
    if |f| < HEADER_LEN then (s, [])
    else if EarlyError(s, f).Some? then Reply(s, EarlyError(s, f).value)
    else if IsContinuation(f) then
      if s.chainActive then SendChunk(s, f[SEQ], env.sendOk) else Fail(s, f, ERR_BAD_LEVEL)
    else
      var s1 := Prepared(s, f);
      match env.abortBefore
      case Some((slot, q)) =>
        if f[SLOT] == slot && (f[0] != ABORT || f[SEQ] != q) then Fail(s1, f, ERR_CMD_ABORTED) else Command(s1, f, env)
      case None => Command(s1, f, env)
  }

  // ---- Polling and tag events ----

  function Poll(s: Ccid, elapsed: bool, frame: Option<seq<u8>>, env: Env): (Ccid, seq<Out>)
    requires env.Ok()
  {
    var due := s.deferred && (!s.sess || elapsed);
    var s1, outs := if due then Removed(s) else s, if due then RemovedOuts(s) else [];
    match frame
    case None => (s1, outs)
    case Some(f) =>
      var (s2, more) := HandleBulk(s1, Fit(f, WORK_BUF_SIZE), env);
      (s2, outs + more)
  }

  function TagDetected(s: Ccid, kind: Kind): (Ccid, seq<Out>) {
    var s1, outs := if s.deferred then Removed(s) else s, if s.deferred then RemovedOuts(s) else [];
    var s2 := ClearChain(s1).(deferred := false, kind := kind, fido := false, protocol := PROTOCOL_T1);
    if s1.present then (s2, outs) else (s2.(present := true), outs + [Notify(true)])
  }

  function TagRemoved(s: Ccid, elapsed: bool): (Ccid, seq<Out>) {
    if !s.present then (s, [])
    else if !s.sess && !elapsed then (s.(deferred := true), [])
    else (Removed(s), RemovedOuts(s))
  }

  /** The CCID state and what the reader's loop remembers between steps. */
  datatype Reader = Reader(ccid: Ccid, lastLevel: icc, misses: nat)

  /** What the loop observes in one step. */
  datatype Field = Field(
    early: bool,             // less than the probe or poll interval has passed
    probeDue: bool,          // the grace period after host activity is over
    elapsed: bool,           // the removal deadline has passed
    loaded: bool,            // the field is still loaded by the active Type 4 tag
    probed: Option<Kind>,    // the tag found by a probe
    sameUid: bool,
    remembered: bool,        // a new UID could be stored
    found: Option<Kind>)     // the tag found when the slot was empty
  {
    predicate Ok() {
      probed != Some(NoTag) && found != Some(NoTag)
    }
  }

  const CONSECUTIVE_MISSES := 2

  function LoopStep(r: Reader, i: Field): (Reader, seq<Out>) {
    var s := r.ccid;
    var level := Level(s);
    var misses := if level != r.lastLevel then 0 else r.misses;
    var r1 := Reader(s, level, misses);
    if level == NO_ICC then
      if i.early || i.found.None? then (r1.(misses := 0), [])
      else
        var (s1, outs) := TagDetected(s, i.found.value);
        (Reader(s1, level, 0), outs)
    else if level == ACTIVE && s.kind == Type4 && s.sess && s.isoOpen && s.fido then (r1, [])
    else if i.early then (r1, [])
    else if level == ACTIVE && s.kind != Type4 && !i.probeDue then (r1, [])
    else
      var watched := level == ACTIVE && s.kind == Type4;
      if (if watched then i.loaded else i.probed.Some?) then
        if !watched && !i.sameUid && i.remembered then
          var (s1, o1) := TagRemoved(s, i.elapsed);
          var (s2, o2) := TagDetected(s1, i.probed.value);
          (Reader(s2, level, 0), o1 + o2)
        else (r1.(misses := 0), [])
      else if misses + 1 >= CONSECUTIVE_MISSES then
        var (s1, outs) := TagRemoved(s, i.elapsed);
        (Reader(s1, level, 0), outs)
      else (r1.(misses := misses + 1), [])
  }

  // ---- Runs ----

  datatype Step =
    | Serve(elapsed: bool, frame: Option<seq<u8>>, env: Env)
    | Watch(field: Field)
  {
    predicate Ok() {
      match this
      case Serve(_, _, env) => env.Ok()
      case Watch(field) => field.Ok()
    }
  }

  type Legal = s: Step | s.Ok() witness Watch(Field(true, false, false, false, None, false, false, None))

  function Take(r: Reader, step: Legal): (Reader, seq<Out>) {
    match step
    case Serve(elapsed, frame, env) =>
      var (s1, outs) := Poll(r.ccid, elapsed, frame, env);
      (r.(ccid := s1), outs)
    case Watch(field) => LoopStep(r, field)
  }

  const Start := Reader(Initial, NO_ICC, 0)

  /** The state after a run, and everything the run has done. */
  function After(run: seq<Legal>): Reader {
    if run == [] then Start else Take(After(run[..|run| - 1]), run[|run| - 1]).0
  }

  function Log(run: seq<Legal>): seq<Out> {
    if run == [] then [] else Log(run[..|run| - 1]) + Take(After(run[..|run| - 1]), run[|run| - 1]).1
  }
}
