/**
  * Long commands and long responses (USB CCID section 6.1.4 and 6.2.1, wLevelParameter and bChainParameter):
  * a command is dispatched as the concatenation of the blocks acknowledged since its first one,
  * and a response is handed out once, in order, or dropped.
  */
module CcidChaining {
  import opened Bytes
  import opened CcidFrame
  import opened Apdu
  import opened CcidMachine
  import opened CcidSafety

  // ---- The checks come before the state ----

  lemma AcceptanceIgnoresState(s: Ccid, f: seq<u8>)
    requires |f| >= HEADER_LEN
    ensures EarlyError(s, f).None? <==> Accepted(f)
  {
  }

  lemma FailedStatus(c: u8, q: u8, level: icc, err: u8)
    ensures |CommandFailed(c, q, level, err)| >= HEADER_LEN && CommandFailed(c, q, level, err)[PARAM1] == CMD_FAIL + level
  {
  }

  lemma EarlyErrorFails(s: Ccid, f: seq<u8>)
    requires |f| >= HEADER_LEN && EarlyError(s, f).Some?
    ensures |EarlyError(s, f).value| >= HEADER_LEN && EarlyError(s, f).value[PARAM1] >= CMD_FAIL
  {
    hide CommandFailed;
    forall level: icc, err: u8
      ensures |CommandFailed(f[0], f[SEQ], level, err)| >= HEADER_LEN
      ensures CommandFailed(f[0], f[SEQ], level, err)[PARAM1] >= CMD_FAIL
    {
      FailedStatus(f[0], f[SEQ], level, err);
    }
  }

  /** A message refused by the checks leaves the machine as it was and is answered by a failure. */
  lemma RefusedChangesNothing(s: Ccid, f: seq<u8>, env: Env)
    requires |f| >= HEADER_LEN && env.Ok() && !Accepted(f)
    ensures var (s', outs) := HandleBulk(s, f, env);
            s' == s && |outs| == 1 && outs[0].Sent? && |outs[0].bytes| >= HEADER_LEN && outs[0].bytes[PARAM1] >= CMD_FAIL
  {
    hide EarlyError;
    AcceptanceIgnoresState(s, f);
    EarlyErrorFails(s, f);
  }

  // ---- Command chaining, one message ----

  /** The message is answered by "send the next block". */
  ghost predicate Acks(f: seq<u8>, outs: seq<Out>)
    requires |f| >= HEADER_LEN
  {
    f[0] == XFR && outs == [Sent(Block(f[SEQ], [], RESPONSE_CONTINUE))]
  }

  predicate AbortRefuses(f: seq<u8>, env: Env)
    requires |f| >= HEADER_LEN
  {
    env.abortBefore.Some? && f[SLOT] == env.abortBefore.value.0 && (f[0] != ABORT || f[SEQ] != env.abortBefore.value.1)
  }

  /** The message gets as far as its command: past the checks, no continuation, no abort pending. */
  predicate Executed(f: seq<u8>, env: Env)
    requires |f| >= HEADER_LEN
  {
    Accepted(f) && !IsContinuation(f) && !AbortRefuses(f, env)
  }

  /**
    * The messages that leave a command under assembly alone: those refused by the checks, continuations, and transfers
    * that a pending abort refuses or that are empty chained blocks. Any other command drops it, abort or not.
    */
  predicate Harmless(f: seq<u8>, env: Env)
    requires |f| >= HEADER_LEN
  {
    || !Accepted(f) || IsContinuation(f)
    || (f[0] == XFR && (AbortRefuses(f, env) || (LevelParam(f) != LEVEL_SINGLE && |f| == HEADER_LEN)))
  }

  /** What a message does to the command under assembly. */
  ghost predicate CmdStep(s: Ccid, f: seq<u8>, env: Env, s': Ccid, outs: seq<Out>)
    requires |f| >= HEADER_LEN
  {
    && (Acks(f, outs) ==>
          && Executed(f, env) && s'.cmdActive
          && ((LevelParam(f) == LEVEL_BEGIN && s'.cmd == f[HEADER_LEN..])
              || (LevelParam(f) == LEVEL_MIDDLE && s.cmdActive && s'.cmd == s.cmd + f[HEADER_LEN..])))
    && (!Acks(f, outs) && s'.cmdActive ==> s.cmdActive && s'.cmd == s.cmd && Harmless(f, env))
    && (forall a, r :: Dispatched(a, r) in outs ==>
          && Executed(f, env) && f[0] == XFR && !s'.cmdActive && |a| <= MAX_XFR_PAYLOAD
          && ((LevelParam(f) == LEVEL_SINGLE && !s.cmdActive && a == f[HEADER_LEN..])
              || (LevelParam(f) == LEVEL_END && s.cmdActive && a == s.cmd + f[HEADER_LEN..])))
  }

  lemma OneFailureIsNoAck(f: seq<u8>, c: u8, level: icc, err: u8)
    requires |f| >= HEADER_LEN
    ensures var outs := [Sent(CommandFailed(c, f[SEQ], level, err))];
            !Acks(f, outs) && forall a, r :: Dispatched(a, r) !in outs
  {
    FailedStatus(c, f[SEQ], level, err);
    BlockIsValid(f[SEQ], [], RESPONSE_CONTINUE);
  }

  /** A chunk or a complete response is never taken for an acknowledgement. */
  lemma SendResponseOuts(s: Ccid, f: seq<u8>, data: seq<u8>, sendOk: bool)
    requires |f| >= HEADER_LEN
    ensures var (s', outs) := SendResponse(s, f[SEQ], data, sendOk);
            && s'.cmd == s.cmd && s'.cmdActive == s.cmdActive && s'.fido == s.fido && s'.isoOpen == s.isoOpen
            && forall o :: o in outs ==> o.Sent?
  {
    hide Block, SendChunk;
    SendChunkOuts(ClearChain(s).(chain := data, chainOff := 0, chainActive := true), f[SEQ], sendOk);
  }

  lemma SendChunkOuts(s: Ccid, q: u8, sendOk: bool)
    ensures var (s', outs) := SendChunk(s, q, sendOk);
            && s'.cmd == s.cmd && s'.cmdActive == s.cmdActive && s'.fido == s.fido && s'.isoOpen == s.isoOpen
            && forall o :: o in outs ==> o.Sent?
  {
    hide Block, ChunkLevel, ChunkLen;
  }

  lemma ExchangeCmd(s: Ccid, f: seq<u8>, a: seq<u8>, env: Env)
    requires |f| >= HEADER_LEN && (s.cmdActive ==> LevelParam(f) == LEVEL_END) && |a| <= MAX_XFR_PAYLOAD
    ensures var (s', outs) := Exchange(s, f, a, env);
            && !s'.cmdActive && !Acks(f, outs)
            && (forall b, r :: Dispatched(b, r) in outs ==> b == a)
  {
    hide Dispatch, SendResponse, CommandFailed, Acks, ExchangeOuts, Exchanged, Level;
    var s1 := Exchanged(s, f, a, env);
    var d := Dispatch(s, a, ResponseCap(s), env);
    ExchangedCmd(s, f, a, env);
    SendResponseOuts(s1, f, d.rsp, env.sendOk);
    var outs := Exchange(s, f, a, env).1;
    assert Dispatched(a, d.rsp) in outs;
    DispatchedIsNoAck(f, outs, a, d.rsp);
  }

  lemma DispatchedIsNoAck(f: seq<u8>, outs: seq<Out>, a: seq<u8>, r: seq<u8>)
    requires |f| >= HEADER_LEN && Dispatched(a, r) in outs
    ensures !Acks(f, outs)
  {
    hide Block;
  }

  lemma ExchangedCmd(s: Ccid, f: seq<u8>, a: seq<u8>, env: Env)
    requires |f| >= HEADER_LEN && (s.cmdActive ==> LevelParam(f) == LEVEL_END)
    ensures !Exchanged(s, f, a, env).cmdActive
    ensures Dispatched(a, Dispatch(s, a, ResponseCap(s), env).rsp) in ExchangeOuts(s, f, a, env)
    ensures forall b, r :: Dispatched(b, r) in ExchangeOuts(s, f, a, env) ==> b == a
  {
    hide Dispatch, LevelParam, AsksTimeFirst;
    DispatchKeepsFido(s, a, ResponseCap(s), env);
  }

  /** The slot and its sessions are as before. */
  predicate SameSlot(s: Ccid, s': Ccid) {
    s'.sess == s.sess && s'.present == s.present && s'.kind == s.kind && s'.isoOpen == s.isoOpen && s'.fido == s.fido
  }

  /** And no chain has been started. */
  predicate Plain(s: Ccid, s': Ccid) {
    SameSlot(s, s') && (s'.chainActive ==> s.chainActive) && (s'.cmdActive ==> s.cmdActive)
  }

  /** The command under assembly, a block longer. */
  function Assembled(s: Ccid, f: seq<u8>): Ccid
    requires |f| >= HEADER_LEN
  {
    var s1 := if LevelParam(f) == LEVEL_BEGIN then ClearCmd(s) else s;
    s1.(cmd := s1.cmd + f[HEADER_LEN..], cmdActive := true)
  }

  /** A transfer is an exchange, of its payload or of the command assembled, or it is answered at once. */
  lemma TransferIs(s: Ccid, f: seq<u8>, env: Env)
    requires |f| >= HEADER_LEN
    ensures var (s', outs) := Transfer(s, f, env);
            || (s', outs) == Exchange(s, f, f[HEADER_LEN..], env)
            || (s', outs) == Exchange(Assembled(s, f), f, Assembled(s, f).cmd, env)
            || (SameSlot(s, s') && |outs| == 1 && outs[0].Sent?)
  {
    hide Exchange, CommandFailed, Block, LevelParam, Level, SameSlot, ClearCmd;
    ClearedIsSameSlot(s);
    AssembledIsSameSlot(s, f);
  }

  lemma ClearedIsSameSlot(s: Ccid)
    ensures SameSlot(s, s) && SameSlot(s, ClearCmd(s)) && SameSlot(s, ClearCmd(ClearCmd(s)))
  {
  }

  lemma AssembledIsSameSlot(s: Ccid, f: seq<u8>)
    requires |f| >= HEADER_LEN
    ensures SameSlot(s, Assembled(s, f))
  {
    hide LevelParam;
  }

  lemma TransferCmd(s: Ccid, f: seq<u8>, env: Env)
    requires Inv(s) && |f| >= HEADER_LEN && f[0] == XFR && Executed(f, env)
    ensures var (s', outs) := Transfer(s, f, env); CmdStep(s, f, env, s', outs)
  {
    hide Exchange, CommandFailed, Block;
    var level, data := LevelParam(f), f[HEADER_LEN..];
    assert |data| <= MAX_XFR_PAYLOAD && XfrLevelError(level, |data|) == 0 && level != RESPONSE_CONTINUE;
    OneFailureIsNoAck(f, XFR, NO_ICC, ERR_ICC_MUTE);
    OneFailureIsNoAck(f, XFR, Level(s), ERR_BAD_LEVEL);
    OneFailureIsNoAck(f, XFR, Level(s), ERR_BAD_DWLENGTH);
    if s.sess {
      if level == LEVEL_SINGLE {
        if !s.cmdActive {
          ExchangeCmd(s, f, data, env);
        }
      } else if data != [] {
        var s1 := if level == LEVEL_BEGIN then ClearCmd(s) else s;
        if (level == LEVEL_BEGIN || s.cmdActive) && |s1.cmd| + |data| <= EXTENDED_RSP_BUF_SIZE {
          var s2 := s1.(cmd := s1.cmd + data, cmdActive := true);
          if level == LEVEL_END {
            ExchangeCmd(s2, f, s2.cmd, env);
          } else {
            assert s1.cmd == [] ==> s2.cmd == data;
          }
        }
      }
    }
  }

  /** A command other than power and transfer sends one message and leaves the slot alone. */
  lemma PlainCommand(s: Ccid, f: seq<u8>, env: Env)
    requires |f| >= HEADER_LEN && f[0] !in {ICC_ON, ICC_OFF, XFR} && env.Ok()
    ensures var (s', outs) := Command(s, f, env); Plain(s, s') && |outs| == 1 && outs[0].Sent?
  {
    hide Status, DataRate, CommandFailed, Parameters, PowerOn, Transfer, Level, LevelParam, Plain, ClearCmd, ClearChain;
    ParametersArePlain(s, f);
    ClearedIsPlain(s);
  }

  lemma ClearedIsPlain(s: Ccid)
    ensures Plain(s, s) && Plain(s, ClearCmd(ClearChain(s)))
  {
  }

  lemma ParametersArePlain(s: Ccid, f: seq<u8>)
    requires |f| >= HEADER_LEN
    ensures var (s', outs) := Parameters(s, f); Plain(s, s') && |outs| == 1 && outs[0].Sent?
  {
    hide Params, ParamError;
  }

  lemma OtherCommandsCmd(s: Ccid, f: seq<u8>, env: Env)
    requires |f| >= HEADER_LEN && f[0] != XFR && env.Ok() && !s.cmdActive
    ensures var (s', outs) := Command(s, f, env); !s'.cmdActive && forall a, r :: Dispatched(a, r) !in outs
  {
    hide Command, PowerOn, Status;
    if f[0] == ICC_ON {
      PowerOnIs(s, f, env);
      PowerOnChains(s, f, env);
    } else if f[0] == ICC_OFF {
      PowerOffIs(s, f, env);
    } else {
      PlainCommand(s, f, env);
    }
  }

  lemma ActivateCmd(s: Ccid, q: u8, env: Env)
    requires env.Ok()
    ensures var (s', _) := Activate(s, q, env);
            s'.cmd == s.cmd && s'.cmdActive == s.cmdActive && s'.chain == s.chain && s'.chainActive == s.chainActive
  {
    hide Status, Block;
  }

  lemma MessageCmd(s: Ccid, f: seq<u8>, env: Env)
    requires Inv(s) && |f| >= HEADER_LEN && env.Ok()
    ensures var (s', outs) := HandleBulk(s, f, env); CmdStep(s, f, env, s', outs)
  {
    hide EarlyError, Accepted, Command, SendChunk, CommandFailed, Block, IsContinuation;
    AcceptanceIgnoresState(s, f);
    if EarlyError(s, f).Some? {
      EarlyErrorFails(s, f);
      BlockIsValid(f[SEQ], [], RESPONSE_CONTINUE);
    } else if IsContinuation(f) {
      OneFailureIsNoAck(f, f[0], Level(s), ERR_BAD_LEVEL);
      if s.chainActive {
        ChunkIsNoAck(s, f, env.sendOk);
      }
    } else {
      var s1 := Prepared(s, f);
      OneFailureIsNoAck(f, f[0], Level(s1), ERR_CMD_ABORTED);
      if !AbortRefuses(f, env) {
        if f[0] == XFR {
          TransferCmd(s1, f, env);
          assert Command(s1, f, env) == Transfer(s1, f, env) by { XfrIsTransfer(s1, f, env); }
        } else {
          OtherCommandsCmd(s1, f, env);
        }
      }
    }
  }

  /** Every other command drops a command under assembly, even when a pending abort refuses it. */
  lemma OtherCommandsDropTheAssembly(s: Ccid, f: seq<u8>, env: Env)
    requires Inv(s) && |f| >= HEADER_LEN && env.Ok() && Accepted(f) && f[0] != XFR
    ensures var (s', outs) := HandleBulk(s, f, env); !s'.cmdActive && forall a, r :: Dispatched(a, r) !in outs
  {
    hide EarlyError, Accepted, Command, CommandFailed;
    AcceptanceIgnoresState(s, f);
    OtherCommandsCmd(Prepared(s, f), f, env);
  }

  lemma ChunkIsNoAck(s: Ccid, f: seq<u8>, sendOk: bool)
    requires Inv(s) && s.chainActive && |f| >= HEADER_LEN
    ensures var (s', outs) := SendChunk(s, f[SEQ], sendOk);
            !Acks(f, outs) && s'.cmd == s.cmd && s'.cmdActive == s.cmdActive && forall a, r :: Dispatched(a, r) !in outs
  {
    hide Block, ChunkLen, ChunkLevel, SendChunk;
    ChunkIs(s, f[SEQ], sendOk);
    SendChunkOuts(s, f[SEQ], sendOk);
    var payload := s.chain[s.chainOff..s.chainOff + ChunkLen(s)];
    BlockIsValid(f[SEQ], [], RESPONSE_CONTINUE);
    BlockIsValid(f[SEQ], payload, ChunkLevel(s));
  }

  lemma ChunkIs(s: Ccid, q: u8, sendOk: bool)
    requires s.chainActive && s.chainOff < |s.chain|
    ensures 0 < ChunkLen(s) <= RSP_DATA_CAP && s.chainOff + ChunkLen(s) <= |s.chain|
    ensures SendChunk(s, q, sendOk).1 == [Sent(Block(q, s.chain[s.chainOff..s.chainOff + ChunkLen(s)], ChunkLevel(s)))]
  {
    hide Block, ChunkLevel;
  }

  // ---- Response chaining ----

  /** A block of a long response: its chain parameter and its bytes. */
  datatype Piece = Piece(level: u8, payload: seq<u8>)

  /** The blocks in which a long response is to be handed out, from offset `off` on. */
  function Cut(r: seq<u8>, off: nat): seq<Piece>
    requires off <= |r|
    decreases |r| - off
  {
    if off == |r| then []
    else
      var end := off + Min(RSP_DATA_CAP, |r| - off);
      [Piece(if off == 0 then LEVEL_BEGIN else if end == |r| then LEVEL_END else LEVEL_MIDDLE, r[off..end])] + Cut(r, end)
  }

  function Joined(pieces: seq<Piece>): seq<u8> {
    if pieces == [] then [] else pieces[0].payload + Joined(pieces[1..])
  }

  function BlockCount(n: nat): (k: nat)
    ensures n <= 510 * k < n + 510
  {
    CeilDiv(n, RSP_DATA_CAP)
  }

  /** Those blocks carry the response in order, none empty or over the cap; the last ends the chain, the others continue it. */
  lemma {:induction false} CutIsARun(r: seq<u8>, off: nat)
    requires off < |r| && (off == 0 ==> |r| > RSP_DATA_CAP)
    ensures var c := Cut(r, off);
            && Joined(c) == r[off..] && |c| == BlockCount(|r| - off)
            && c[0].level == (if off == 0 then LEVEL_BEGIN else if |c| == 1 then LEVEL_END else LEVEL_MIDDLE)
            && (forall i :: 0 < i < |c| ==> c[i].level == if i == |c| - 1 then LEVEL_END else LEVEL_MIDDLE)
            && (forall i :: 0 <= i < |c| ==> 0 < |c[i].payload| <= RSP_DATA_CAP)
            && (off == 0 ==> |c| >= 2)
    decreases |r| - off
  {
    hide BlockCount, Joined, Cut;
    CutUnfolds(r, off);
    var end := off + Min(RSP_DATA_CAP, |r| - off);
    var c, rest := Cut(r, off), Cut(r, end);
    JoinedUnfolds(c[0], rest);
    assert r[off..end] + r[end..] == r[off..];
    if end < |r| {
      CutIsARun(r, end);
      forall i | 0 < i < |c| ensures c[i] == rest[i - 1] {
      }
    } else {
      CutUnfolds(r, end);
      assert r[end..] == [];
    }
  }

  lemma CutUnfolds(r: seq<u8>, off: nat)
    requires off <= |r|
    ensures Cut(r, off) == if off == |r| then [] else
                             var end := off + Min(RSP_DATA_CAP, |r| - off);
                             [Piece(if off == 0 then LEVEL_BEGIN else if end == |r| then LEVEL_END else LEVEL_MIDDLE,
                                    r[off..end])] + Cut(r, end)
  {
  }

  lemma JoinedUnfolds(p: Piece, rest: seq<Piece>)
    ensures Joined([p] + rest) == p.payload + Joined(rest) && Joined([]) == []
  {
    assert ([p] + rest)[1..] == rest;
  }

  /** A continuation request that passes the checks. */
  predicate Continues(f: seq<u8>) {
    |f| >= HEADER_LEN && Accepted(f) && IsContinuation(f)
  }

  /** The response pending now has just been dispatched, and its first block has been handed out. */
  ghost predicate Starts(s': Ccid, outs: seq<Out>) {
    s'.chainOff == RSP_DATA_CAP && exists a :: Dispatched(a, s'.chain) in outs
  }

  /** What a message does to the response chain, and what a continuation is answered. */
  ghost predicate ChainStep(s: Ccid, f: seq<u8>, s': Ccid, outs: seq<Out>)
    requires |f| >= HEADER_LEN && ChainInv(s)
  {
    && (s'.chainActive ==>
          || (!Accepted(f) && s' == s)
          || (Continues(f) && s.chainActive && s'.chain == s.chain && s'.chainOff == s.chainOff + RSP_DATA_CAP)
          || (Supersedes(f) && Starts(s', outs)))
    && (Continues(f) && s.chainActive ==>
          outs == [Sent(Block(f[SEQ], s.chain[s.chainOff..s.chainOff + ChunkLen(s)], ChunkLevel(s)))])
    && (Continues(f) && !s.chainActive ==>
          s' == s && outs == [Sent(CommandFailed(XFR, f[SEQ], Level(s), ERR_BAD_LEVEL))])
  }

  /** The message passed the checks and asks for more than a continuation. */
  predicate Supersedes(f: seq<u8>) {
    |f| >= HEADER_LEN && Accepted(f) && !IsContinuation(f)
  }

  lemma SendResponseChain(s: Ccid, q: u8, data: seq<u8>, sendOk: bool)
    ensures var (s', outs) := SendResponse(s, q, data, sendOk);
            && s'.chainActive == (RSP_DATA_CAP < |data| <= EXTENDED_RSP_BUF_SIZE && sendOk)
            && (s'.chainActive ==> s'.chain == data && s'.chainOff == RSP_DATA_CAP
                                   && outs == [Sent(Block(q, data[..RSP_DATA_CAP], LEVEL_BEGIN))])
  {
    hide Block, SendChunk, ChunkLevel;
    if RSP_DATA_CAP < |data| <= EXTENDED_RSP_BUF_SIZE {
      FirstChunkIs(ClearChain(s).(chain := data, chainOff := 0, chainActive := true), q, sendOk);
    }
  }

  lemma FirstChunkIs(s: Ccid, q: u8, sendOk: bool)
    requires s.chainActive && s.chainOff == 0 && |s.chain| > RSP_DATA_CAP
    ensures SendChunk(s, q, sendOk)
            == (if sendOk then s.(chainOff := RSP_DATA_CAP) else ClearChain(s),
                [Sent(Block(q, s.chain[..RSP_DATA_CAP], LEVEL_BEGIN))])
  {
    hide Block;
  }

  lemma ExchangeChain(s: Ccid, f: seq<u8>, a: seq<u8>, env: Env)
    requires |f| >= HEADER_LEN
    ensures var (s', outs) := Exchange(s, f, a, env);
            s'.chainActive ==> Dispatched(a, s'.chain) in outs && s'.chainOff == RSP_DATA_CAP && env.sendOk
  {
    hide Dispatch, SendResponse, CommandFailed;
    var d := Dispatch(s, a, ResponseCap(s), env);
    SendResponseChain(Exchanged(s, f, a, env), f[SEQ], d.rsp, env.sendOk);
    assert Dispatched(a, d.rsp) in ExchangeOuts(s, f, a, env);
  }

  lemma CommandChain(s: Ccid, f: seq<u8>, env: Env)
    requires |f| >= HEADER_LEN && env.Ok() && !s.chainActive
    ensures var (s', outs) := Command(s, f, env);
            s'.chainActive ==> Starts(s', outs) && env.sendOk
  {
    hide Command, Transfer, PowerOn, Status, Starts;
    if f[0] == XFR {
      TransferChain(s, f, env);
      XfrIsTransfer(s, f, env);
    } else if f[0] == ICC_ON {
      PowerOnIs(s, f, env);
      PowerOnChains(s, f, env);
    } else if f[0] == ICC_OFF {
      PowerOffIs(s, f, env);
    } else {
      PlainCommand(s, f, env);
    }
  }

  /** Power-on starts no chain. */
  lemma PowerOnChains(s: Ccid, f: seq<u8>, env: Env)
    requires |f| >= HEADER_LEN && env.Ok()
    ensures var (s', outs) := PowerOn(s, f, env);
            && (!s.chainActive ==> !s'.chainActive) && (!s.cmdActive ==> !s'.cmdActive)
            && forall a, r :: Dispatched(a, r) !in outs
  {
    hide Activate, Status;
    ActivateCmd(Teardown(s), f[SEQ], env);
  }

  lemma TransferChain(s: Ccid, f: seq<u8>, env: Env)
    requires |f| >= HEADER_LEN && !s.chainActive
    ensures var (s', outs) := Transfer(s, f, env);
            s'.chainActive ==> Starts(s', outs) && env.sendOk
  {
    hide CommandFailed, Exchange, Block, LevelParam, Level, Starts;
    var data := f[HEADER_LEN..];
    ExchangeStarts(s, f, data, env);
    var s1 := if LevelParam(f) == LEVEL_BEGIN then ClearCmd(s) else s;
    var s2 := s1.(cmd := s1.cmd + data, cmdActive := true);
    ExchangeStarts(s2, f, s2.cmd, env);
  }

  lemma ExchangeStarts(s: Ccid, f: seq<u8>, a: seq<u8>, env: Env)
    requires |f| >= HEADER_LEN
    ensures var (s', outs) := Exchange(s, f, a, env); s'.chainActive ==> Starts(s', outs) && env.sendOk
  {
    hide Exchange;
    ExchangeChain(s, f, a, env);
  }

  lemma MessageChain(s: Ccid, f: seq<u8>, env: Env)
    requires Inv(s) && |f| >= HEADER_LEN && env.Ok()
    ensures var (s', outs) := HandleBulk(s, f, env); ChainStep(s, f, s', outs)
  {
    hide EarlyError, Accepted, Command, CommandFailed, Block, IsContinuation;
    AcceptanceIgnoresState(s, f);
    if EarlyError(s, f).None? {
      if IsContinuation(f) {
        ContinuationIsXfr(f);
      } else {
        CommandChain(Prepared(s, f), f, env);
      }
    }
  }

  /** A response of which a block did not get out is not continued. */
  lemma AFailedSendEndsTheResponse(s: Ccid, f: seq<u8>, env: Env)
    requires Inv(s) && |f| >= HEADER_LEN && env.Ok() && Accepted(f) && !env.sendOk
    ensures !HandleBulk(s, f, env).0.chainActive
  {
    hide EarlyError, Accepted, Command, CommandFailed, Block, IsContinuation, ChunkLen, ChunkLevel, Level;
    AcceptanceIgnoresState(s, f);
    if !IsContinuation(f) {
      CommandChain(Prepared(s, f), f, env);
    }
  }

  lemma ContinuationIsXfr(f: seq<u8>)
    requires IsContinuation(f)
    ensures |f| == HEADER_LEN && f[0] == XFR
  {
  }

  datatype Message = Message(f: seq<u8>, env: Env) {
    /** A continuation request whose reply gets through, or a message that is refused. */
    predicate AsksForTheRest() {
      |f| >= HEADER_LEN && env.Ok() && (Accepted(f) ==> IsContinuation(f) && env.sendOk)
    }
  }

  /** Continuation requests, with refused messages between them. */
  predicate AskForTheRest(msgs: seq<Message>) {
    msgs != [] ==> msgs[0].AsksForTheRest() && AskForTheRest(msgs[1..])
  }

  /** The blocks handed out to a series of messages. */
  function Pieces(s: Ccid, msgs: seq<Message>): seq<Piece>
    requires AskForTheRest(msgs)
    decreases |msgs|
  {
    if msgs == [] then []
    else
      var (s', outs) := HandleBulk(s, msgs[0].f, msgs[0].env);
      (if Continues(msgs[0].f) && |outs| == 1 && outs[0].Sent? && |outs[0].bytes| >= HEADER_LEN
       then [Piece(outs[0].bytes[PARAM3], outs[0].bytes[HEADER_LEN..])] else [])
      + Pieces(s', msgs[1..])
  }

  function Asked(msgs: seq<Message>): nat {
    if msgs == [] then 0 else (if Continues(msgs[0].f) then 1 else 0) + Asked(msgs[1..])
  }

  /** The state after a series of messages. */
  function AfterAll(s: Ccid, msgs: seq<Message>): Ccid
    requires AskForTheRest(msgs)
    decreases |msgs|
  {
    if msgs == [] then s else AfterAll(HandleBulk(s, msgs[0].f, msgs[0].env).0, msgs[1..])
  }

  /** As many continuation requests as blocks are left get exactly the blocks that are left, and end the chain. */
  lemma {:induction false} TheRestIsHandedOut(s: Ccid, msgs: seq<Message>)
    requires Inv(s) && s.chainActive
    requires AskForTheRest(msgs)
    requires Asked(msgs) == |Cut(s.chain, s.chainOff)|
    ensures Pieces(s, msgs) == Cut(s.chain, s.chainOff) && !AfterAll(s, msgs).chainActive
    decreases |msgs|
  {
    hide HandleBulk, Block, Accepted, IsContinuation, Cut, Pieces, Asked, AfterAll;
    CutUnfolds(s.chain, s.chainOff);
    if msgs == [] {
      NothingAsked(s);
    } else {
      var Message(f, env) := msgs[0];
      var (s', outs) := HandleBulk(s, f, env);
      if !Accepted(f) {
        RefusedChangesNothing(s, f, env);
        RefusedIsHandedNothing(s, msgs);
        TheRestIsHandedOut(s, msgs[1..]);
      } else {
        var end := s.chainOff + ChunkLen(s);
        NextPiece(s, f, env);
        OnePieceIsHandedOut(s, msgs, s.chain[s.chainOff..end], ChunkLevel(s));
        CutUnfolds(s.chain, end);
        if end == |s.chain| {
          NothingMoreAsked(s', msgs[1..]);
        } else {
          TheRestIsHandedOut(s', msgs[1..]);
        }
      }
    }
  }

  lemma NothingAsked(s: Ccid)
    ensures Asked([]) == 0 && Pieces(s, []) == [] && AfterAll(s, []) == s
  {
  }

  lemma RefusedIsHandedNothing(s: Ccid, msgs: seq<Message>)
    requires AskForTheRest(msgs) && msgs != [] && !Accepted(msgs[0].f)
    ensures var s', rest := HandleBulk(s, msgs[0].f, msgs[0].env).0, msgs[1..];
            Asked(msgs) == Asked(rest) && Pieces(s, msgs) == Pieces(s', rest) && AfterAll(s, msgs) == AfterAll(s', rest)
  {
    hide HandleBulk, Accepted, IsContinuation;
  }

  lemma OnePieceIsHandedOut(s: Ccid, msgs: seq<Message>, payload: seq<u8>, level: u8)
    requires AskForTheRest(msgs) && msgs != [] && Accepted(msgs[0].f) && |payload| <= RSP_DATA_CAP
    requires HandleBulk(s, msgs[0].f, msgs[0].env).1 == [Sent(Block(msgs[0].f[SEQ], payload, level))]
    ensures var s', rest := HandleBulk(s, msgs[0].f, msgs[0].env).0, msgs[1..];
            && Asked(msgs) == 1 + Asked(rest) && AfterAll(s, msgs) == AfterAll(s', rest)
            && Pieces(s, msgs) == [Piece(level, payload)] + Pieces(s', rest)
  {
    hide HandleBulk, Accepted, IsContinuation, Block;
    BlockIsValid(msgs[0].f[SEQ], payload, level);
  }

  lemma NextPiece(s: Ccid, f: seq<u8>, env: Env)
    requires Inv(s) && s.chainActive && Message(f, env).AsksForTheRest() && Accepted(f)
    ensures var (s', outs) := HandleBulk(s, f, env);
            var end := s.chainOff + ChunkLen(s);
            && outs == [Sent(Block(f[SEQ], s.chain[s.chainOff..end], ChunkLevel(s)))]
            && Inv(s') && s' == if end == |s.chain| then ClearChain(s) else s.(chainOff := end)
  {
    hide EarlyError, Accepted, Block, Command, CommandFailed, IsContinuation, Fail;
    AcceptanceIgnoresState(s, f);
    ContinuationIsXfr(f);
  }

  lemma {:induction false} NothingMoreAsked(s: Ccid, msgs: seq<Message>)
    requires AskForTheRest(msgs)
    requires Asked(msgs) == 0 && !s.chainActive
    ensures Pieces(s, msgs) == [] && !AfterAll(s, msgs).chainActive
  {
    hide HandleBulk, Accepted, IsContinuation;
    if msgs != [] {
      RefusedChangesNothing(s, msgs[0].f, msgs[0].env);
      NothingMoreAsked(s, msgs[1..]);
    }
  }

  // ---- From a host message to its response ----

  /** The command APDU that a message completes: its own payload, or the assembled blocks and its payload. */
  function Completed(s: Ccid, f: seq<u8>): Option<seq<u8>>
    requires |f| >= HEADER_LEN
  {
    if f[0] != XFR || !s.sess then None
    else if LevelParam(f) == LEVEL_SINGLE then if s.cmdActive then None else Some(f[HEADER_LEN..])
    else if LevelParam(f) == LEVEL_END && |f| > HEADER_LEN && s.cmdActive
            && |s.cmd| + |f| - HEADER_LEN <= EXTENDED_RSP_BUF_SIZE then Some(s.cmd + f[HEADER_LEN..])
    else None
  }

  function ResponseTo(s: Ccid, a: seq<u8>, env: Env): seq<u8> { Dispatch(s, a, ResponseCap(s), env).rsp }

  /** The state in which a completed command is exchanged: no stale response, the command in the assembly buffer if chained. */
  function Ready(s: Ccid, f: seq<u8>): Ccid
    requires |f| >= HEADER_LEN
  {
    if LevelParam(f) == LEVEL_END then ClearChain(s).(cmd := s.cmd + f[HEADER_LEN..]) else ClearChain(s)
  }

  lemma CompletedIsExchanged(s: Ccid, f: seq<u8>, env: Env)
    requires Inv(s) && |f| >= HEADER_LEN && env.Ok() && Executed(f, env) && Completed(s, f).Some?
    ensures HandleBulk(s, f, env) == Exchange(Ready(s, f), f, Completed(s, f).value, env)
    ensures Inv(Ready(s, f)) && Ready(s, f).sess
    ensures ResponseTo(Ready(s, f), Completed(s, f).value, env) == ResponseTo(s, Completed(s, f).value, env)
  {
    hide EarlyError, Accepted, Exchange, IsContinuation, CommandFailed, Block;
    AcceptanceIgnoresState(s, f);
    XfrIsTransfer(Prepared(s, f), f, env);
    SameAnswer(s, Ready(s, f), Completed(s, f).value, ResponseCap(s), env);
  }

  lemma SameAnswer(s: Ccid, s1: Ccid, a: seq<u8>, cap: nat, env: Env)
    requires s1.kind == s.kind && s1.fido == s.fido && cap >= 10
    ensures Dispatch(s1, a, cap, env) == Dispatch(s, a, cap, env)
  {
    hide SelectsNdefApp, SelectsFido, StatusOk, DrivesFido, BodyOk;
  }

  /** How an exchange ends when the host has not aborted and the queue takes the reply. */
  lemma ExchangeReplies(s: Ccid, f: seq<u8>, a: seq<u8>, env: Env)
    requires Inv(s) && s.sess && |f| >= HEADER_LEN
    requires env.sendOk && env.abortAfter != Some((f[SLOT], f[SEQ]))
    ensures var r, (s', outs) := ResponseTo(s, a, env), Exchange(s, f, a, env);
            && Dispatched(a, r) in outs
            && (|r| <= RSP_DATA_CAP ==> outs[|outs| - 1] == Sent(Block(f[SEQ], r, LEVEL_SINGLE)) && !s'.chainActive)
            && (|r| > RSP_DATA_CAP ==>
                  && outs[|outs| - 1] == Sent(Block(f[SEQ], Cut(r, 0)[0].payload, Cut(r, 0)[0].level))
                  && Inv(s') && s'.chainActive && s'.chain == r && s'.chainOff <= |r|
                  && [Cut(r, 0)[0]] + Cut(r, s'.chainOff) == Cut(r, 0))
  {
    hide Dispatch, Exchanged, Block, SendResponse;
    var r, s1 := ResponseTo(s, a, env), Exchanged(s, f, a, env);
    ExchangedIsGood(s, f, a, env);
    ResponseFits(s, a, env);
    SendResponseChain(s1, f[SEQ], r, env.sendOk);
    SendResponseKeeps(s1, f[SEQ], r, env.sendOk);
    assert Dispatched(a, r) in ExchangeOuts(s, f, a, env);
  }

  lemma ResponseFits(s: Ccid, a: seq<u8>, env: Env)
    ensures |ResponseTo(s, a, env)| <= EXTENDED_RSP_BUF_SIZE
  {
    hide Dispatch;
  }

  lemma SendResponseKeeps(s: Ccid, q: u8, data: seq<u8>, sendOk: bool)
    requires Inv(s) && s.sess
    ensures var (s', outs) := SendResponse(s, q, data, sendOk);
            Inv(s') && (|data| <= RSP_DATA_CAP ==> outs == [Sent(Block(q, data, LEVEL_SINGLE))] && !s'.chainActive)
  {
    hide Block;
  }

  /** A response that fits one block is the payload of the reply to the message that completes the command. */
  lemma ShortResponseIsTheReply(s: Ccid, f: seq<u8>, env: Env)
    requires Inv(s) && |f| >= HEADER_LEN && env.Ok() && Executed(f, env) && Completed(s, f).Some?
    requires env.sendOk && env.abortAfter != Some((f[SLOT], f[SEQ]))
    requires |ResponseTo(s, Completed(s, f).value, env)| <= RSP_DATA_CAP
    ensures var a := Completed(s, f).value;
            var r, (s', outs) := ResponseTo(s, a, env), HandleBulk(s, f, env);
            && Dispatched(a, r) in outs && outs[|outs| - 1] == Sent(Block(f[SEQ], r, LEVEL_SINGLE)) && !s'.chainActive
  {
    hide HandleBulk, Exchange, ResponseTo, Executed, Completed, Ready, Inv, Block;
    CompletedIsExchanged(s, f, env);
    ExchangeReplies(Ready(s, f), f, Completed(s, f).value, env);
  }

  /**
    * For a longer response: the reply to the message that completes the command, and the replies to as many
    * continuations as there are further blocks, are the whole response, cut once, in order.
    */
  lemma LongResponseIsDeliveredOnce(s: Ccid, f: seq<u8>, env: Env, msgs: seq<Message>)
    requires Inv(s) && |f| >= HEADER_LEN && env.Ok() && Executed(f, env) && Completed(s, f).Some?
    requires env.sendOk && env.abortAfter != Some((f[SLOT], f[SEQ]))
    requires AskForTheRest(msgs)
    requires var r := ResponseTo(s, Completed(s, f).value, env);
             RSP_DATA_CAP < |r| && Asked(msgs) == BlockCount(|r|) - 1
    ensures var a := Completed(s, f).value;
            var r, (s', outs) := ResponseTo(s, a, env), HandleBulk(s, f, env);
            && Dispatched(a, r) in outs
            && outs[|outs| - 1] == Sent(Block(f[SEQ], Cut(r, 0)[0].payload, Cut(r, 0)[0].level))
            && [Cut(r, 0)[0]] + Pieces(s', msgs) == Cut(r, 0)
            && Joined([Cut(r, 0)[0]] + Pieces(s', msgs)) == r
            && !AfterAll(s', msgs).chainActive
  {
    hide HandleBulk, Exchange, ResponseTo, Executed, Completed, Ready, Inv, Block, Cut, AskForTheRest;
    var a := Completed(s, f).value;
    var r := ResponseTo(s, a, env);
    CompletedIsExchanged(s, f, env);
    ExchangeReplies(Ready(s, f), f, a, env);
    CutIsARun(r, 0);
    var s' := HandleBulk(s, f, env).0;
    assert |Cut(s'.chain, s'.chainOff)| == |Cut(r, 0)| - 1;
    TheRestIsHandedOut(s', msgs);
  }
}
