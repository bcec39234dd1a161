/** What every bulk message, poll and tag event keeps, and what every run of them shows to the host. */
module CcidSafety {
  import opened Bytes
  import opened CcidFrame
  import opened CcidMachine

  // ---- The state invariant ----

  ghost predicate Inv(s: Ccid) {
    && (s.sess ==> s.present)
    && (s.present <==> s.kind != NoTag)
    && (s.isoOpen <==> s.sess && s.kind == Type4)
    && (s.fido ==> s.isoOpen)
    && (s.owner <==> s.sess)
    && (s.deferred ==> s.present && !s.sess)
    && s.protocol == PROTOCOL_T1
    && ChainInv(s)
    && CmdInv(s)
  }

  /** Between messages a response chain has been started and not finished, on a chunk boundary. */
  ghost predicate ChainInv(s: Ccid) {
    if s.chainActive then
      s.sess && 0 < s.chainOff < |s.chain| <= EXTENDED_RSP_BUF_SIZE && s.chainOff % RSP_DATA_CAP == 0
    else s.chain == [] && s.chainOff == 0
  }

  ghost predicate CmdInv(s: Ccid) {
    if s.cmdActive then s.sess && 0 < |s.cmd| <= EXTENDED_RSP_BUF_SIZE else s.cmd == []
  }

  // ---- The reply to one message ----

  /** No reply and no slot notification among `outs`. */
  ghost predicate Silent(outs: seq<Out>) {
    forall o :: o in outs ==> !o.Sent? && !o.Notify?
  }

  /** `b` is a valid final message of the type and sequence number due, a success with data only in an open session. */
  ghost predicate ReplyOk(f: seq<u8>, s': Ccid, b: seq<u8>)
    requires |f| >= HEADER_LEN
  {
    && Validate(b).Some? && |b| <= RSP_FRAME_BYTES
    && b[0] == ReplyType(f[0]) && b[SEQ] == f[SEQ] && b[PARAM1] < TIME_EXTENSION
    && (b[0] == RDR_DATABLOCK && b[PARAM1] < CMD_FAIL ==> s'.sess)
  }

  /** The message was answered once, at the end. */
  ghost predicate Answers(f: seq<u8>, s': Ccid, outs: seq<Out>)
    requires |f| >= HEADER_LEN
  {
    && outs != [] && Silent(outs[..|outs| - 1])
    && outs[|outs| - 1].Sent? && ReplyOk(f, s', outs[|outs| - 1].bytes)
  }

  /** A message neither moves the tag nor puts a removal off. */
  ghost predicate SameTag(s: Ccid, s': Ccid) {
    s'.present == s.present && s'.kind == s.kind && (s'.deferred ==> s.deferred)
  }

  ghost predicate Good(s: Ccid, f: seq<u8>, r: (Ccid, seq<Out>))
    requires |f| >= HEADER_LEN
  {
    Inv(r.0) && SameTag(s, r.0) && Answers(f, r.0, r.1)
  }

  lemma StatusIsValid(msg: u8, q: u8, status: u8, err: u8)
    ensures var b := Status(msg, q, status, err);
            Validate(b) == Some(0) && |b| == HEADER_LEN && b[0] == msg && b[SEQ] == q && b[PARAM1] == status
  {
  }

  lemma BlockIsValid(q: u8, payload: seq<u8>, chain: u8)
    requires |payload| <= RSP_DATA_CAP
    ensures var b := Block(q, payload, chain);
            && Validate(b) == Some(|payload|) && |b| == HEADER_LEN + |payload|
            && b[0] == RDR_DATABLOCK && b[SEQ] == q && b[PARAM1] == ACTIVE && b[PARAM3] == chain && b[HEADER_LEN..] == payload
  {
    var b := Block(q, payload, chain);
    assert b[1..5] == Le32(|payload|);
    Le32Inverse(b, 1, |payload|);
  }

  lemma DataRateIsValid(q: u8, status: u8, err: u8)
    ensures var b := DataRate(q, status, err);
            Validate(b) == Some(8) && |b| == 18 && b[0] == RDR_DATA_RATE && b[SEQ] == q && b[PARAM1] == status
  {
  }

  lemma ParamsAreValid(q: u8, status: u8, err: u8, protocol: u8)
    ensures var b := Params(q, status, err, protocol);
            Validate(b).Some? && |b| <= 17 && b[0] == RDR_PARAMETERS && b[SEQ] == q && b[PARAM1] == status
  {
  }

  /** A time extension is a valid message too, but no final one. */
  lemma TimeExtensionIsNotFinal(f: seq<u8>, s': Ccid)
    requires |f| >= HEADER_LEN
    ensures var b := TimeExtensionBlock(f[SEQ]); Validate(b) == Some(0) && b[SEQ] == f[SEQ] && !ReplyOk(f, s', b)
  {
    hide Validate;
    assert TimeExtensionBlock(f[SEQ]) == Status(RDR_DATABLOCK, f[SEQ], TIME_EXTENSION + ACTIVE, 0x0A);
    StatusIsValid(RDR_DATABLOCK, f[SEQ], TIME_EXTENSION + ACTIVE, 0x0A);
  }

  lemma FailureIsOk(f: seq<u8>, s': Ccid, level: icc, err: u8)
    requires |f| >= HEADER_LEN
    ensures ReplyOk(f, s', CommandFailed(f[0], f[SEQ], level, err))
  {
    StatusIsValid(ReplyType(f[0]), f[SEQ], CMD_FAIL + level, err);
    DataRateIsValid(f[SEQ], CMD_FAIL + level, err);
  }

  lemma AbsentIsOk(f: seq<u8>, s': Ccid, slot: u8)
    requires |f| >= HEADER_LEN
    ensures ReplyOk(f, s', SlotAbsent(f[0], slot, f[SEQ]))
  {
    StatusIsValid(ReplyType(f[0]), f[SEQ], CMD_FAIL + NO_ICC, ERR_NO_SLOT);
    DataRateIsValid(f[SEQ], CMD_FAIL + NO_ICC, ERR_NO_SLOT);
    var b := CommandFailed(f[0], f[SEQ], NO_ICC, ERR_NO_SLOT);
    assert LoadLe32(b[SLOT := slot], 1) == LoadLe32(b, 1);
  }

  lemma FailIsGood(s: Ccid, f: seq<u8>, err: u8)
    requires Inv(s) && |f| >= HEADER_LEN
    ensures Good(s, f, Fail(s, f, err))
  {
    FailureIsOk(f, s, Level(s), err);
  }

  lemma SendChunkIsGood(s: Ccid, f: seq<u8>, sendOk: bool)
    requires |f| >= HEADER_LEN && ReplyType(f[0]) == RDR_DATABLOCK
    requires Inv(ClearChain(s)) && s.sess && s.chainActive
    requires s.chainOff < |s.chain| <= EXTENDED_RSP_BUF_SIZE && s.chainOff % RSP_DATA_CAP == 0
    ensures Good(s, f, SendChunk(s, f[SEQ], sendOk))
  {
    var off := s.chainOff + ChunkLen(s);
    BlockIsValid(f[SEQ], s.chain[s.chainOff..off], ChunkLevel(s));
  }

  lemma SendResponseIsGood(s: Ccid, f: seq<u8>, data: seq<u8>, sendOk: bool)
    requires |f| >= HEADER_LEN && ReplyType(f[0]) == RDR_DATABLOCK
    requires Inv(s) && s.sess
    ensures Good(s, f, SendResponse(s, f[SEQ], data, sendOk))
  {
    var s1 := ClearChain(s);
    if |data| <= RSP_DATA_CAP {
      BlockIsValid(f[SEQ], data, LEVEL_SINGLE);
    } else if |data| > EXTENDED_RSP_BUF_SIZE {
      BlockIsValid(f[SEQ], [0x6F, 0x00], LEVEL_SINGLE);
    } else {
      SendChunkIsGood(s1.(chain := data, chainOff := 0, chainActive := true), f, sendOk);
    }
  }

  /** A dispatch sets the FIDO flag only on an open Type 4 session. */
  lemma DispatchKeepsFido(s: Ccid, a: seq<u8>, cap: nat, env: Env)
    requires cap >= 10
    ensures var r := Dispatch(s, a, cap, env);
            && (s.fido ==> r.fido) && (r.fido ==> s.fido || s.kind == Type4)
            && (r.relayed.Some? ==> r.relayed.value.Relayed?)
  {
  }

  lemma ExchangedIsGood(s: Ccid, f: seq<u8>, a: seq<u8>, env: Env)
    requires Inv(s) && s.sess && |f| >= HEADER_LEN
    ensures var s' := Exchanged(s, f, a, env); Inv(s') && SameTag(s, s') && s'.sess
    ensures Silent(ExchangeOuts(s, f, a, env))
  {
    hide Dispatch, ExchangeOuts, Silent;
    DispatchKeepsFido(s, a, ResponseCap(s), env);
    ExchangeOutsAreSilent(s, f, a, env);
  }

  lemma ExchangeOutsAreSilent(s: Ccid, f: seq<u8>, a: seq<u8>, env: Env)
    requires |f| >= HEADER_LEN
    ensures Silent(ExchangeOuts(s, f, a, env))
  {
    hide Dispatch, AsksTimeFirst;
    DispatchKeepsFido(s, a, ResponseCap(s), env);
  }

  lemma Prepend(f: seq<u8>, s': Ccid, a: seq<Out>, b: seq<Out>)
    requires |f| >= HEADER_LEN && Silent(a) && Answers(f, s', b)
    ensures Answers(f, s', a + b)
  {
    assert (a + b)[..|a + b| - 1] == a + b[..|b| - 1];
  }

  lemma ExchangeIsGood(s: Ccid, f: seq<u8>, a: seq<u8>, env: Env)
    requires Inv(s) && s.sess && |f| >= HEADER_LEN && f[0] == XFR
    ensures Good(s, f, Exchange(s, f, a, env))
  {
    hide Exchanged, ExchangeOuts, Dispatch, SendResponse, CommandFailed;
    var s1, outs := Exchanged(s, f, a, env), ExchangeOuts(s, f, a, env);
    ExchangedIsGood(s, f, a, env);
    FailureIsOk(f, ClearChain(s1), Level(s1), ERR_CMD_ABORTED);
    var r := SendResponse(s1, f[SEQ], Dispatch(s, a, ResponseCap(s), env).rsp, env.sendOk);
    SendResponseIsGood(s1, f, Dispatch(s, a, ResponseCap(s), env).rsp, env.sendOk);
    Prepend(f, r.0, outs, r.1);
    Prepend(f, ClearChain(s1), outs, [Sent(CommandFailed(f[0], f[SEQ], Level(s1), ERR_CMD_ABORTED))]);
  }

  lemma StatusReplyIsOk(f: seq<u8>, s': Ccid, status: u8, err: u8)
    requires |f| >= HEADER_LEN && (ReplyType(f[0]) == RDR_DATABLOCK ==> status >= CMD_FAIL) && status < TIME_EXTENSION
    ensures ReplyOk(f, s', Status(ReplyType(f[0]), f[SEQ], status, err))
  {
    StatusIsValid(ReplyType(f[0]), f[SEQ], status, err);
  }

  lemma BlockReplyIsOk(f: seq<u8>, s': Ccid, payload: seq<u8>, chain: u8)
    requires |f| >= HEADER_LEN && ReplyType(f[0]) == RDR_DATABLOCK && s'.sess && |payload| <= RSP_DATA_CAP
    ensures ReplyOk(f, s', Block(f[SEQ], payload, chain))
  {
    BlockIsValid(f[SEQ], payload, chain);
  }

  lemma Only(f: seq<u8>, s': Ccid, b: seq<u8>)
    requires |f| >= HEADER_LEN && ReplyOk(f, s', b)
    ensures Answers(f, s', [Sent(b)])
  {
  }

  lemma TransferIsGood(s: Ccid, f: seq<u8>, env: Env)
    requires Inv(s) && |f| >= HEADER_LEN && f[0] == XFR
    ensures Good(s, f, Transfer(s, f, env))
  {
    hide Exchange, CommandFailed, ReplyOk, Answers, Fail, Block;
    var level, data := LevelParam(f), f[HEADER_LEN..];
    FailureIsOk(f, s, NO_ICC, ERR_ICC_MUTE);
    Only(f, s, CommandFailed(f[0], f[SEQ], NO_ICC, ERR_ICC_MUTE));
    if s.sess {
      FailIsGood(s, f, ERR_BAD_DWLENGTH);
      FailIsGood(ClearCmd(s), f, ERR_BAD_LEVEL);
      FailIsGood(ClearCmd(s), f, ERR_BAD_DWLENGTH);
      if level == LEVEL_SINGLE {
        ExchangeIsGood(s, f, data, env);
      } else if data != [] {
        TransferChainedIsGood(s, f, env);
      }
    }
  }

  lemma TransferChainedIsGood(s: Ccid, f: seq<u8>, env: Env)
    requires Inv(s) && s.sess && |f| >= HEADER_LEN && f[0] == XFR
    requires LevelParam(f) != LEVEL_SINGLE && |f| > HEADER_LEN
    ensures Good(s, f, Transfer(s, f, env))
  {
    hide Exchange, CommandFailed, ReplyOk, Answers, Fail, Block;
    var level, data := LevelParam(f), f[HEADER_LEN..];
    var s1 := if level == LEVEL_BEGIN then ClearCmd(s) else s;
    FailIsGood(s, f, ERR_BAD_DWLENGTH);
    FailIsGood(ClearCmd(s1), f, ERR_BAD_DWLENGTH);
    if (level == LEVEL_BEGIN || s.cmdActive) && |s1.cmd| + |data| <= EXTENDED_RSP_BUF_SIZE {
      var s2 := s1.(cmd := s1.cmd + data, cmdActive := true);
      assert Inv(s2);
      BlockReplyIsOk(f, s2, [], RESPONSE_CONTINUE);
      Only(f, s2, Block(f[SEQ], [], RESPONSE_CONTINUE));
      ExchangeIsGood(s2, f, s2.cmd, env);
    }
  }

  lemma ActivateIsOk(s: Ccid, f: seq<u8>, env: Env)
    requires Inv(s) && !s.sess && |f| >= HEADER_LEN && f[0] == ICC_ON && env.Ok()
    ensures var (s', b) := Activate(s, f[SEQ], env); Inv(s') && SameTag(s, s') && ReplyOk(f, s', b)
  {
    hide ReplyOk, Status, Block;
    var (s', b) := Activate(s, f[SEQ], env);
    StatusReplyIsOk(f, s', CMD_FAIL + INACTIVE, ERR_ICC_MUTE);
    StatusReplyIsOk(f, s', CMD_FAIL + NO_ICC, ERR_ICC_MUTE);
    if s'.sess {
      BlockReplyIsOk(f, s', env.atr.value, LEVEL_SINGLE);
    }
  }

  /**
    * Time extensions are sent while a Type 4 tag is activated if the layer below asks for them, although no waiting time has
    * been agreed on with the host by then.
    */
  lemma PowerOnAsksForTimeExactlyWhen(s: Ccid, f: seq<u8>, env: Env)
    requires |f| >= HEADER_LEN && env.Ok()
    ensures TimeExtension(f[SEQ]) in PowerOn(s, f, env).1
            <==> f[PARAM1] <= 3 && s.present && s.kind == Type4 && env.waits > 0
  {
    hide Status, Block, Activate;
    var waits := Waits(f[SEQ], env.waits);
    if env.waits > 0 {
      assert waits[0] == TimeExtension(f[SEQ]);
      if s.present && s.kind == Type4 {
        assert OpenOuts(s, f[SEQ], env)[0] == waits[0];
      }
    }
  }

  lemma PowerOnIsGood(s: Ccid, f: seq<u8>, env: Env)
    requires Inv(s) && |f| >= HEADER_LEN && f[0] == ICC_ON && env.Ok()
    ensures Good(s, f, PowerOn(s, f, env))
  {
    hide ReplyOk, Status, Activate, Answers;
    if f[PARAM1] > 3 {
      StatusReplyIsOk(f, s, CMD_FAIL + INACTIVE, ERR_POWER_SELECT);
      Only(f, s, Status(RDR_DATABLOCK, f[SEQ], CMD_FAIL + INACTIVE, ERR_POWER_SELECT));
    } else {
      ActivateIsOk(Teardown(s), f, env);
      var (s', b) := Activate(Teardown(s), f[SEQ], env);
      Only(f, s', b);
      Prepend(f, s', TeardownOuts(s) + OpenOuts(s, f[SEQ], env), [Sent(b)]);
    }
  }

  lemma PowerOffIs(s: Ccid, f: seq<u8>, env: Env)
    requires |f| >= HEADER_LEN && f[0] == ICC_OFF && env.Ok()
    ensures var (s', outs) := Command(s, f, env);
            && s' == Teardown(s).(protocol := PROTOCOL_T1)
            && outs == TeardownOuts(s)
                       + [Sent(Status(RDR_SLOTSTATUS, f[SEQ], if s.present then INACTIVE else NO_ICC, 0))]
  {
    hide Status, Teardown, TeardownOuts, PowerOn, Parameters, Transfer, CommandFailed, DataRate;
  }

  lemma PowerOnIs(s: Ccid, f: seq<u8>, env: Env)
    requires |f| >= HEADER_LEN && f[0] == ICC_ON && env.Ok()
    ensures Command(s, f, env) == PowerOn(s, f, env)
  {
    hide Status, PowerOn, Parameters, Transfer, CommandFailed, DataRate;
  }

  lemma XfrIsTransfer(s: Ccid, f: seq<u8>, env: Env)
    requires |f| >= HEADER_LEN && f[0] == XFR && env.Ok()
    ensures Command(s, f, env) == Transfer(s, f, env)
  {
    hide Status, PowerOn, Parameters, Transfer, CommandFailed, DataRate;
  }

  lemma ParametersAre(s: Ccid, f: seq<u8>, env: Env)
    requires |f| >= HEADER_LEN && f[0] in {GET_PARAMS, RESET_PARAMS, SET_PARAMS} && env.Ok()
    ensures Command(s, f, env) == Parameters(s, f)
  {
    hide Status, PowerOn, Parameters, Transfer, CommandFailed, DataRate;
  }

  lemma CommandIsGood(s: Ccid, f: seq<u8>, env: Env)
    requires Inv(s) && |f| >= HEADER_LEN && env.Ok()
    ensures Good(s, f, Command(s, f, env))
  {
    hide Command, Good, Inv, Status;
    if f[0] == ICC_ON {
      PowerOnIs(s, f, env);
      PowerOnIsGood(s, f, env);
    } else if f[0] == ICC_OFF {
      PowerOffIsGood(s, f, env);
    } else if f[0] == XFR {
      XfrIsTransfer(s, f, env);
      TransferIsGood(s, f, env);
    } else if f[0] == GET_PARAMS || f[0] == RESET_PARAMS || f[0] == SET_PARAMS {
      ParametersAre(s, f, env);
      ParametersIsGood(s, f);
    } else {
      SimpleCommandIsGood(s, f, env);
    }
  }

  lemma PowerOffIsGood(s: Ccid, f: seq<u8>, env: Env)
    requires Inv(s) && |f| >= HEADER_LEN && env.Ok() && f[0] == ICC_OFF
    ensures Good(s, f, Command(s, f, env))
  {
    hide ReplyOk, Answers, Status, Command;
    PowerOffIs(s, f, env);
    var (s', outs) := Command(s, f, env);
    var last := Sent(Status(RDR_SLOTSTATUS, f[SEQ], if s.present then INACTIVE else NO_ICC, 0));
    StatusReplyIsOk(f, s', INACTIVE, 0);
    StatusReplyIsOk(f, s', NO_ICC, 0);
    Only(f, s', last.bytes);
    Prepend(f, s', TeardownOuts(s), [last]);
  }

  lemma SimpleCommandIsGood(s: Ccid, f: seq<u8>, env: Env)
    requires Inv(s) && |f| >= HEADER_LEN && env.Ok()
    requires f[0] !in {ICC_ON, ICC_OFF, XFR, GET_PARAMS, RESET_PARAMS, SET_PARAMS}
    ensures Good(s, f, Command(s, f, env))
  {
    hide ReplyOk, Answers, Status, DataRate, CommandFailed, PowerOn, Parameters, Transfer;
    var (s', outs) := Command(s, f, env);
    assert outs == [outs[0]];
    assert ReplyOk(f, s', outs[0].bytes) by {
      if f[0] == SET_RATE_CLOCK {
        DataRateReplyIsOk(f, s', CMD_FAIL + Level(s), ERR_BAD_DWLENGTH);
        DataRateReplyIsOk(f, s', Level(s), 0);
      } else if f[0] == ESCAPE {
        FailureIsOk(f, s', Level(s), 0);
      } else {
        StatusReplyIsOk(f, s', CMD_FAIL + Level(s), 0);
        if f[0] != SECURE {
          StatusReplyIsOk(f, s', Level(s), 0);
        }
      }
    }
    Only(f, s', outs[0].bytes);
  }

  lemma DataRateReplyIsOk(f: seq<u8>, s': Ccid, status: u8, err: u8)
    requires |f| >= HEADER_LEN && ReplyType(f[0]) == RDR_DATA_RATE && status < TIME_EXTENSION
    ensures ReplyOk(f, s', DataRate(f[SEQ], status, err))
  {
    DataRateIsValid(f[SEQ], status, err);
  }

  lemma ParametersIsGood(s: Ccid, f: seq<u8>)
    requires Inv(s) && |f| >= HEADER_LEN && ReplyType(f[0]) == RDR_PARAMETERS
    ensures Good(s, f, Parameters(s, f))
  {
    hide Params;
    var (s', outs) := Parameters(s, f);
    var err := if !s.present then ERR_ICC_MUTE else ParamError(f);
    var status := if !s.present then CMD_FAIL + NO_ICC else if err != 0 then CMD_FAIL + Level(s) else Level(s);
    ParamsAreValid(f[SEQ], status, err, PROTOCOL_T1);
  }

  lemma EarlyErrorIsOk(s: Ccid, f: seq<u8>)
    requires |f| >= HEADER_LEN && EarlyError(s, f).Some?
    ensures ReplyOk(f, s, EarlyError(s, f).value)
  {
    hide CommandFailed, SlotAbsent;
    AbsentIsOk(f, s, f[SLOT]);
    forall err: u8 ensures ReplyOk(f, s, CommandFailed(f[0], f[SEQ], Level(s), err)) {
      FailureIsOk(f, s, Level(s), err);
    }
  }

  lemma ReplyIsGood(s: Ccid, f: seq<u8>, b: seq<u8>)
    requires Inv(s) && |f| >= HEADER_LEN && ReplyOk(f, s, b)
    ensures Good(s, f, Reply(s, b))
  {
    hide ReplyOk, Answers, Inv;
    Only(f, s, b);
  }

  lemma GoodFrom(s: Ccid, s1: Ccid, f: seq<u8>, r: (Ccid, seq<Out>))
    requires |f| >= HEADER_LEN && SameTag(s, s1) && Good(s1, f, r)
    ensures Good(s, f, r)
  {
    hide Inv, Answers;
  }

  lemma PreparedKeeps(s: Ccid, f: seq<u8>)
    requires Inv(s) && |f| >= HEADER_LEN
    ensures Inv(Prepared(s, f)) && SameTag(s, Prepared(s, f))
  {
  }

  /**
    * Any byte string of header length or more, valid or not, in any state that keeps the invariant,
    * is answered by exactly one message, the last thing done, and the invariant is kept.
    */
  lemma EveryMessageIsAnsweredOnce(s: Ccid, f: seq<u8>, env: Env)
    requires Inv(s) && |f| >= HEADER_LEN && env.Ok()
    ensures Good(s, f, HandleBulk(s, f, env))
  {
    hide EarlyError, Command, SendChunk, Fail, Good, Prepared, ReplyOk, Answers;
    if EarlyError(s, f).Some? {
      EarlyErrorIsOk(s, f);
      ReplyIsGood(s, f, EarlyError(s, f).value);
    } else if IsContinuation(f) {
      FailIsGood(s, f, ERR_BAD_LEVEL);
      if s.chainActive {
        SendChunkIsGood(s, f, env.sendOk);
      }
    } else {
      var s1 := Prepared(s, f);
      PreparedKeeps(s, f);
      FailIsGood(s1, f, ERR_CMD_ABORTED);
      CommandIsGood(s1, f, env);
      GoodFrom(s, s1, f, Fail(s1, f, ERR_CMD_ABORTED));
      GoodFrom(s, s1, f, Command(s1, f, env));
    }
  }

  // ---- Who opens and closes a session ----

  /** What power-on asks of the tag in the slot. */
  predicate CanActivate(s: Ccid, env: Env) {
    s.present && env.atr.Some? && if s.kind == Type4 then env.opens else env.prepared
  }

  lemma PowerOnOpensExactlyWhen(s: Ccid, f: seq<u8>, env: Env)
    requires Inv(s) && |f| >= HEADER_LEN && env.Ok()
    ensures PowerOn(s, f, env).0.sess <==> if f[PARAM1] > 3 then s.sess else CanActivate(s, env)
  {
    hide Status, Block;
  }

  lemma TransferKeepsSession(s: Ccid, f: seq<u8>, env: Env)
    requires Inv(s) && |f| >= HEADER_LEN
    ensures Transfer(s, f, env).0.sess == s.sess
  {
    hide Exchange, CommandFailed, Block;
    var s2 := (if LevelParam(f) == LEVEL_BEGIN then ClearCmd(s) else s).(cmdActive := true);
    forall cmd: seq<u8>, a: seq<u8> ensures Exchange(s2.(cmd := cmd), f, a, env).0.sess == s.sess {
      ExchangeKeepsSession(s2.(cmd := cmd), f, a, env);
    }
    ExchangeKeepsSession(s, f, f[HEADER_LEN..], env);
  }

  lemma ExchangeKeepsSession(s: Ccid, f: seq<u8>, a: seq<u8>, env: Env)
    requires |f| >= HEADER_LEN
    ensures Exchange(s, f, a, env).0.sess == s.sess
  {
    hide Dispatch, ExchangeOuts, CommandFailed, SendResponse, Exchanged;
    ExchangedKeepsSession(s, f, a, env);
    SendsKeepSession(Exchanged(s, f, a, env), f[SEQ], Dispatch(s, a, ResponseCap(s), env).rsp, env.sendOk);
  }

  lemma ExchangedKeepsSession(s: Ccid, f: seq<u8>, a: seq<u8>, env: Env)
    requires |f| >= HEADER_LEN
    ensures Exchanged(s, f, a, env).sess == s.sess
  {
    hide Dispatch, LevelParam, ResponseCap;
  }

  lemma SendsKeepSession(s: Ccid, q: u8, data: seq<u8>, sendOk: bool)
    ensures SendResponse(s, q, data, sendOk).0.sess == s.sess
  {
    hide Block, SendChunk;
    SendChunkKeepsSession(ClearChain(s).(chain := data, chainOff := 0, chainActive := true), q, sendOk);
  }

  lemma SendChunkKeepsSession(s: Ccid, q: u8, sendOk: bool)
    ensures SendChunk(s, q, sendOk).0.sess == s.sess
  {
    hide Block, ChunkLen, ChunkLevel;
  }

  lemma CommandMovesSession(s: Ccid, f: seq<u8>, env: Env)
    requires Inv(s) && |f| >= HEADER_LEN && env.Ok()
    ensures Command(s, f, env).0.sess
            <==> if f[0] == ICC_OFF then false
                 else if f[0] == ICC_ON && f[PARAM1] <= 3 then CanActivate(s, env) else s.sess
  {
    hide Status, DataRate, CommandFailed, PowerOn, Transfer, CanActivate;
    if f[0] == ICC_ON {
      PowerOnOpensExactlyWhen(s, f, env);
    } else if f[0] == XFR {
      TransferKeepsSession(s, f, env);
    }
  }

  /** A message opens a session only by powering on a tag that can be activated, and closes one only by a power command. */
  lemma OnlyPowerCommandsMoveTheSession(s: Ccid, f: seq<u8>, env: Env)
    requires Inv(s) && |f| >= HEADER_LEN && env.Ok()
    ensures var s' := HandleBulk(s, f, env).0;
            && (s'.sess && !s.sess ==> f[0] == ICC_ON && CanActivate(s, env))
            && (!s'.sess && s.sess ==> f[0] == ICC_OFF || (f[0] == ICC_ON && !CanActivate(s, env)))
  {
    hide EarlyError, Command, CommandFailed, CanActivate, Block;
    CommandMovesSession(Prepared(s, f), f, env);
    PreparedIsAsReady(s, f, env);
  }

  lemma PreparedIsAsReady(s: Ccid, f: seq<u8>, env: Env)
    requires Inv(s) && |f| >= HEADER_LEN
    ensures var s1 := Prepared(s, f); Inv(s1) && s1.sess == s.sess && CanActivate(s1, env) == CanActivate(s, env)
  {
  }

  /** What a step does to the slot notifications: nothing, one change of presence, or a swap. */
  ghost predicate NotesFit(before: bool, notes: seq<bool>, after: bool) {
    || (notes == [] && before == after)
    || (notes == [after] && before != after)
    || (notes == [false, true] && before && after)
  }

  function Notes(outs: seq<Out>): seq<bool> {
    if outs == [] then [] else (if outs[0].Notify? then [outs[0].present] else []) + Notes(outs[1..])
  }

  lemma {:induction false} NotesConcat(a: seq<Out>, b: seq<Out>)
    ensures Notes(a + b) == Notes(a) + Notes(b)
  {
    if a == [] {
      assert a + b == b;
    } else {
      assert (a + b)[1..] == a[1..] + b;
      NotesConcat(a[1..], b);
      var first := if a[0].Notify? then [a[0].present] else [];
      assert Notes(a + b) == first + Notes(a[1..] + b);
      assert first + (Notes(a[1..]) + Notes(b)) == first + Notes(a[1..]) + Notes(b);
    }
  }

  lemma {:induction false} NoNotes(outs: seq<Out>)
    requires forall o :: o in outs ==> !o.Notify?
    ensures Notes(outs) == []
  {
    if outs != [] {
      NoNotes(outs[1..]);
    }
  }

  lemma AnswersHaveNoNotes(f: seq<u8>, s': Ccid, outs: seq<Out>)
    requires |f| >= HEADER_LEN && Answers(f, s', outs)
    ensures Notes(outs) == []
  {
    var n := |outs| - 1;
    assert outs == outs[..n] + [outs[n]];
    NoNotes(outs);
  }

  lemma RemovedKeeps(s: Ccid)
    requires Inv(s)
    ensures Inv(Removed(s)) && !Removed(s).present
    ensures Notes(RemovedOuts(s)) == if s.present then [false] else []
  {
    NotesConcat(TeardownOuts(s), if s.present then [Notify(false)] else []);
  }

  lemma PollKeeps(s: Ccid, elapsed: bool, frame: Option<seq<u8>>, env: Env)
    requires Inv(s) && env.Ok()
    ensures var (s', outs) := Poll(s, elapsed, frame, env);
            Inv(s') && NotesFit(s.present, Notes(outs), s'.present) && !s'.deferred
  {
    hide HandleBulk;
    RemovedKeeps(s);
    var due := s.deferred && (!s.sess || elapsed);
    var s1, outs := if due then Removed(s) else s, if due then RemovedOuts(s) else [];
    if frame.Some? {
      var f := Fit(frame.value, WORK_BUF_SIZE);
      var (s2, more) := HandleBulk(s1, f, env);
      NotesConcat(outs, more);
      if |f| >= HEADER_LEN {
        EveryMessageIsAnsweredOnce(s1, f, env);
        AnswersHaveNoNotes(f, s2, more);
      } else {
        assert HandleBulk(s1, f, env) == (s1, []) by { ShortIsIgnored(s1, f, env); }
      }
    }
  }

  lemma ShortIsIgnored(s: Ccid, f: seq<u8>, env: Env)
    requires env.Ok() && |f| < HEADER_LEN
    ensures HandleBulk(s, f, env) == (s, [])
  {
  }

  lemma DetectedKeeps(s: Ccid, kind: Kind)
    requires Inv(s) && kind != NoTag && (!s.present || s.deferred)
    ensures var (s', outs) := TagDetected(s, kind);
            Inv(s') && s'.present && Notes(outs) == if s.present then [false, true] else [true]
  {
    RemovedKeeps(s);
    NotesConcat(if s.deferred then RemovedOuts(s) else [], [Notify(true)]);
  }

  lemma TagRemovedKeeps(s: Ccid, elapsed: bool)
    requires Inv(s)
    ensures var (s', outs) := TagRemoved(s, elapsed);
            && Inv(s') && (!s'.present || s'.deferred)
            && Notes(outs) == (if s.present && !s'.present then [false] else [])
            && (s'.present ==> s.present)
  {
    RemovedKeeps(s);
  }

  lemma WatchKeeps(r: Reader, i: Field)
    requires Inv(r.ccid) && i.Ok()
    ensures var (r', outs) := LoopStep(r, i);
            Inv(r'.ccid) && NotesFit(r.ccid.present, Notes(outs), r'.ccid.present)
  {
    hide TagDetected, TagRemoved;
    var s := r.ccid;
    TagRemovedKeeps(s, i.elapsed);
    if Level(s) == NO_ICC {
      if i.found.Some? {
        DetectedKeeps(s, i.found.value);
      }
    } else if i.probed.Some? {
      var (s1, o1) := TagRemoved(s, i.elapsed);
      var (s2, o2) := TagDetected(s1, i.probed.value);
      DetectedKeeps(s1, i.probed.value);
      NotesConcat(o1, o2);
      assert [false] + [true] == [false, true] && [] + [false, true] == [false, true];
    }
  }

  lemma StepKeeps(r: Reader, step: Legal)
    requires Inv(r.ccid)
    ensures var (r', outs) := Take(r, step);
            Inv(r'.ccid) && NotesFit(r.ccid.present, Notes(outs), r'.ccid.present)
  {
    match step
    case Serve(elapsed, frame, env) => PollKeeps(r.ccid, elapsed, frame, env);
    case Watch(field) => WatchKeeps(r, field);
  }

  /** The invariant holds after every run, and the notifications alternate, the last one telling the truth. */
  lemma {:induction false} EveryRunIsSafe(run: seq<Legal>)
    ensures Inv(After(run).ccid)
    ensures var notes := Notes(Log(run));
            && (forall i :: 0 <= i < |notes| ==> notes[i] == (i % 2 == 0))
            && (After(run).ccid.present <==> |notes| % 2 == 1)
  {
    hide Take;
    if run != [] {
      var n := |run| - 1;
      var r := After(run[..n]);
      EveryRunIsSafe(run[..n]);
      StepKeeps(r, run[n]);
      NotesConcat(Log(run[..n]), Take(r, run[n]).1);
    }
  }

  /** While a FIDO session is open the loop neither probes nor reports: only a message can end it. */
  lemma FidoSessionIsNotDisturbed(run: seq<Legal>, i: Field)
    requires After(run).ccid.fido
    ensures LoopStep(After(run), i).0.ccid == After(run).ccid && LoopStep(After(run), i).1 == []
  {
    EveryRunIsSafe(run);
  }

  /** A power message with nothing in it but its type and sequence number is carried out. */
  lemma PowerMessageIsCommand(s: Ccid, f: seq<u8>, env: Env)
    requires |f| == HEADER_LEN && f[0] in {ICC_ON, ICC_OFF} && f[SLOT] == f[PARAM1] == f[PARAM2] == f[PARAM3] == 0
    requires Validate(f) == Some(0) && env.Ok() && env.abortBefore.None?
    ensures HandleBulk(s, f, env) == Command(ClearCmd(ClearChain(s)), f, env)
  {
    hide Validate, CommandFailed, SlotAbsent, XfrLevelError, LevelParam, Command, ClearCmd, ClearChain;
  }

  lemma PowerPollIsCommand(s: Ccid, msg: u8, q: u8, elapsed: bool, env: Env)
    requires msg in {ICC_ON, ICC_OFF} && env.Ok() && env.abortBefore.None? && !s.deferred
    ensures var f := Status(msg, q, 0, 0);
            |f| == HEADER_LEN && Poll(s, elapsed, Some(f), env).0 == Command(ClearCmd(ClearChain(s)), f, env).0
  {
    hide HandleBulk, Command, Validate;
    var f := Status(msg, q, 0, 0);
    StatusIsValid(msg, q, 0, 0);
    assert Fit(f, WORK_BUF_SIZE) == f;
    PowerMessageIsCommand(s, f, env);
  }

  /** A tag of this kind is in the slot, no removal is put off, and the loop remembers this. */
  predicate Holds(r: Reader, kind: Kind, sess: bool, lastLevel: icc) {
    r.ccid.present && r.ccid.kind == kind && r.ccid.sess == sess && !r.ccid.deferred && r.lastLevel == lastLevel
  }

  lemma PowerOnHolds(r: Reader, kind: Kind, q: u8, elapsed: bool, env: Env)
    requires Holds(r, kind, false, NO_ICC) && kind != NoTag
    requires env.Ok() && env.abortBefore.None? && env.opens && env.prepared && env.atr.Some?
    ensures Holds(Take(r, Serve(elapsed, Some(Status(ICC_ON, q, 0, 0)), env)).0, kind, true, NO_ICC)
  {
    hide Poll, Command;
    PowerPollIsCommand(r.ccid, ICC_ON, q, elapsed, env);
    PowerOnIs(ClearCmd(ClearChain(r.ccid)), Status(ICC_ON, q, 0, 0), env);
  }

  lemma PowerOffHolds(r: Reader, kind: Kind, q: u8, elapsed: bool, env: Env)
    requires Holds(r, kind, true, NO_ICC) && env.Ok() && env.abortBefore.None?
    ensures Holds(Take(r, Serve(elapsed, Some(Status(ICC_OFF, q, 0, 0)), env)).0, kind, false, NO_ICC)
  {
    hide Poll, Command;
    PowerPollIsCommand(r.ccid, ICC_OFF, q, elapsed, env);
    PowerOffIs(ClearCmd(ClearChain(r.ccid)), Status(ICC_OFF, q, 0, 0), env);
  }

  lemma OneMoreStepTaken(run: seq<Legal>, step: Legal)
    ensures After(run + [step]) == Take(After(run), step).0
  {
    hide Take;
    assert (run + [step])[..|run|] == run;
  }

  lemma MissedTwice(r: Reader, kind: Kind, missed: Legal)
    requires Holds(r, kind, false, NO_ICC) && missed == Watch(Field(false, false, false, false, None, false, false, None))
    ensures var s := Take(Take(r, missed).0, missed).0.ccid; s.present && s.deferred && !s.sess
  {
  }

  lemma FoundHolds(kind: Kind, found: Legal)
    requires kind != NoTag && found == Watch(Field(false, false, false, false, None, false, false, Some(kind)))
    ensures Holds(Take(After([]), found).0, kind, false, NO_ICC)
  {
  }

  /**
    * A tag that is detected, powered on and off by the host, and then missed twice while the deadline that the host's
    * activity has set lies ahead, has its removal put off.
    */
  lemma DeferralIsReached(kind: Kind, q: u8, env: Env, found: Legal, on: Legal, off: Legal, missed: Legal)
    requires kind != NoTag
    requires env.Ok() && env.abortBefore.None? && env.opens && env.prepared && env.atr.Some?
    requires found == Watch(Field(false, false, false, false, None, false, false, Some(kind)))
    requires on == Serve(false, Some(Status(ICC_ON, q, 0, 0)), env) && off == Serve(false, Some(Status(ICC_OFF, q, 0, 0)), env)
    requires missed == Watch(Field(false, false, false, false, None, false, false, None))
    ensures After([found, on]).ccid.sess
    ensures var s := After([found, on, off, missed, missed]).ccid; s.present && s.deferred && !s.sess
  {
    hide Take, After, Status;
    OneMoreStepTaken([], found);
    OneMoreStepTaken([found], on);
    OneMoreStepTaken([found, on], off);
    OneMoreStepTaken([found, on, off], missed);
    OneMoreStepTaken([found, on, off, missed], missed);
    assert [] + [found] == [found] && [found] + [on] == [found, on] && [found, on] + [off] == [found, on, off];
    assert [found, on, off] + [missed] == [found, on, off, missed];
    assert [found, on, off, missed] + [missed] == [found, on, off, missed, missed];
    FoundHolds(kind, found);
    PowerOnHolds(After([found]), kind, q, false, env);
    PowerOffHolds(After([found, on]), kind, q, false, env);
    MissedTwice(After([found, on, off]), kind, missed);
  }

  /** A removal that was put off is carried out by the next poll, whatever its deadline. */
  lemma DeferralEndsAtNextPoll(run: seq<Legal>, elapsed: bool, frame: Option<seq<u8>>, env: Env)
    requires env.Ok() && After(run).ccid.deferred
    ensures var (s', outs) := Poll(After(run).ccid, elapsed, frame, env); !s'.present && Notes(outs) == [false]
  {
    hide HandleBulk;
    var s := After(run).ccid;
    EveryRunIsSafe(run);
    PollKeeps(s, elapsed, frame, env);
    RemovedKeeps(s);
    if frame.Some? {
      var f := Fit(frame.value, WORK_BUF_SIZE);
      if |f| >= HEADER_LEN {
        EveryMessageIsAnsweredOnce(Removed(s), f, env);
      } else {
        ShortIsIgnored(Removed(s), f, env);
      }
    }
  }
}
