/**
  * The firmware's CCID context: flags, the reply buffer and the two 2050-byte chaining buffers, updated in place.
  * Every operation is proved to do what the machine of module CcidMachine says, state and outputs.
  */
module CcidDevice {
  import opened Bytes
  import opened CcidFrame
  import opened Apdu
  import M = CcidMachine
  import opened CcidSafety

  type Out = M.Out
  type Env = M.Env
  type Kind = M.Kind

  /** What a complete command does, in the order it is done. */
  lemma ExchangeParts(s: M.Ccid, f: seq<u8>, a: seq<u8>, env: Env)
    requires |f| >= HEADER_LEN
    ensures var d, asks := M.Dispatch(s, a, M.ResponseCap(s), env), M.AsksTimeFirst(s.kind, a);
            && M.ExchangeOuts(s, f, a, env)
               == (if asks then [M.TimeExtension(f[SEQ])] else []) + (if d.relayed.Some? then [d.relayed.value] else [])
                  + (M.Waits(f[SEQ], if s.kind == M.Type4 || asks then env.waits else 0) + [M.Dispatched(a, d.rsp)])
            && var s1 := s.(fido := d.fido);
               var s2 := if d.active then M.NoteActivity(s1) else s1;
               M.Exchanged(s, f, a, env) == if LevelParam(f) == LEVEL_END then M.ClearCmd(s2) else s2
  {
    hide M.Dispatch;
  }

  lemma TornDown(s: M.Ccid)
    requires s == M.Teardown(s)
    ensures M.TeardownOuts(s) == [] && !s.isoOpen && !s.fido
    ensures var s1 := s.(protocol := PROTOCOL_T1); M.Teardown(s1) == s1
  {
  }

  lemma ActivateIs(s: M.Ccid, q: u8, env: Env)
    requires env.Ok() && s == M.Teardown(s)
    ensures var s1, level := s.(protocol := PROTOCOL_T1), if s.kind != M.Type4 && env.prepared then NO_ICC else INACTIVE;
            M.Activate(s, q, env)
            == if !s.present || s.kind == M.NoTag then (s, Status(RDR_DATABLOCK, q, CMD_FAIL + NO_ICC, ERR_ICC_MUTE))
               else if env.atr.None? || !(if s.kind == M.Type4 then env.opens else env.prepared) then
                 (s1, Status(RDR_DATABLOCK, q, CMD_FAIL + level, ERR_ICC_MUTE))
               else ((if s.kind == M.Type4 then s1.(isoOpen := true) else s1).(sess := true, owner := true, deferred := false),
                     Block(q, env.atr.value, LEVEL_SINGLE))
  {
    hide Status, Block;
  }

  lemma SameProtocol(s: M.Ccid)
    ensures s.(protocol := s.protocol) == s
  {
  }

  class Device {
    var sess: bool
    var cardPresent: bool
    var isoSessionOpen: bool
    var securityKeyApp: bool
    var removeDeferred: bool
    var tagKind: Kind
    var protocolNum: u8
    var ownedByCcid: bool
    const rsp: array<u8>
    const chainBuf: array<u8>
    var chainLen: u16
    var chainOff: u16
    var chainActive: bool
    const cmdChainBuf: array<u8>
    var cmdChainLen: u16
    var cmdChainActive: bool
    /** Everything sent, relayed or notified so far. */
    ghost var log: seq<Out>

    ghost predicate Valid()
      reads this`chainLen, this`chainOff, this`chainActive, this`cmdChainLen, this`cmdChainActive
    {
      && rsp.Length == RSP_FRAME_BYTES
      && chainBuf.Length == EXTENDED_RSP_BUF_SIZE && cmdChainBuf.Length == EXTENDED_RSP_BUF_SIZE
      && rsp != chainBuf && rsp != cmdChainBuf && chainBuf != cmdChainBuf
      && chainOff <= chainLen <= EXTENDED_RSP_BUF_SIZE && cmdChainLen <= EXTENDED_RSP_BUF_SIZE
      && (!chainActive ==> chainLen == 0 && chainOff == 0) && (!cmdChainActive ==> cmdChainLen == 0)
    }

    /** The state of the machine. */
    ghost function Abs(): (s: M.Ccid)
      requires Valid()
      reads this`sess, this`cardPresent, this`isoSessionOpen, this`securityKeyApp, this`removeDeferred, this`tagKind
      reads this`protocolNum, this`ownedByCcid, this`chainLen, this`chainOff, this`chainActive, chainBuf
      reads this`cmdChainLen, this`cmdChainActive, cmdChainBuf
      ensures s.sess == sess && s.present == cardPresent && s.isoOpen == isoSessionOpen && s.fido == securityKeyApp
      ensures s.deferred == removeDeferred && s.kind == tagKind && s.protocol == protocolNum && s.owner == ownedByCcid
      ensures s.chainActive == chainActive && s.cmdActive == cmdChainActive
    {
      M.Ccid(sess, cardPresent, isoSessionOpen, securityKeyApp, removeDeferred, tagKind, protocolNum, ownedByCcid,
             chainBuf[..chainLen], chainOff, chainActive, cmdChainBuf[..cmdChainLen], cmdChainActive)
    }

    constructor ()
      ensures Valid() && Abs() == M.Initial && log == []
      ensures fresh(rsp) && fresh(chainBuf) && fresh(cmdChainBuf)
    {
      sess, cardPresent, isoSessionOpen, securityKeyApp, removeDeferred := false, false, false, false, false;
      tagKind, protocolNum, ownedByCcid := M.NoTag, PROTOCOL_T1, false;
      rsp := new u8[RSP_FRAME_BYTES];
      chainBuf := new u8[EXTENDED_RSP_BUF_SIZE];
      cmdChainBuf := new u8[EXTENDED_RSP_BUF_SIZE];
      chainLen, chainOff, chainActive, cmdChainLen, cmdChainActive := 0, 0, false, 0, false;
      log := [];
    }

    // ---- Encoding into the reply buffer ----

    method CopyBytes(dst: array<u8>, at: nat, src: seq<u8>)
      requires at + |src| <= dst.Length
      modifies dst
      ensures dst[at..at + |src|] == src
      ensures dst[..at] == old(dst[..at]) && dst[at + |src|..] == old(dst[at + |src|..])
    {
      var i := 0;
      while i < |src|
        invariant 0 <= i <= |src|
        invariant dst[at..at + i] == src[..i]
        invariant dst[..at] == old(dst[..at]) && dst[at + i..] == old(dst[at + i..])
      {
        dst[at + i] := src[i];
        i := i + 1;
      }
    }

    method EncodeBlockHeader(msg: u8, seqNo: u8, n: u32, status: u8, chain: u8)
      requires rsp.Length >= HEADER_LEN
      modifies rsp
      ensures rsp[..HEADER_LEN] == BlockHeader(msg, seqNo, n, status, chain)
      ensures rsp[HEADER_LEN..] == old(rsp[HEADER_LEN..])
    {
      hide Le32;
      rsp[0] := msg;
      assert rsp[..1] == [msg];
      StoreLe32(1, n);
      assert rsp[..5] == [msg] + Le32(n);
      rsp[SLOT], rsp[SEQ], rsp[PARAM1], rsp[PARAM2], rsp[PARAM3] := 0, seqNo, status, 0, chain;
      assert rsp[..HEADER_LEN] == rsp[..5] + [rsp[5], rsp[6], rsp[7], rsp[8], rsp[9]];
    }

    method StoreLe32(at: nat, v: u32)
      requires at + 4 <= rsp.Length
      modifies rsp
      ensures rsp[..at + 4] == old(rsp[..at]) + Le32(v) && rsp[at + 4..] == old(rsp[at + 4..])
    {
      rsp[at], rsp[at + 1], rsp[at + 2], rsp[at + 3]
        := v % 0x100, v / 0x100 % 0x100, v / 0x1_0000 % 0x100, v / 0x100_0000;
      assert rsp[..at + 4] == rsp[..at] + [rsp[at], rsp[at + 1], rsp[at + 2], rsp[at + 3]];
    }

    method EncodeHeader(msg: u8, seqNo: u8, n: u8, status: u8, err: u8, last: u8)
      requires rsp.Length >= HEADER_LEN
      modifies rsp
      ensures rsp[..HEADER_LEN] == [msg, n, 0, 0, 0, 0, seqNo, status, err, last]
    {
      rsp[0] := msg;
      StoreLe32(1, n);
      ghost var stored := rsp[..5];
      assert stored == [msg, n, 0, 0, 0] by { SmallLe32(n); }
      rsp[SLOT], rsp[SEQ], rsp[PARAM1], rsp[PARAM2], rsp[PARAM3] := 0, seqNo, status, err, last;
      assert rsp[..HEADER_LEN] == rsp[..5] + [rsp[5], rsp[6], rsp[7], rsp[8], rsp[9]];
    }

    method EncodeSlotStatus(msg: u8, seqNo: u8, status: u8, err: u8)
      requires rsp.Length >= HEADER_LEN
      modifies rsp
      ensures rsp[..HEADER_LEN] == Status(msg, seqNo, status, err)
    {
      EncodeBlockHeader(msg, seqNo, 0, status, 0);
      ghost var h := rsp[..HEADER_LEN];
      rsp[PARAM2] := err;
      assert rsp[..HEADER_LEN] == h[PARAM2 := err];
    }

    method EncodeDataRate(seqNo: u8, status: u8, err: u8)
      requires rsp.Length == RSP_FRAME_BYTES
      modifies rsp
      ensures rsp[..HEADER_LEN + DATA_RATE_PAYLOAD_LEN] == DataRate(seqNo, status, err)
    {
      EncodeHeader(RDR_DATA_RATE, seqNo, DATA_RATE_PAYLOAD_LEN, status, err, 0);
      ghost var h := rsp[..HEADER_LEN];
      StoreLe32(HEADER_LEN, DEFAULT_CLOCK_KHZ);
      StoreLe32(HEADER_LEN + 4, DEFAULT_DATA_RATE_BPS);
      assert rsp[..HEADER_LEN + 8] == h + Le32(DEFAULT_CLOCK_KHZ) + Le32(DEFAULT_DATA_RATE_BPS);
    }

    method EncodeParams(seqNo: u8, status: u8, err: u8, protocol: u8) returns (n: nat)
      requires rsp.Length == RSP_FRAME_BYTES
      modifies rsp
      ensures n <= rsp.Length && rsp[..n] == Params(seqNo, status, err, protocol)
    {
      var body := BuildParams(protocol);
      EncodeHeader(RDR_PARAMETERS, seqNo, |body|, status, err, protocol);
      ghost var h := rsp[..HEADER_LEN];
      CopyBytes(rsp, HEADER_LEN, body);
      n := HEADER_LEN + |body|;
      assert rsp[..HEADER_LEN] == h && rsp[..n] == rsp[..HEADER_LEN] + rsp[HEADER_LEN..n];
    }

    /** The protocol data structure, field by field. */
    method BuildParams(protocol: u8) returns (body: seq<u8>)
      ensures body == ParamBody(protocol)
    {
      var param := new u8[T1_PARAMS_LEN](_ => 0);
      param[0], param[1], param[2], param[4] := 0x11, 0, 0, 0;
      if protocol == PROTOCOL_T1 {
        param[3], param[5], param[6] := 0x4D, 0xFE, 0;
        body := param[..T1_PARAMS_LEN];
        assert body == [param[0], param[1], param[2], param[3], param[4], param[5], param[6]];
      } else {
        param[3] := 0x0A;
        body := param[..5];
        assert body == [param[0], param[1], param[2], param[3], param[4]];
      }
    }

    method EncodeCommandFailed(cmd: u8, seqNo: u8, level: icc, err: u8) returns (n: nat)
      requires rsp.Length == RSP_FRAME_BYTES
      modifies rsp
      ensures n <= rsp.Length && rsp[..n] == CommandFailed(cmd, seqNo, level, err)
    {
      if ReplyType(cmd) == RDR_DATA_RATE {
        EncodeDataRate(seqNo, CMD_FAIL + level, err);
        n := HEADER_LEN + DATA_RATE_PAYLOAD_LEN;
      } else {
        EncodeSlotStatus(ReplyType(cmd), seqNo, CMD_FAIL + level, err);
        n := HEADER_LEN;
      }
    }

    method Send(n: nat)
      requires n <= rsp.Length
      modifies this`log
      ensures log == old(log) + [M.Sent(rsp[..n])]
    {
      log := log + [M.Sent(rsp[..n])];
    }

    method SendStatus(msg: u8, seqNo: u8, status: u8, err: u8)
      requires Valid()
      modifies rsp, this`log
      ensures Valid() && Abs() == old(Abs()) && log == old(log) + [M.Sent(Status(msg, seqNo, status, err))]
    {
      EncodeSlotStatus(msg, seqNo, status, err);
      Send(HEADER_LEN);
    }

    method SendFailed(cmd: u8, seqNo: u8, level: icc, err: u8)
      requires Valid()
      modifies rsp, this`log
      ensures Valid() && Abs() == old(Abs()) && log == old(log) + [M.Sent(CommandFailed(cmd, seqNo, level, err))]
    {
      var n := EncodeCommandFailed(cmd, seqNo, level, err);
      Send(n);
    }

    method SendBlock(seqNo: u8, payload: seq<u8>, chain: u8)
      requires Valid() && |payload| <= RSP_DATA_CAP
      modifies rsp, this`log
      ensures Valid() && Abs() == old(Abs()) && log == old(log) + [M.Sent(Block(seqNo, payload, chain))]
    {
      CopyBytes(rsp, HEADER_LEN, payload);
      assert rsp[HEADER_LEN..][..|payload|] == payload;
      EncodeBlockHeader(RDR_DATABLOCK, seqNo, |payload|, ACTIVE, chain);
      assert rsp[..HEADER_LEN + |payload|] == rsp[..HEADER_LEN] + rsp[HEADER_LEN..][..|payload|];
      Send(HEADER_LEN + |payload|);
    }

    method SendSlotAbsent(cmd: u8, slot: u8, seqNo: u8)
      requires Valid()
      modifies rsp, this`log
      ensures Valid() && Abs() == old(Abs()) && log == old(log) + [M.Sent(SlotAbsent(cmd, slot, seqNo))]
    {
      var n := EncodeCommandFailed(cmd, seqNo, NO_ICC, ERR_NO_SLOT);
      ghost var failed := rsp[..n];
      rsp[SLOT] := slot;
      assert rsp[..n] == failed[SLOT := slot];
      Send(n);
    }

    method SendDataRate(seqNo: u8, status: u8, err: u8)
      requires Valid()
      modifies rsp, this`log
      ensures Valid() && Abs() == old(Abs()) && log == old(log) + [M.Sent(DataRate(seqNo, status, err))]
    {
      EncodeDataRate(seqNo, status, err);
      Send(HEADER_LEN + DATA_RATE_PAYLOAD_LEN);
    }

    method SendParams(seqNo: u8, status: u8, err: u8, protocol: u8)
      requires Valid()
      modifies rsp, this`log
      ensures Valid() && Abs() == old(Abs()) && log == old(log) + [M.Sent(Params(seqNo, status, err, protocol))]
    {
      var n := EncodeParams(seqNo, status, err, protocol);
      Send(n);
    }

    function Level(): icc
      reads this
    {
      if !cardPresent then NO_ICC else if sess then ACTIVE else INACTIVE
    }

    predicate FidoSessionActive()
      reads this
    {
      sess && isoSessionOpen && securityKeyApp
    }

    // ---- Session and chains ----

    method ClearResponseChain()
      requires Valid()
      modifies this`chainLen, this`chainOff, this`chainActive
      ensures Valid() && Abs() == M.ClearChain(old(Abs()))
    {
      chainActive, chainLen, chainOff := false, 0, 0;
    }

    method ClearCommandChain()
      requires Valid()
      modifies this`cmdChainLen, this`cmdChainActive
      ensures Valid() && Abs() == M.ClearCmd(old(Abs()))
    {
      cmdChainActive, cmdChainLen := false, 0;
    }

    /** Takes a block of a longer command into the assembly buffer; overflow drops what was there. */
    method AppendCommandChain(data: seq<u8>, begin: bool) returns (ok: bool)
      requires Valid()
      modifies this`cmdChainLen, this`cmdChainActive, cmdChainBuf
      ensures Valid()
      ensures var s := old(Abs());
              var s1 := if begin then M.ClearCmd(s) else s;
              if data == [] || (!begin && !s.cmdActive) then !ok && Abs() == s
              else if |s1.cmd| + |data| > EXTENDED_RSP_BUF_SIZE then !ok && Abs() == M.ClearCmd(s1)
              else ok && Abs() == s1.(cmd := s1.cmd + data, cmdActive := true)
      ensures ok ==> Abs().cmd == cmdChainBuf[..cmdChainLen]
    {
      hide Abs, M.ClearCmd;
      AbsOfChains();
      if data == [] {
        return false;
      }
      if begin {
        ClearCommandChain();
        AbsOfChains();
      } else if !cmdChainActive {
        return false;
      }
      if cmdChainLen + |data| > cmdChainBuf.Length {
        ClearCommandChain();
        return false;
      }
      ExtendCommandChain(data);
      AbsOfChains();
      return true;
    }

    method ExtendCommandChain(data: seq<u8>)
      requires Valid() && cmdChainLen + |data| <= EXTENDED_RSP_BUF_SIZE
      modifies this`cmdChainLen, this`cmdChainActive, cmdChainBuf
      ensures Valid() && Abs() == old(Abs()).(cmd := old(Abs()).cmd + data, cmdActive := true)
    {
      ghost var before := cmdChainBuf[..cmdChainLen];
      CopyBytes(cmdChainBuf, cmdChainLen, data);
      assert cmdChainBuf[..cmdChainLen + |data|] == before + data;
      cmdChainLen := cmdChainLen + |data|;
      cmdChainActive := true;
    }

    method Teardown()
      requires Valid()
      modifies this
      ensures Valid() && Abs() == M.Teardown(old(Abs())) && log == old(log) + M.TeardownOuts(old(Abs()))
    {
      hide Abs;
      ClearResponseChain();
      ClearCommandChain();
      if isoSessionOpen {
        log := log + [M.IsoReleased];
      }
      DropSession();
    }

    method DropSession()
      requires Valid()
      modifies this`securityKeyApp, this`isoSessionOpen, this`sess, this`ownedByCcid
      ensures Valid() && Abs() == old(Abs()).(fido := false, isoOpen := false, sess := false, owner := false)
    {
      securityKeyApp := false;
      if isoSessionOpen {
        isoSessionOpen := false;
      }
      sess := false;
      if ownedByCcid {
        ownedByCcid := false;
      }
    }

    method NoteHostActivity()
      requires Valid()
      modifies this`removeDeferred
      ensures Valid() && Abs() == M.NoteActivity(old(Abs()))
    {
      if !sess {
        return;
      }
      removeDeferred := false;
    }

    method ForgetCard()
      requires Valid()
      modifies this`cardPresent, this`removeDeferred, this`tagKind, this`securityKeyApp
      ensures Valid() && Abs() == old(Abs()).(present := false, deferred := false, kind := M.NoTag, fido := false)
    {
      cardPresent, removeDeferred, tagKind, securityKeyApp := false, false, M.NoTag, false;
    }

    method CompleteCardRemoval()
      requires Valid()
      modifies this
      ensures Valid() && Abs() == M.Removed(old(Abs())) && log == old(log) + M.RemovedOuts(old(Abs()))
    {
      hide Abs;
      var wasPresent := cardPresent;
      ForgetCard();
      Teardown();
      if wasPresent {
        log := log + [M.Notify(false)];
      }
    }

    // ---- Response chaining ----

    method SendChainChunk(seqNo: u8, sendOk: bool)
      requires Valid()
      modifies this, rsp
      ensures Valid()
      ensures var r := M.SendChunk(old(Abs()), seqNo, sendOk); Abs() == r.0 && log == old(log) + r.1
    {
      hide Block, Abs;
      AbsOfChains();
      if !chainActive || chainOff >= chainLen {
        ClearResponseChain();
        return;
      }
      var remaining := chainLen - chainOff;
      var chunk := if remaining > RSP_DATA_CAP then RSP_DATA_CAP else remaining;
      var chain := if chainOff == 0 then LEVEL_BEGIN else if chainOff + chunk >= chainLen then LEVEL_END else LEVEL_MIDDLE;
      assert chainBuf[chainOff..chainOff + chunk] == Abs().chain[chainOff..chainOff + chunk];
      SendBlock(seqNo, chainBuf[chainOff..chainOff + chunk], chain);
      if !sendOk {
        ClearResponseChain();
        return;
      }
      AdvanceResponseChain(chunk);
      if chainOff >= chainLen {
        ClearResponseChain();
      }
    }

    ghost method AbsOfChains()
      requires Valid()
      ensures Abs().chain == chainBuf[..chainLen] && Abs().chainOff == chainOff && Abs().cmd == cmdChainBuf[..cmdChainLen]
    {
    }

    method AdvanceResponseChain(n: nat)
      requires Valid() && chainActive && chainOff + n <= chainLen
      modifies this`chainOff
      ensures Valid() && Abs() == old(Abs()).(chainOff := old(Abs()).chainOff + n) && chainOff == old(chainOff) + n
    {
      chainOff := chainOff + n;
    }

    method LoadResponseChain(data: seq<u8>)
      requires Valid() && |data| <= EXTENDED_RSP_BUF_SIZE
      modifies this`chainLen, this`chainOff, this`chainActive, chainBuf
      ensures Valid() && Abs() == old(Abs()).(chain := data, chainOff := 0, chainActive := true)
    {
      CopyBytes(chainBuf, 0, data);
      assert chainBuf[..|data|] == data;
      chainLen, chainOff, chainActive := |data|, 0, true;
    }

    method SendDataResponse(seqNo: u8, data: seq<u8>, sendOk: bool)
      requires Valid()
      modifies this, rsp, chainBuf
      ensures Valid()
      ensures var r := M.SendResponse(old(Abs()), seqNo, data, sendOk); Abs() == r.0 && log == old(log) + r.1
    {
      hide Block, M.SendChunk, Abs, M.ClearChain;
      ClearResponseChain();
      if |data| <= RSP_DATA_CAP {
        SendBlock(seqNo, data, LEVEL_SINGLE);
        return;
      }
      if |data| > chainBuf.Length {
        SendBlock(seqNo, [0x6F, 0x00], LEVEL_SINGLE);
        return;
      }
      LoadResponseChain(data);
      SendChainChunk(seqNo, sendOk);
    }

    // ---- Dispatch ----

    ghost method Emit(outs: seq<Out>)
      requires Valid()
      modifies this`log
      ensures Valid() && Abs() == old(Abs()) && log == old(log) + outs
    {
      log := log + outs;
    }

    /** The relay of an APDU wrapped in InDataExchange. */
    method InDataExchange(cmd: seq<u8>, cap: nat, env: Env) returns (r: seq<u8>)
      requires Valid() && cap >= 10
      modifies this`log
      ensures Valid() && Abs() == old(Abs())
      ensures var d := M.InDataExchange(old(Abs()), cmd, cap, env);
              r == d.rsp && log == old(log) + (if d.relayed.Some? then [d.relayed.value] else [])
              && d.fido == securityKeyApp && (d.active <==> r != [])
    {
      hide Abs, SelectsNdefApp, SelectsFido, CtapCommand, IsGetResponse, IsControlEnd;
      if |cmd| < 4 {
        return [];
      }
      if cmd[2] != 1 {
        return M.Pn53xStatus(0x41, 0x01);
      }
      if tagKind == M.Type2 {
        return M.Fit(env.handler, cap);
      }
      if tagKind == M.Type4 {
        var inner := cmd[3..];
        if securityKeyApp && SelectsNdefApp(inner) {
          return M.Pn53xStatus(0x41, 0x01);
        }
        if SelectsFido(inner) || CtapCommand(inner).Some? || IsGetResponse(inner) || IsControlEnd(inner) {
          return M.Pn53xStatus(0x41, 0x01);
        }
        var answer := M.Fit(env.card, cap - 5);
        Emit([M.Relayed(inner, true, answer)]);
        if |answer| < 2 {
          return M.Pn53xStatus(0x41, 0x01);
        }
        return [0xD5, 0x41, 0x00] + answer + [0x90, 0x00];
      }
      return M.Pn53xStatus(0x41, 0x01);
    }

    method Acr122Direct(a: seq<u8>, cap: nat, env: Env) returns (r: seq<u8>)
      requires Valid() && |a| >= 2 && cap >= 10
      modifies this`log
      ensures Valid() && Abs() == old(Abs())
      ensures var d := M.Acr122Direct(old(Abs()), a, cap, env);
              r == d.rsp && log == old(log) + (if d.relayed.Some? then [d.relayed.value] else [])
              && d.fido == securityKeyApp && (d.active <==> r != [])
    {
      if |a| < 5 {
        return [];
      }
      if a == [0xFF, 0x00, 0x48, 0x00, 0x00] {
        return [0x41, 0x43, 0x52, 0x31, 0x32, 0x32, 0x55, 0x32, 0x30, 0x33];
      }
      if a[0] != 0xFF || a[1] != 0 || a[2] != 0 || a[3] != 0 {
        return [0x6D, 0x00];
      }
      if !BodyOk(|a|, a[4]) || a[4] < 2 {
        return [0x67, 0x00];
      }
      var cmd := a[5..];
      if cmd[0] != 0xD4 {
        return [0x6D, 0x00];
      }
      match cmd[1] {
        case 0x02 => r := [0xD5, 0x03, 0x32, 0x01, 0x06, 0x07, 0x90, 0x00];
        case 0x4A => r := if |cmd| < 4 then [] else M.Fit(env.handler, cap);
        case 0x40 => r := InDataExchange(cmd, cap, env);
        case 0x42 =>
          r := if |cmd| < 3 then []
               else if tagKind == M.Type2 || tagKind == M.Type5 then M.Fit(env.handler, cap) else M.Pn53xStatus(0x43, 0x01);
        case 0x44 => r := M.Pn53xStatus(0x45, 0x00);
        case 0x52 => r := M.Pn53xStatus(0x53, 0x00);
        case _ => r := M.Pn53xStatus((cmd[1] as int + 1) % 0x100, 0x27);
      }
    }

    method EnterSecurityKeyApp()
      requires Valid()
      modifies this`securityKeyApp
      ensures Valid() && Abs() == old(Abs()).(fido := true)
    {
      securityKeyApp := true;
    }

    /** The relay of an APDU sent straight to a Type 4 card. */
    method DirectRelay(a: seq<u8>, cap: nat, env: Env) returns (r: seq<u8>)
      requires Valid()
      modifies this`log, this`securityKeyApp
      ensures Valid() && r != []
      ensures var d := M.DirectRelay(old(Abs()), a, cap, env);
              r == d.rsp && d.active && Abs() == old(Abs()).(fido := d.fido)
              && log == old(log) + (if d.relayed.Some? then [d.relayed.value] else [])
    {
      hide Valid, Abs, SelectsNdefApp, SelectsFido, StatusOk, M.Fit;
      if securityKeyApp && SelectsNdefApp(a) {
        return [0x69, 0xFF];
      }
      var answer := M.Fit(env.card, cap);
      Emit([M.Relayed(a, false, answer)]);
      if SelectsFido(a) && StatusOk(answer) {
        EnterSecurityKeyApp();
      }
      r := if |answer| >= 2 then answer else [0x69, 0xFF];
    }

    method DispatchProprietary(a: seq<u8>, cap: nat, env: Env) returns (r: seq<u8>)
      requires Valid() && |a| >= 2 && a[0] == CLA_PROPRIETARY && cap >= 10
      modifies this`log
      ensures Valid() && Abs() == old(Abs())
      ensures var d := M.Dispatch(old(Abs()), a, cap, env);
              r == d.rsp && log == old(log) + (if d.relayed.Some? then [d.relayed.value] else [])
              && d.fido == securityKeyApp && (d.active <==> r != [])
    {
      hide Abs, M.DirectRelay, M.Acr122Direct, M.Fit;
      if a[1] == 0x00 {
        r := Acr122Direct(a, cap, env);
      } else if a[1] in {0xCA, 0xB0, 0xD6, 0xC2} {
        r := M.Fit(env.handler, cap);
      } else {
        r := [0x6D, 0x00];
      }
    }

    /** Every APDU that gets as far as the tag. */
    method Route(a: seq<u8>, cap: nat, env: Env) returns (r: seq<u8>)
      requires Valid() && |a| >= 2 && cap >= 10
      requires a[0] == CLA_PROPRIETARY || a[0] == CLA_ISO || (tagKind != M.Type2 && tagKind != M.Type5)
      modifies this`log, this`securityKeyApp
      ensures Valid()
      ensures var d := M.Dispatch(old(Abs()), a, cap, env);
              && r == d.rsp && (d.active <==> r != []) && Abs() == old(Abs()).(fido := d.fido)
              && log == old(log) + (if d.relayed.Some? then [d.relayed.value] else [])
    {
      hide Abs, M.DirectRelay, M.Acr122Direct, M.Fit;
      if a[0] == CLA_PROPRIETARY {
        r := DispatchProprietary(a, cap, env);
      } else if tagKind == M.Type4 {
        r := DirectRelay(a, cap, env);
        assert M.Dispatch(old(Abs()), a, cap, env) == M.DirectRelay(old(Abs()), a, cap, env);
      } else {
        r := [0x6D, 0x00];
        assert M.Dispatch(old(Abs()), a, cap, env) == M.Plain(old(Abs()), r);
      }
    }

    method Dispatch(a: seq<u8>, cap: nat, env: Env) returns (r: seq<u8>)
      requires Valid() && cap >= 10
      modifies this`log, this`securityKeyApp, this`removeDeferred
      ensures Valid()
      ensures var s := old(Abs());
              var d := M.Dispatch(s, a, cap, env);
              var s1 := s.(fido := d.fido);
              && r == d.rsp && Abs() == (if d.active then M.NoteActivity(s1) else s1)
              && log == old(log) + (if d.relayed.Some? then [d.relayed.value] else [])
    {
      if |a| < 2 {
        return [0x6F, 0x00];
      }
      if a[0] != CLA_PROPRIETARY && a[0] != CLA_ISO && (tagKind == M.Type2 || tagKind == M.Type5) {
        return [0x6E, 0x00];
      }
      hide Abs, M.Dispatch;
      r := Route(a, cap, env);
      if |r| != 0 {
        NoteHostActivity();
      }
    }

    // ---- Bulk messages ----

    /** The checks made before any state is touched, in their order. */
    method RejectEarly(f: seq<u8>) returns (rejected: bool)
      requires Valid() && |f| >= HEADER_LEN
      modifies rsp, this`log
      ensures Valid() && Abs() == old(Abs())
      ensures var e := M.EarlyError(old(Abs()), f);
              rejected == e.Some? && log == old(log) + (if e.Some? then [M.Sent(e.value)] else [])
    {
      hide Abs, CommandFailed, SlotAbsent, Validate;
      rejected := true;
      var c, q, level := f[0], f[SEQ], Level();
      if Validate(f).None? {
        SendFailed(c, q, level, ERR_BAD_DWLENGTH);
      } else if f[SLOT] != 0 {
        SendSlotAbsent(c, f[SLOT], q);
      } else if RequiresZeroLength(c) && |f| != HEADER_LEN {
        SendFailed(c, q, level, ERR_BAD_DWLENGTH);
      } else if RequiresRfuZero(c) && (f[PARAM1] != 0 || f[PARAM2] != 0 || f[PARAM3] != 0) {
        SendFailed(c, q, level, ERR_POWER_SELECT);
      } else if c == XFR && XfrLevelError(LevelParam(f), |f| - HEADER_LEN) != 0 {
        SendFailed(c, q, level, XfrLevelError(LevelParam(f), |f| - HEADER_LEN));
      } else if c == ICC_ON && (f[PARAM2] != 0 || f[PARAM3] != 0) {
        SendFailed(c, q, level, ERR_BAD_LEVEL);
      } else if c == SET_RATE_CLOCK && (f[PARAM1] != 0 || f[PARAM2] != 0 || f[PARAM3] != 0) {
        var err := ERR_PROTOCOL_TYPE;
        if f[PARAM1] != 0 {
          err := ERR_POWER_SELECT;
        } else if f[PARAM2] != 0 {
          err := ERR_BAD_LEVEL;
        }
        SendFailed(c, q, level, err);
      } else {
        rejected := false;
      }
    }

    method SetProtocol(protocol: u8)
      requires Valid()
      modifies this`protocolNum
      ensures Valid() && Abs() == old(Abs()).(protocol := protocol)
    {
      protocolNum := protocol;
    }

    method OpenIsoSession()
      requires Valid()
      modifies this`isoSessionOpen, this`securityKeyApp
      ensures Valid() && Abs() == old(Abs()).(isoOpen := true, fido := false)
    {
      isoSessionOpen, securityKeyApp := true, false;
    }

    method OpenSession()
      requires Valid()
      modifies this`sess, this`ownedByCcid
      ensures Valid() && Abs() == old(Abs()).(sess := true, owner := true)
    {
      sess, ownedByCcid := true, true;
    }

    /** Activation of the tag in the slot; the caller has torn the old session down. */
    method Activate(q: u8, env: Env)
      requires Valid() && env.Ok() && Abs() == M.Teardown(Abs())
      modifies this, rsp
      ensures Valid()
      ensures var r := M.Activate(old(Abs()), q, env);
              Abs() == r.0 && log == old(log) + M.OpenOuts(old(Abs()), q, env) + [M.Sent(r.1)]
    {
      hide Abs, Status, Block, M.Teardown, M.Activate, M.Waits;
      TornDown(Abs());
      ActivateIs(Abs(), q, env);
      assert log + [] == log;
      if !cardPresent || tagKind == M.NoTag {
        SendStatus(RDR_DATABLOCK, q, CMD_FAIL + NO_ICC, ERR_ICC_MUTE);
        return;
      }
      SetProtocol(PROTOCOL_T1);
      var ready;
      if tagKind == M.Type4 {
        ready := ActivateType4(q, env);
      } else {
        ready := ActivateStorage(q, env);
      }
      if ready {
        StartSession(q, env.atr.value);
      }
    }

    method ActivateStorage(q: u8, env: Env) returns (ready: bool)
      requires Valid() && Abs() == M.Teardown(Abs())
      modifies this, rsp
      ensures Valid() && Abs() == old(Abs()) && ready == (env.prepared && env.atr.Some?)
      ensures var level := if env.prepared then NO_ICC else INACTIVE;
              && (ready ==> log == old(log))
              && (!ready ==> log == old(log) + [M.Sent(Status(RDR_DATABLOCK, q, CMD_FAIL + level, ERR_ICC_MUTE))])
    {
      hide Abs, Status, M.Teardown;
      if !env.prepared {
        FailActivation(q);
        return false;
      }
      if env.atr.None? {
        SendStatus(RDR_DATABLOCK, q, CMD_FAIL + NO_ICC, ERR_ICC_MUTE);
        return false;
      }
      return true;
    }

    /** Opens the ISO-DEP session; without an ATR it stays open but is not noted. */
    method ActivateType4(q: u8, env: Env) returns (ready: bool)
      requires Valid() && cardPresent && tagKind == M.Type4 && Abs() == M.Teardown(Abs())
      modifies this, rsp
      ensures Valid() && ready == (env.opens && env.atr.Some?)
      ensures Abs() == if ready then old(Abs()).(isoOpen := true) else old(Abs())
      ensures var outs := M.OpenOuts(old(Abs()), q, env);
              && (ready ==> log == old(log) + outs)
              && (!ready ==>
                    log == old(log) + outs + [M.Sent(Status(RDR_DATABLOCK, q, CMD_FAIL + INACTIVE, ERR_ICC_MUTE))])
    {
      hide Abs, Status, M.Teardown, M.Waits;
      TornDown(Abs());
      Emit(M.Waits(q, env.waits));
      if env.opens {
        Emit([M.IsoOpened]);
      }
      if !env.opens || env.atr.None? {
        FailActivation(q);
        return false;
      }
      OpenIsoSession();
      return true;
    }

    method FailActivation(q: u8)
      requires Valid() && Abs() == M.Teardown(Abs())
      modifies this, rsp
      ensures Valid() && Abs() == old(Abs())
      ensures log == old(log) + [M.Sent(Status(RDR_DATABLOCK, q, CMD_FAIL + INACTIVE, ERR_ICC_MUTE))]
    {
      hide Abs, Status;
      TornDown(Abs());
      Teardown();
      SendStatus(RDR_DATABLOCK, q, CMD_FAIL + INACTIVE, ERR_ICC_MUTE);
    }

    method StartSession(q: u8, atr: seq<u8>)
      requires Valid() && |atr| <= RSP_DATA_CAP
      modifies this, rsp
      ensures Valid() && Abs() == old(Abs()).(sess := true, owner := true, deferred := false)
      ensures log == old(log) + [M.Sent(Block(q, atr, LEVEL_SINGLE))]
    {
      hide Abs, Block;
      SendBlock(q, atr, LEVEL_SINGLE);
      OpenSession();
      NoteHostActivity();
    }

    method PowerOn(f: seq<u8>, env: Env)
      requires Valid() && |f| >= HEADER_LEN && env.Ok()
      modifies this, rsp
      ensures Valid()
      ensures var r := M.PowerOn(old(Abs()), f, env); Abs() == r.0 && log == old(log) + r.1
    {
      hide Abs, Status, M.Activate;
      if f[PARAM1] > 3 {
        SendStatus(RDR_DATABLOCK, f[SEQ], CMD_FAIL + INACTIVE, ERR_POWER_SELECT);
        return;
      }
      Teardown();
      Activate(f[SEQ], env);
    }

    method Parameters(f: seq<u8>)
      requires Valid() && |f| >= HEADER_LEN
      modifies this, rsp
      ensures Valid()
      ensures var r := M.Parameters(old(Abs()), f); Abs() == r.0 && log == old(log) + r.1
    {
      hide Abs, Params, ParamError, M.NoteActivity, M.Level;
      var err, status, protocol := SettleParameters(f);
      SendParams(f[SEQ], status, err, protocol);
      NoteHostActivity();
    }

    method SettleParameters(f: seq<u8>) returns (err: u8, status: u8, protocol: u8)
      requires Valid() && |f| >= HEADER_LEN
      modifies this`protocolNum
      ensures Valid()
      ensures var s := old(Abs());
              && err == (if !s.present then ERR_ICC_MUTE else ParamError(f))
              && status == (if !s.present then CMD_FAIL + NO_ICC else if err != 0 then CMD_FAIL + M.Level(s) else M.Level(s))
              && protocol == (if s.present && f[0] == RESET_PARAMS then PROTOCOL_T1
                              else if s.present && f[0] == SET_PARAMS && err == 0 then f[PARAM1] else s.protocol)
              && Abs() == s.(protocol := protocol)
    {
      hide Abs, ParamError;
      SameProtocol(Abs());
      err := ParamError(f);
      status := if err != 0 then CMD_FAIL + Level() else Level();
      protocol := protocolNum;
      if !cardPresent {
        err, status := ERR_ICC_MUTE, CMD_FAIL + NO_ICC;
      } else if f[0] == RESET_PARAMS {
        protocol := PROTOCOL_T1;
        SetProtocol(protocol);
      }
      if cardPresent && f[0] == SET_PARAMS && err == 0 {
        protocol := f[PARAM1];
        SetProtocol(protocol);
      }
    }

    /** Asks for time if the command is slow, runs it, and notes what it did. */
    method AskAndDispatch(f: seq<u8>, a: seq<u8>, env: Env) returns (r: seq<u8>)
      requires Valid() && |f| >= HEADER_LEN
      modifies this`log, this`securityKeyApp, this`removeDeferred
      ensures Valid() && log == old(log) + M.ExchangeOuts(old(Abs()), f, a, env)
      ensures var d := M.Dispatch(old(Abs()), a, M.ResponseCap(old(Abs())), env);
              var s1 := old(Abs()).(fido := d.fido);
              r == d.rsp && Abs() == (if d.active then M.NoteActivity(s1) else s1)
    {
      hide Valid, Abs, M.Dispatch, M.AsksTimeFirst, M.Waits, M.ExchangeOuts, M.NoteActivity;
      ExchangeParts(Abs(), f, a, env);
      var asks := M.AsksTimeFirst(tagKind, a);
      var waits := if tagKind == M.Type4 || asks then env.waits else 0;
      if asks {
        Emit([M.TimeExtension(f[SEQ])]);
      }
      r := Dispatch(a, if tagKind == M.Type4 then EXTENDED_RSP_BUF_SIZE else RSP_DATA_CAP, env);
      Emit(M.Waits(f[SEQ], waits) + [M.Dispatched(a, r)]);
    }

    /** Runs a complete command APDU and drops the assembled command that carried it. */
    method Execute(f: seq<u8>, a: seq<u8>, env: Env) returns (r: seq<u8>)
      requires Valid() && |f| >= HEADER_LEN
      modifies this
      ensures Valid() && Abs() == M.Exchanged(old(Abs()), f, a, env)
      ensures log == old(log) + M.ExchangeOuts(old(Abs()), f, a, env)
      ensures r == M.Dispatch(old(Abs()), a, M.ResponseCap(old(Abs())), env).rsp
    {
      hide Valid, Abs, M.Dispatch, M.ExchangeOuts, M.Exchanged, M.NoteActivity;
      ExchangeParts(Abs(), f, a, env);
      r := AskAndDispatch(f, a, env);
      if LevelParam(f) == LEVEL_END {
        ClearCommandChain();
      }
    }

    /** A complete command APDU and its response, unless the host has aborted it meanwhile. */
    method Exchange(f: seq<u8>, a: seq<u8>, env: Env)
      requires Valid() && |f| >= HEADER_LEN
      modifies this, rsp, chainBuf
      ensures Valid()
      ensures var r := M.Exchange(old(Abs()), f, a, env); Abs() == r.0 && log == old(log) + r.1
    {
      hide Abs, M.Dispatch, M.SendResponse, CommandFailed, M.Exchanged, M.ExchangeOuts;
      var r := Execute(f, a, env);
      if env.abortAfter == Some((f[SLOT], f[SEQ])) {
        var level := Level();
        ClearResponseChain();
        SendFailed(f[0], f[SEQ], level, ERR_CMD_ABORTED);
        return;
      }
      SendDataResponse(f[SEQ], r, env.sendOk);
    }

    method Transfer(f: seq<u8>, env: Env)
      requires Valid() && |f| >= HEADER_LEN
      modifies this, rsp, chainBuf, cmdChainBuf
      ensures Valid()
      ensures var r := M.Transfer(old(Abs()), f, env); Abs() == r.0 && log == old(log) + r.1
    {
      hide Abs, CommandFailed, Block, M.Exchange;
      var level, data := LevelParam(f), f[HEADER_LEN..];
      if !sess {
        SendFailed(f[0], f[SEQ], NO_ICC, ERR_ICC_MUTE);
        return;
      }
      if level == LEVEL_SINGLE {
        if cmdChainActive {
          ClearCommandChain();
          SendFailed(f[0], f[SEQ], Level(), ERR_BAD_LEVEL);
          return;
        }
        Exchange(f, data, env);
        return;
      }
      var ok := AppendCommandChain(data, level == LEVEL_BEGIN);
      if !ok {
        SendFailed(f[0], f[SEQ], Level(), ERR_BAD_DWLENGTH);
        return;
      }
      if level == LEVEL_BEGIN || level == LEVEL_MIDDLE {
        SendBlock(f[SEQ], [], RESPONSE_CONTINUE);
        return;
      }
      Exchange(f, cmdChainBuf[..cmdChainLen], env);
    }

    method Command(f: seq<u8>, env: Env)
      requires Valid() && |f| >= HEADER_LEN && env.Ok()
      modifies this, rsp, chainBuf, cmdChainBuf
      ensures Valid()
      ensures var r := M.Command(old(Abs()), f, env); Abs() == r.0 && log == old(log) + r.1
    {
      hide Abs, CommandFailed, Status, DataRate, M.PowerOn, M.Parameters, M.Transfer;
      var c, q := f[0], f[SEQ];
      if c == SLOT_STATUS {
        SendStatus(RDR_SLOTSTATUS, q, Level(), 0);
      } else if c == ICC_OFF {
        Teardown();
        SetProtocol(PROTOCOL_T1);
        SendStatus(RDR_SLOTSTATUS, q, if cardPresent then INACTIVE else NO_ICC, 0);
      } else if c == ICC_ON {
        PowerOn(f, env);
      } else if c == GET_PARAMS || c == RESET_PARAMS || c == SET_PARAMS {
        Parameters(f);
      } else if c == ABORT {
        var level := Level();
        ClearResponseChain();
        ClearCommandChain();
        SendStatus(RDR_SLOTSTATUS, q, level, 0);
      } else if c == SECURE {
        SendStatus(RDR_DATABLOCK, q, CMD_FAIL + Level(), 0);
      } else if c == ESCAPE {
        SendFailed(c, q, Level(), 0);
      } else if c == SET_RATE_CLOCK {
        if |f| != HEADER_LEN + DATA_RATE_PAYLOAD_LEN {
          SendDataRate(q, CMD_FAIL + Level(), ERR_BAD_DWLENGTH);
        } else {
          SendDataRate(q, Level(), 0);
        }
      } else if c == XFR {
        Transfer(f, env);
      } else {
        SendStatus(RDR_SLOTSTATUS, q, CMD_FAIL + Level(), 0);
      }
    }

    /** One bulk message from the host. */
    method HandleBulk(f: seq<u8>, env: Env)
      requires Valid() && env.Ok()
      modifies this, rsp, chainBuf, cmdChainBuf
      ensures Valid()
      ensures var r := M.HandleBulk(old(Abs()), f, env); Abs() == r.0 && log == old(log) + r.1
    {
      hide CommandFailed, Status, M.EarlyError, M.IsContinuation, M.SendChunk, M.Command, M.Prepared;
      ghost var s := Abs();
      if |f| < HEADER_LEN {
        return;
      }
      var rejected := RejectEarly(f);
      if rejected {
        return;
      }
      if M.IsContinuation(f) {
        if chainActive {
          SendChainChunk(f[SEQ], env.sendOk);
        } else {
          SendFailed(f[0], f[SEQ], Level(), ERR_BAD_LEVEL);
        }
        return;
      }
      DropStaleChains(f);
      hide Abs;
      match env.abortBefore {
        case Some(request) =>
          if f[SLOT] == request.0 && (f[0] != ABORT || f[SEQ] != request.1) {
            SendFailed(f[0], f[SEQ], Level(), ERR_CMD_ABORTED);
            return;
          }
        case None =>
      }
      assert M.HandleBulk(s, f, env) == M.Command(M.Prepared(s, f), f, env);
      Command(f, env);
    }

    /** A message that is executed ends the hand-out of the last response, and the assembly of a command if it is no transfer. */
    method DropStaleChains(f: seq<u8>)
      requires Valid() && |f| >= HEADER_LEN
      modifies this`chainLen, this`chainOff, this`chainActive, this`cmdChainLen, this`cmdChainActive
      ensures Valid() && Abs() == M.Prepared(old(Abs()), f)
    {
      if chainActive {
        ClearResponseChain();
      }
      if f[0] != XFR && cmdChainActive {
        ClearCommandChain();
      }
    }

    // ---- Polling and tag events ----

    method Poll(elapsed: bool, frame: Option<seq<u8>>, env: Env)
      requires Valid() && env.Ok()
      modifies this, rsp, chainBuf, cmdChainBuf
      ensures Valid()
      ensures var r := M.Poll(old(Abs()), elapsed, frame, env); Abs() == r.0 && log == old(log) + r.1
    {
      hide Abs, M.Removed, M.RemovedOuts, M.HandleBulk;
      if removeDeferred && (!sess || elapsed) {
        CompleteCardRemoval();
      }
      if frame.Some? {
        HandleBulk(M.Fit(frame.value, WORK_BUF_SIZE), env);
      }
    }

    method OnTagDetected(kind: Kind)
      requires Valid()
      modifies this
      ensures Valid()
      ensures var r := M.TagDetected(old(Abs()), kind); Abs() == r.0 && log == old(log) + r.1
    {
      hide Abs, M.Removed, M.RemovedOuts;
      if removeDeferred {
        CompleteCardRemoval();
      }
      ClearResponseChain();
      AdoptTag(kind);
      if cardPresent {
        return;
      }
      MarkPresent();
      log := log + [M.Notify(true)];
    }

    method AdoptTag(kind: Kind)
      requires Valid()
      modifies this`removeDeferred, this`tagKind, this`securityKeyApp, this`protocolNum
      ensures Valid() && Abs() == old(Abs()).(deferred := false, kind := kind, fido := false, protocol := PROTOCOL_T1)
    {
      removeDeferred, tagKind, securityKeyApp, protocolNum := false, kind, false, PROTOCOL_T1;
    }

    method MarkPresent()
      requires Valid()
      modifies this`cardPresent
      ensures Valid() && Abs() == old(Abs()).(present := true)
    {
      cardPresent := true;
    }

    method OnTagRemovedFromField(elapsed: bool)
      requires Valid()
      modifies this
      ensures Valid()
      ensures var r := M.TagRemoved(old(Abs()), elapsed); Abs() == r.0 && log == old(log) + r.1
    {
      if !cardPresent {
        return;
      }
      if sess || elapsed {
        CompleteCardRemoval();
        return;
      }
      removeDeferred := true;
    }
  }

  /** The loop that probes the field and turns what it sees into tag events. */
  class ReaderLoop {
    const device: Device
    var lastLevel: icc
    var misses: nat

    ghost predicate Valid()
      reads device
    {
      device.Valid()
    }

    ghost function Abs(): M.Reader
      requires Valid()
      reads this, device, device.chainBuf, device.cmdChainBuf
    {
      M.Reader(device.Abs(), lastLevel, misses)
    }

    constructor ()
      ensures Valid() && Abs() == M.Start && device.log == []
      ensures fresh(device) && fresh(device.rsp) && fresh(device.chainBuf) && fresh(device.cmdChainBuf)
    {
      device := new Device();
      lastLevel, misses := NO_ICC, 0;
    }

    method LoopStep(i: M.Field)
      requires Valid()
      modifies this, device
      ensures Valid()
      ensures var r := M.LoopStep(old(Abs()), i); Abs() == r.0 && device.log == old(device.log) + r.1
    {
      hide M.TagDetected, M.TagRemoved;
      var level := device.Level();
      if level != lastLevel {
        lastLevel, misses := level, 0;
      }
      if level == NO_ICC {
        misses := 0;
        if !i.early && i.found.Some? {
          device.OnTagDetected(i.found.value);
        }
        return;
      }
      Probe(level, i);
    }

    /** One step of a run. */
    method Take(step: M.Legal)
      requires Valid()
      modifies this, device, device.rsp, device.chainBuf, device.cmdChainBuf
      ensures Valid()
      ensures var r := M.Take(old(Abs()), step); Abs() == r.0 && device.log == old(device.log) + r.1
    {
      hide M.LoopStep, M.Poll;
      match step
      case Serve(elapsed, frame, env) => device.Poll(elapsed, frame, env);
      case Watch(field) => LoopStep(field);
    }

    /** A step with a card in the slot. */
    method Probe(level: icc, i: M.Field)
      requires Valid() && level == device.Level() && level == lastLevel != NO_ICC
      modifies this, device
      ensures Valid()
      ensures var r := M.LoopStep(old(Abs()), i); Abs() == r.0 && device.log == old(device.log) + r.1
    {
      hide M.TagDetected, M.TagRemoved;
      var watched := level == ACTIVE && device.tagKind == M.Type4;
      if watched && device.FidoSessionActive() {
        return;
      }
      if i.early || (level == ACTIVE && !watched && !i.probeDue) {
        return;
      }
      if if watched then i.loaded else i.probed.Some? {
        misses := 0;
        if !watched && !i.sameUid && i.remembered {
          device.OnTagRemovedFromField(i.elapsed);
          device.OnTagDetected(i.probed.value);
        }
        return;
      }
      misses := misses + 1;
      if misses >= M.CONSECUTIVE_MISSES {
        misses := 0;
        device.OnTagRemovedFromField(i.elapsed);
      }
    }
  }

  /** Carries out a run on a fresh device: state and outputs are those of the machine, so what holds of every run holds here. */
  method Run(run: seq<M.Legal>) returns (reader: ReaderLoop)
    ensures fresh(reader) && fresh(reader.device) && reader.Valid()
    ensures reader.Abs() == M.After(run) && reader.device.log == M.Log(run)
    ensures Inv(reader.device.Abs())
    ensures reader.device.cardPresent <==> |Notes(reader.device.log)| % 2 == 1
  {
    hide M.Take, Inv;
    reader := new ReaderLoop();
    var i := 0;
    while i < |run|
      invariant 0 <= i <= |run|
      invariant fresh(reader) && fresh(reader.device) && reader.Valid()
      invariant fresh(reader.device.rsp) && fresh(reader.device.chainBuf) && fresh(reader.device.cmdChainBuf)
      invariant reader.Abs() == M.After(run[..i]) && reader.device.log == M.Log(run[..i])
    {
      assert run[..i + 1][..i] == run[..i];
      reader.Take(run[i]);
      i := i + 1;
    }
    assert run[..i] == run;
    EveryRunIsSafe(run);
  }
}
