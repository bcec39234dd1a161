/** What each message is answered with, byte for byte (USB CCID Rev 1.10, sections 6.1 and 6.2). */
module CcidReplies {
  import opened Bytes
  import opened CcidFrame
  import opened Apdu
  import opened CcidMachine
  import opened CcidSafety
  import opened CcidChaining

  /** The message type of the reply. */
  function Kind(f: seq<u8>): u8
    requires |f| >= 10
  {
    match f[0]
    case 0x61 => 0x82
    case 0x62 => 0x80
    case 0x69 => 0x80
    case 0x6B => 0x83
    case 0x6C => 0x82
    case 0x6D => 0x82
    case 0x6F => 0x80
    case 0x73 => 0x84
    case _ => 0x81
  }

  function Bare(kind: u8, q: u8, status: u8, err: u8): seq<u8> { [kind, 0, 0, 0, 0, 0, q, status, err, 0] }

  /** 13560 kHz and 106000 bit/s. */
  function Rates(q: u8, status: u8, err: u8): seq<u8> {
    [0x84, 8, 0, 0, 0, 0, q, status, err, 0, 0xF8, 0x34, 0, 0, 0x10, 0x9E, 0x01, 0]
  }

  /** The T=1 parameters. */
  function T1(q: u8, status: u8, err: u8): seq<u8> {
    [0x82, 7, 0, 0, 0, 0, q, status, err, 1, 0x11, 0, 0, 0x4D, 0, 0xFE, 0]
  }

  /** A failure, with the state of the slot and an error code. */
  function Failure(f: seq<u8>, slot: icc, err: u8): seq<u8>
    requires |f| >= 10
  {
    if f[0] == 0x73 then Rates(f[6], 0x40 + slot, err) else Bare(Kind(f), f[6], 0x40 + slot, err)
  }

  lemma LevelMeans(s: Ccid)
    ensures Level(s) == if !s.present then 2 else if s.sess then 0 else 1
  {
  }

  lemma FailureBytes(f: seq<u8>, slot: icc, err: u8)
    requires |f| >= 10
    ensures CommandFailed(f[0], f[6], slot, err) == Failure(f, slot, err)
  {
  }

  lemma ReplyBytes(q: u8, status: u8, err: u8)
    ensures DataRate(q, status, err) == Rates(q, status, err) && Params(q, status, err, 1) == T1(q, status, err)
    ensures TimeExtensionBlock(q) == [0x80, 0, 0, 0, 0, 0, q, 0x80, 0x0A, 0]
  {
  }

  // ---- Messages that are refused ----

  /** The length announced is the length sent, and at most 2050. */
  predicate LengthOk(f: seq<u8>)
    requires |f| >= 10
  {
    |f| <= 2060 && f[1] as int + f[2] as int * 0x100 + f[3] as int * 0x1_0000 + f[4] as int * 0x100_0000 == |f| - 10
  }

  /** Why a message is refused: the index of the field in question, as the error code says it, and 5 for the slot. */
  function Complaint(f: seq<u8>): Option<u8>
    requires |f| >= 10
  {
    if !LengthOk(f) then Some(1)
    else if f[5] != 0 then Some(5)
    else if |f| > 10 && f[0] in {0x62, 0x63, 0x65, 0x6A, 0x6C, 0x6D, 0x6E, 0x71, 0x72} then Some(1)
    else match f[0]
      case 0x62 => if f[8] != 0 || f[9] != 0 then Some(8) else None
      case 0x6F =>
        if f[9] != 0 || f[8] !in {0x00, 0x01, 0x02, 0x03, 0x10} then Some(8)
        else if f[8] == 0x10 && |f| > 10 then Some(1) else None
      case 0x73 => if f[7] != 0 then Some(7) else if f[8] != 0 then Some(8) else if f[9] != 0 then Some(9) else None
      case _ =>
        if f[0] in {0x63, 0x65, 0x6C, 0x6D, 0x72} && (f[7] != 0 || f[8] != 0 || f[9] != 0) then Some(7) else None
  }

  lemma LengthIs(f: seq<u8>)
    requires |f| >= 10
    ensures Validate(f).Some? <==> LengthOk(f)
    ensures LevelParam(f) == f[9] as int * 0x100 + f[8] as int
  {
  }

  lemma ComplaintIsEarly(s: Ccid, f: seq<u8>)
    requires |f| >= 10
    ensures EarlyError(s, f)
            == match Complaint(f)
               case None => None
               case Some(5) => Some(Failure(f, 2, 5)[5 := f[5]])
               case Some(err) => Some(Failure(f, Level(s), err))
  {
    hide CommandFailed, Failure, Level, Validate, LevelParam, LengthOk;
    LengthIs(f);
    FailureBytes(f, 2, 5);
    FailureBytes(f, Level(s), 1);
    FailureBytes(f, Level(s), 7);
    FailureBytes(f, Level(s), 8);
    FailureBytes(f, Level(s), 9);
  }

  /** A message is refused exactly if there is a complaint; the reply names it, and nothing else happens. */
  lemma RefusedExactlyOnComplaint(s: Ccid, f: seq<u8>, env: Env)
    requires |f| >= 10 && env.Ok()
    ensures Accepted(f) <==> Complaint(f) == None
    ensures match Complaint(f)
            case None => true
            case Some(5) => HandleBulk(s, f, env) == (s, [Sent(Failure(f, 2, 5)[5 := f[5]])])
            case Some(err) => HandleBulk(s, f, env) == (s, [Sent(Failure(f, Level(s), err))])
  {
    hide EarlyError, Complaint, Failure, Level, IsContinuation, Command;
    ComplaintIsEarly(s, f);
    ComplaintIsEarly(Initial, f);
  }

  // ---- Messages that are carried out ----

  /** The host has asked for an abort that this message does not complete. */
  lemma AbortedMessageIsRefused(s: Ccid, f: seq<u8>, env: Env)
    requires Inv(s) && |f| >= 10 && env.Ok() && Accepted(f) && !IsContinuation(f)
    requires env.abortBefore.Some? && env.abortBefore.value.0 == 0 && (f[0] != 0x72 || f[6] != env.abortBefore.value.1)
    ensures HandleBulk(s, f, env).1 == [Sent(Failure(f, Level(s), 0xFF))]
    ensures !HandleBulk(s, f, env).0.chainActive
  {
    hide EarlyError, Accepted, Failure, Level, IsContinuation, Command, CommandFailed;
    AcceptedIsSlotZero(f);
    AcceptanceIgnoresState(s, f);
    SameLevel(s, f);
    FailureBytes(f, Level(s), 0xFF);
  }

  lemma AcceptedIsSlotZero(f: seq<u8>)
    requires |f| >= 10 && Accepted(f)
    ensures f[5] == 0
  {
  }

  lemma SameLevel(s: Ccid, f: seq<u8>)
    requires |f| >= 10
    ensures Level(Prepared(s, f)) == Level(s) && Level(ClearCmd(s)) == Level(s) && Level(ClearChain(s)) == Level(s)
  {
    hide Level, ClearCmd, ClearChain;
    ClearedLevel(s);
    ClearedLevel(ClearChain(s));
  }

  lemma ClearedLevel(s: Ccid)
    ensures Level(ClearCmd(s)) == Level(s) && Level(ClearChain(s)) == Level(s)
  {
  }

  lemma ExecutedIsCommand(s: Ccid, f: seq<u8>, env: Env)
    requires |f| >= 10 && env.Ok() && Executed(f, env)
    ensures HandleBulk(s, f, env) == Command(Prepared(s, f), f, env)
  {
    hide EarlyError, Accepted, IsContinuation, Command, CommandFailed;
    AcceptanceIgnoresState(s, f);
  }

  /** The messages that move neither session nor tag. */
  lemma PlainReplies(s: Ccid, f: seq<u8>, env: Env)
    requires |f| >= 10 && env.Ok() && Executed(f, env) && f[0] !in {0x61, 0x62, 0x63, 0x6C, 0x6D, 0x6F}
    ensures HandleBulk(s, f, env).1
            == match f[0]
               case 0x65 => [Sent(Bare(0x81, f[6], Level(s), 0))]
               case 0x69 => [Sent(Bare(0x80, f[6], 0x40 + Level(s), 0))]
               case 0x6B => [Sent(Bare(0x83, f[6], 0x40 + Level(s), 0))]
               case 0x72 => [Sent(Bare(0x81, f[6], Level(s), 0))]
               case 0x73 => [Sent(if |f| == 18 then Rates(f[6], Level(s), 0) else Rates(f[6], 0x40 + Level(s), 1))]
               case _ => [Sent(Bare(0x81, f[6], 0x40 + Level(s), 0))]
  {
    hide HandleBulk, Executed, DataRate, Rates, CommandFailed, Failure, Level, Prepared, PowerOn, Transfer, Parameters;
    ExecutedIsCommand(s, f, env);
    SameLevel(s, f);
    ReplyBytes(f[6], Level(s), 0);
    ReplyBytes(f[6], 0x40 + Level(s), 1);
    FailureBytes(f, Level(s), 0);
    EscapeFailure(f, Level(s));
  }

  lemma EscapeFailure(f: seq<u8>, slot: icc)
    requires |f| >= 10
    ensures f[0] == 0x6B ==> Failure(f, slot, 0) == Bare(0x83, f[6], 0x40 + slot, 0)
  {
  }

  /** Why parameters are refused: the length, or the index of the field. */
  function ParametersError(f: seq<u8>): u8
    requires |f| >= 10
  {
    if f[0] != 0x61 then 0
    else if |f| != 17 then 1
    else if f[7] != 1 then 7
    else if f[8] != 0 then 8
    else if f[9] != 0 then 9
    else 0
  }

  /** The parameters are those of T=1, whatever is asked or set. */
  lemma ParameterReplies(s: Ccid, f: seq<u8>, env: Env)
    requires Inv(s) && |f| >= 10 && env.Ok() && Executed(f, env) && f[0] in {0x61, 0x6C, 0x6D}
    ensures var err := ParametersError(f);
            HandleBulk(s, f, env).1
            == [Sent(if !s.present then T1(f[6], 0x42, 0xFE)
                     else if err != 0 then T1(f[6], 0x40 + Level(s), err) else T1(f[6], Level(s), 0))]
  {
    hide HandleBulk, Executed, Params, T1, Level, LoadLe32, LevelParam, Status, CommandFailed, DataRate, PowerOn, Transfer;
    ExecutedIsCommand(s, f, env);
    ExecutedLength(f, env);
    SameLevel(s, f);
    var err := ParametersError(f);
    ReplyBytes(f[6], 0x42, 0xFE);
    ReplyBytes(f[6], 0x40 + Level(s), err);
    ReplyBytes(f[6], Level(s), 0);
  }

  lemma ExecutedLength(f: seq<u8>, env: Env)
    requires |f| >= 10 && Executed(f, env)
    ensures LoadLe32(f, 1) == |f| - 10
  {
  }

  /** The slot with its tag and nothing under way. */
  function Quiet(s: Ccid): Ccid { Initial.(present := s.present, kind := s.kind, deferred := s.deferred) }

  /** Power-off ends the session and all that belongs to it. */
  lemma PowerOffReply(s: Ccid, f: seq<u8>, env: Env)
    requires Inv(s) && |f| >= 10 && env.Ok() && Executed(f, env) && f[0] == 0x63
    ensures HandleBulk(s, f, env)
            == (Quiet(s), (if s.isoOpen then [IsoReleased] else []) + [Sent(Bare(0x81, f[6], if s.present then 1 else 2, 0))])
  {
    hide HandleBulk, Executed, Command;
    ExecutedIsCommand(s, f, env);
    PowerOffIs(Prepared(s, f), f, env);
  }

  /** Power-on is answered by the ATR, or by the state in which the slot is left. */
  lemma PowerOnReply(s: Ccid, f: seq<u8>, env: Env)
    requires Inv(s) && |f| >= 10 && env.Ok() && Executed(f, env) && f[0] == 0x62
    ensures var outs := HandleBulk(s, f, env).1;
            && outs != [] && outs[|outs| - 1].Sent?
            && outs[|outs| - 1].bytes
               == if f[7] > 3 then Bare(0x80, f[6], 0x41, 7)
                  else if !s.present then Bare(0x80, f[6], 0x42, 0xFE)
                  else if (if s.kind == Type4 then env.opens else env.prepared) && env.atr.Some? then
                    [0x80] + Le32(|env.atr.value|) + [0, f[6], 0, 0, 0] + env.atr.value
                  else Bare(0x80, f[6], if s.kind != Type4 && env.prepared then 0x42 else 0x41, 0xFE)
    ensures var s' := HandleBulk(s, f, env).0;
            if f[7] > 3 then s' == s.(chain := [], chainOff := 0, chainActive := false, cmd := [], cmdActive := false)
            else if s.present && (if s.kind == Type4 then env.opens else env.prepared) && env.atr.Some? then
              s' == Quiet(s).(sess := true, owner := true, isoOpen := s.kind == Type4, deferred := false)
            else s' == Quiet(s)
  {
    hide HandleBulk, Executed, Command, Le32;
    ExecutedIsCommand(s, f, env);
    PowerOnIs(Prepared(s, f), f, env);
  }

  // ---- Transfers ----

  /** A transfer that completes no command: it is kept and more is asked for, or it fails. */
  lemma TransferReplies(s: Ccid, f: seq<u8>, env: Env)
    requires Inv(s) && |f| >= 10 && env.Ok() && Executed(f, env) && f[0] == 0x6F && Completed(s, f) == None
    ensures var (s', outs) := HandleBulk(s, f, env);
            if !s.sess then outs == [Sent(Bare(0x80, f[6], 0x42, 0xFE))]
            else if f[8] == 0 then outs == [Sent(Bare(0x80, f[6], 0x40, 8))] && !s'.cmdActive
            else if |f| == 10 || (f[8] != 1 && !s.cmdActive) then
              outs == [Sent(Bare(0x80, f[6], 0x40, 1))] && s'.cmd == s.cmd && s'.cmdActive == s.cmdActive
            else if |s.cmd| + |f| - 10 > 2050 && f[8] != 1 then outs == [Sent(Bare(0x80, f[6], 0x40, 1))] && !s'.cmdActive
            else
              && outs == [Sent([0x80, 0, 0, 0, 0, 0, f[6], 0, 0, 0x10])]
              && s'.cmdActive && s'.cmd == (if f[8] == 1 then [] else s.cmd) + f[10..]
  {
    hide HandleBulk, Executed, CommandFailed, Failure, Block, LevelParam, Exchange, Level, Command;
    ExecutedIsCommand(s, f, env);
    XfrIsTransfer(Prepared(s, f), f, env);
    ExecutedLevel(f, env);
    var slot := Level(s);
    SameLevel(s, f);
    LevelMeans(s);
    FailureBytes(f, NO_ICC, ERR_ICC_MUTE);
    TransferFailure(f, NO_ICC, ERR_ICC_MUTE);
    FailureBytes(f, slot, ERR_BAD_LEVEL);
    TransferFailure(f, slot, ERR_BAD_LEVEL);
    FailureBytes(f, slot, ERR_BAD_DWLENGTH);
    TransferFailure(f, slot, ERR_BAD_DWLENGTH);
    EmptyBlock(f[6]);
    LevelsOfTransfer(s, f);
  }

  lemma LevelsOfTransfer(s: Ccid, f: seq<u8>)
    requires |f| >= 10
    ensures Level(ClearCmd(Prepared(s, f))) == Level(s) && Level(ClearCmd(ClearCmd(Prepared(s, f)))) == Level(s)
  {
    hide Level, ClearCmd, Prepared;
    SameLevel(s, f);
    ClearedLevel(Prepared(s, f));
    ClearedLevel(ClearCmd(Prepared(s, f)));
  }

  lemma ExecutedLevel(f: seq<u8>, env: Env)
    requires |f| >= 10 && Executed(f, env) && f[0] == 0x6F
    ensures LevelParam(f) == f[8] && f[8] in {0, 1, 2, 3} && |f| <= 2060
  {
  }

  lemma TransferFailure(f: seq<u8>, slot: icc, err: u8)
    requires |f| >= 10 && f[0] == 0x6F
    ensures Failure(f, slot, err) == Bare(0x80, f[6], 0x40 + slot, err)
  {
  }

  lemma EmptyBlock(q: u8)
    ensures Block(q, [], RESPONSE_CONTINUE) == [0x80, 0, 0, 0, 0, 0, q, 0, 0, 0x10]
  {
  }

  /** A command that the host aborts while the card works on it: no response, and nothing left to continue. */
  lemma AbortedExchange(s: Ccid, f: seq<u8>, env: Env)
    requires Inv(s) && |f| >= 10 && env.Ok() && Executed(f, env) && Completed(s, f).Some?
    requires env.abortAfter == Some((0, f[6]))
    ensures var (s', outs) := HandleBulk(s, f, env);
            outs != [] && outs[|outs| - 1] == Sent(Bare(0x80, f[6], 0x40, 0xFF)) && !s'.chainActive && !s'.cmdActive
  {
    hide HandleBulk, Executed, CommandFailed, Failure, Exchanged, ExchangeOuts, Completed, Ready, Inv, SendResponse, Level;
    CompletedIsExchanged(s, f, env);
    CompletedIsTransfer(s, f, env);
    var s1 := Exchanged(Ready(s, f), f, Completed(s, f).value, env);
    ExchangedIsGood(Ready(s, f), f, Completed(s, f).value, env);
    ExchangedCmd(Ready(s, f), f, Completed(s, f).value, env);
    OpenLevel(s1);
    FailureBytes(f, ACTIVE, 0xFF);
    TransferFailure(f, ACTIVE, 0xFF);
  }

  lemma OpenLevel(s: Ccid)
    requires Inv(s) && s.sess
    ensures Level(s) == ACTIVE && !ClearChain(s).chainActive && ClearChain(s).cmdActive == s.cmdActive
  {
  }

  lemma CompletedIsTransfer(s: Ccid, f: seq<u8>, env: Env)
    requires |f| >= 10 && Completed(s, f).Some? && Executed(f, env)
    ensures f[0] == 0x6F && f[5] == 0 && (Ready(s, f).cmdActive ==> LevelParam(f) == LEVEL_END)
  {
  }
}
