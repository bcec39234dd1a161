/**
  * What the host gets back: the card's own bytes for a relayed command, the handler's for a storage command and fixed status
  * words for the rest; and in every run an answer goes out, as it is, before anything else is done.
  */
module CcidAnswers {
  import opened Bytes
  import opened CcidFrame
  import opened Apdu
  import opened CcidMachine
  import opened CcidSafety
  import opened CcidChaining

  // ---- The answer to one command ----

  /** What the card's bytes become for the host: as they are, or between D5 41 00 and 90 00. */
  function ForTheHost(wrapped: bool, card: seq<u8>): seq<u8> {
    if wrapped then if |card| < 2 then [0xD5, 0x41, 0x01, 0x90, 0x00] else [0xD5, 0x41, 0x00] + card + [0x90, 0x00]
    else if |card| < 2 then [0x69, 0xFF] else card
  }

  /** The InDataExchange pseudo-APDU that carries `a` to target 1. */
  predicate Wraps(p: seq<u8>, a: seq<u8>) {
    && |a| > 0 && |p| == 8 + |a| && p[..4] == [0xFF, 0x00, 0x00, 0x00] && p[4] == |a| + 3
    && p[5..8] == [0xD4, 0x40, 0x01] && p[8..] == a
  }

  /** A pseudo-APDU for the PN53x command `code` with some parameters. */
  predicate Pn53x(p: seq<u8>, code: u8) {
    && |p| >= 7 && p[..4] == [0xFF, 0x00, 0x00, 0x00] && p[4] == |p| - 5 && p[5] == 0xD4 && p[6] == code
  }

  function FirstBytes(s: seq<u8>, n: nat): seq<u8> { if |s| <= n then s else s[..n] }

  function AnswerTo(s: Ccid, a: seq<u8>, env: Env): Answer { Dispatch(s, a, ResponseCap(s), env) }

  lemma DirectCommandIsAnsweredByTheCard(s: Ccid, a: seq<u8>, env: Env)
    requires s.kind == Type4 && |a| >= 2 && a[0] != 0xFF && !(s.fido && SelectsNdefApp(a))
    ensures var c := FirstBytes(env.card, 2050);
            && AnswerTo(s, a, env).relayed == Some(Relayed(a, false, c)) && AnswerTo(s, a, env).active
            && ResponseTo(s, a, env) == if |c| < 2 then [0x69, 0xFF] else c
  {
    hide SelectsNdefApp, SelectsFido, StatusOk;
  }

  lemma WrappedCommandIsAnsweredByTheCard(s: Ccid, p: seq<u8>, a: seq<u8>, env: Env)
    requires s.kind == Type4 && Wraps(p, a) && !(s.fido && SelectsNdefApp(a)) && !DrivesFido(a)
    ensures var c := FirstBytes(env.card, 2045);
            && AnswerTo(s, p, env).relayed == Some(Relayed(a, true, c)) && AnswerTo(s, p, env).active
            && ResponseTo(s, p, env)
               == if |c| < 2 then [0xD5, 0x41, 0x01, 0x90, 0x00] else [0xD5, 0x41, 0x00] + c + [0x90, 0x00]
  {
    hide SelectsNdefApp, DrivesFido;
    WrapsExchange(p, a);
  }

  lemma WrapsExchange(p: seq<u8>, a: seq<u8>)
    requires Wraps(p, a)
    ensures Pn53x(p, 0x40) && p[7] == 0x01 && p[5..][3..] == a
    ensures p[0] == 0xFF && p[1] == 0 && p[2] == 0 && p[3] == 0 && p[5..][0] == 0xD4 && p[5..][1] == 0x40 && p[5..][2] == 1
  {
    assert p[5] == p[5..8][0] && p[6] == p[5..8][1] && p[7] == p[5..8][2];
    assert p[0] == p[..4][0] && p[1] == p[..4][1] && p[2] == p[..4][2] && p[3] == p[..4][3];
  }

  /** A command that is kept from the card gets a fixed answer and does not reach the card. */
  lemma ShieldedCommandIsRefused(s: Ccid, p: seq<u8>, a: seq<u8>, env: Env)
    requires s.kind == Type4
    ensures s.fido && SelectsNdefApp(a) ==> ResponseTo(s, a, env) == [0x69, 0xFF] && AnswerTo(s, a, env).relayed == None
    ensures Wraps(p, a) && ((s.fido && SelectsNdefApp(a)) || DrivesFido(a)) ==>
              ResponseTo(s, p, env) == [0xD5, 0x41, 0x01, 0x90, 0x00] && AnswerTo(s, p, env).relayed == None
  {
    hide SelectsFido, DrivesFido;
    if Wraps(p, a) {
      WrapsExchange(p, a);
    }
  }

  /** The storage commands and the raw exchanges with storage tags are answered by their handlers, cut to the room there is. */
  lemma HandlersAnswer(s: Ccid, a: seq<u8>, env: Env)
    requires |a| >= 2 && a[0] == 0xFF
    requires || a[1] in {0xCA, 0xB0, 0xD6, 0xC2}
             || (Pn53x(a, 0x4A) && |a| >= 9)
             || (Pn53x(a, 0x40) && |a| >= 9 && a[7] == 0x01 && s.kind == Type2)
             || (Pn53x(a, 0x42) && |a| >= 8 && (s.kind == Type2 || s.kind == Type5))
    ensures ResponseTo(s, a, env) == FirstBytes(env.handler, if s.kind == Type4 then 2050 else 510)
    ensures AnswerTo(s, a, env).relayed == None && AnswerTo(s, a, env).fido == s.fido
  {
    hide SelectsNdefApp, DrivesFido;
    if |a| >= 7 {
      Pn53xBytes(a);
    }
  }

  lemma Pn53xBytes(p: seq<u8>)
    requires |p| >= 7
    ensures p[5..][0] == p[5] && p[5..][1] == p[6] && (|p| >= 8 ==> p[5..][2] == p[7])
    ensures p[..4] == [0xFF, 0x00, 0x00, 0x00] <==> p[0] == 0xFF && p[1] == 0 && p[2] == 0 && p[3] == 0
  {
    assert p[0] == p[..4][0] && p[1] == p[..4][1] && p[2] == p[..4][2] && p[3] == p[..4][3];
  }

  /** The reader's own answers: nothing reaches a card or a handler. */
  lemma OwnAnswers(s: Ccid, a: seq<u8>, env: Env)
    ensures |a| < 2 ==> ResponseTo(s, a, env) == [0x6F, 0x00]
    ensures |a| >= 2 && a[0] == 0xFF && a[1] !in {0x00, 0xCA, 0xB0, 0xD6, 0xC2} ==> ResponseTo(s, a, env) == [0x6D, 0x00]
    ensures |a| >= 2 && a[0] != 0xFF && s.kind in {Type2, Type5} ==>
              ResponseTo(s, a, env) == [if a[0] != 0x00 then 0x6E else 0x6D, 0x00]
    ensures |a| >= 2 && a[0] != 0xFF && s.kind == NoTag ==> ResponseTo(s, a, env) == [0x6D, 0x00]
  {
    hide Acr122Direct, DirectRelay;
  }

  /** The answers to the pseudo-APDUs that need no tag: the firmware strings of the ACR122 and of the PN532, and the errors. */
  lemma PseudoApduAnswers(s: Ccid, a: seq<u8>, env: Env)
    requires |a| >= 2 && a[0] == 0xFF && a[1] == 0x00
    ensures |a| < 5 ==> ResponseTo(s, a, env) == []
    ensures a == [0xFF, 0x00, 0x48, 0x00, 0x00] ==>
              ResponseTo(s, a, env) == [0x41, 0x43, 0x52, 0x31, 0x32, 0x32, 0x55, 0x32, 0x30, 0x33]
    ensures |a| >= 5 && (a[2] != 0 || a[3] != 0) && a != [0xFF, 0x00, 0x48, 0x00, 0x00] ==> ResponseTo(s, a, env) == [0x6D, 0x00]
    ensures |a| >= 5 && a[2] == 0 && a[3] == 0 && (|a| - 5 != a[4] || |a| < 7) ==> ResponseTo(s, a, env) == [0x67, 0x00]
    ensures |a| >= 7 && a[2] == 0 && a[3] == 0 && |a| - 5 == a[4] && a[5] != 0xD4 ==> ResponseTo(s, a, env) == [0x6D, 0x00]
    ensures Pn53x(a, 0x02) ==> ResponseTo(s, a, env) == [0xD5, 0x03, 0x32, 0x01, 0x06, 0x07, 0x90, 0x00]
    ensures Pn53x(a, 0x44) ==> ResponseTo(s, a, env) == [0xD5, 0x45, 0x00, 0x90, 0x00]
    ensures Pn53x(a, 0x52) ==> ResponseTo(s, a, env) == [0xD5, 0x53, 0x00, 0x90, 0x00]
    ensures Pn53x(a, 0x4A) && |a| < 9 ==> ResponseTo(s, a, env) == []
    ensures Pn53x(a, 0x40) && |a| < 9 ==> ResponseTo(s, a, env) == []
    ensures Pn53x(a, 0x40) && |a| >= 9 && (a[7] != 1 || s.kind in {NoTag, Type5}) ==>
              ResponseTo(s, a, env) == [0xD5, 0x41, 0x01, 0x90, 0x00]
    ensures Pn53x(a, 0x42) && |a| < 8 ==> ResponseTo(s, a, env) == []
    ensures Pn53x(a, 0x42) && |a| >= 8 && s.kind in {NoTag, Type4} ==> ResponseTo(s, a, env) == [0xD5, 0x43, 0x01, 0x90, 0x00]
    ensures |a| >= 7 && Pn53x(a, a[6]) && a[6] !in {0x02, 0x40, 0x42, 0x44, 0x4A, 0x52} ==>
              ResponseTo(s, a, env) == [0xD5, if a[6] == 0xFF then 0 else a[6] + 1, 0x27, 0x90, 0x00]
  {
    hide SelectsNdefApp, DrivesFido;
    if |a| >= 7 {
      Pn53xBytes(a);
    }
  }

  // ---- From a host message to the card and back ----

  /** The command `p` is one for the card: `a` itself, or `a` in an InDataExchange, and it is not to be shielded. */
  predicate IsForTheCard(s: Ccid, p: seq<u8>, a: seq<u8>, wrapped: bool) {
    && s.kind == Type4 && !(s.fido && SelectsNdefApp(a))
    && if wrapped then Wraps(p, a) && !DrivesFido(a) else p == a && |a| >= 2 && a[0] != 0xFF
  }

  /** The card's bytes that there is room for. */
  function CardSays(env: Env, wrapped: bool): seq<u8> { FirstBytes(env.card, if wrapped then 2045 else 2050) }

  lemma CardAnswers(s: Ccid, p: seq<u8>, a: seq<u8>, wrapped: bool, env: Env)
    requires IsForTheCard(s, p, a, wrapped)
    ensures AnswerTo(s, p, env).relayed == Some(Relayed(a, wrapped, CardSays(env, wrapped)))
    ensures ResponseTo(s, p, env) == ForTheHost(wrapped, CardSays(env, wrapped))
  {
    hide ResponseTo, AnswerTo, DrivesFido, SelectsNdefApp, FirstBytes;
    if wrapped {
      WrappedCommandIsAnsweredByTheCard(s, p, a, env);
    } else {
      DirectCommandIsAnsweredByTheCard(s, a, env);
    }
  }

  /** The commands for which the host is asked for time before anything is done. */
  predicate AsksForTime(kind: Kind, a: seq<u8>) {
    match kind
    case Type4 => SelectsFido(a) || IsGetResponse(a) || CtapCommand(a) in {Some(0x01), Some(0x02), Some(0x06)}
    case NoTag => false
    case _ => |a| >= 2 && a[0] == 0xFF && a[1] in {0xB0, 0xD6}
  }

  lemma AsksForTimeFirst(kind: Kind, a: seq<u8>)
    ensures AsksTimeFirst(kind, a) == AsksForTime(kind, a)
  {
    hide SelectsFido, IsGetResponse, CtapCommand;
  }

  /**
    * All that a completed command does: time is asked for, once in advance where it will be needed and then as often as the
    * layer below does; the command goes to the card, if it is to; it is done; and one reply goes out.
    */
  lemma CompletedDoes(s: Ccid, f: seq<u8>, env: Env)
    requires Inv(s) && |f| >= HEADER_LEN && env.Ok() && Executed(f, env) && Completed(s, f).Some?
    ensures var a, outs := Completed(s, f).value, HandleBulk(s, f, env).1;
            var asks, d := AsksForTime(s.kind, a), AnswerTo(s, a, env);
            && outs != [] && outs[|outs| - 1].Sent?
            && outs[..|outs| - 1]
               == (if asks then [TimeExtension(f[6])] else []) + (if d.relayed.Some? then [d.relayed.value] else [])
                  + (seq(if asks || s.kind == Type4 then env.waits else 0, _ => TimeExtension(f[6])) + [Dispatched(a, d.rsp)])
  {
    hide HandleBulk, Executed, Completed, Inv, Dispatch, AsksForTime, AsksTimeFirst, ExchangeOuts, Exchange, Ready;
    var a, s0 := Completed(s, f).value, Ready(s, f);
    CompletedIsExchanged(s, f, env);
    ReadyIsTheSameSlot(s, f);
    SameAnswer(s, s0, a, ResponseCap(s), env);
    AsksForTimeFirst(s.kind, a);
    ExchangeOutsBytes(s0, f, a, env);
    ExchangeEndsInAReply(s0, f, a, env);
  }

  lemma ReadyIsTheSameSlot(s: Ccid, f: seq<u8>)
    requires |f| >= HEADER_LEN
    ensures Ready(s, f).kind == s.kind && Ready(s, f).fido == s.fido
  {
    hide LevelParam, ClearChain;
    ClearedIsTheSameSlot(s);
  }

  lemma ClearedIsTheSameSlot(s: Ccid)
    ensures ClearChain(s).kind == s.kind && ClearChain(s).fido == s.fido
  {
  }

  lemma ExchangeEndsInAReply(s: Ccid, f: seq<u8>, a: seq<u8>, env: Env)
    requires |f| >= HEADER_LEN
    ensures var outs := Exchange(s, f, a, env).1;
            outs != [] && outs[|outs| - 1].Sent? && outs[..|outs| - 1] == ExchangeOuts(s, f, a, env)
  {
    hide SendResponse, CommandFailed, Exchanged, ExchangeOuts, Dispatch;
    ResponseFits(s, a, env);
    SendResponseDelivers(Exchanged(s, f, a, env), f[SEQ], ResponseTo(s, a, env), env.sendOk);
    var outs := Exchange(s, f, a, env).1;
    assert outs == ExchangeOuts(s, f, a, env) + [outs[|outs| - 1]];
  }

  lemma ExchangeOutsBytes(s: Ccid, f: seq<u8>, a: seq<u8>, env: Env)
    requires |f| >= HEADER_LEN
    ensures var asks, d := AsksTimeFirst(s.kind, a), AnswerTo(s, a, env);
            ExchangeOuts(s, f, a, env)
            == (if asks then [TimeExtension(f[6])] else []) + (if d.relayed.Some? then [d.relayed.value] else [])
               + (seq(if asks || s.kind == Type4 then env.waits else 0, _ => TimeExtension(f[6])) + [Dispatched(a, d.rsp)])
  {
    hide AsksTimeFirst, Dispatch;
  }

  /** A completed command that is for the card is relayed, and the card's answer is the response done. */
  lemma CompletedIsRelayed(s: Ccid, f: seq<u8>, env: Env, a: seq<u8>, wrapped: bool)
    requires Inv(s) && |f| >= HEADER_LEN && env.Ok() && Executed(f, env) && Completed(s, f).Some?
    requires IsForTheCard(s, Completed(s, f).value, a, wrapped)
    ensures Relayed(a, wrapped, CardSays(env, wrapped)) in HandleBulk(s, f, env).1
    ensures ResponseTo(s, Completed(s, f).value, env) == ForTheHost(wrapped, CardSays(env, wrapped))
  {
    hide HandleBulk, Executed, Completed, Inv, AnswerTo, ResponseTo, ForTheHost, CardSays, IsForTheCard, AsksForTime;
    var p, outs := Completed(s, f).value, HandleBulk(s, f, env).1;
    CardAnswers(s, p, a, wrapped, env);
    CompletedDoes(s, f, env);
    var k := if AsksForTime(s.kind, p) then 1 else 0;
    assert outs[..|outs| - 1][k] == Relayed(a, wrapped, CardSays(env, wrapped));
  }

  /** A successful data block that is not chained. */
  predicate Carries(o: Out, q: u8, payload: seq<u8>) {
    && o.Sent? && |o.bytes| >= 10 && o.bytes[0] == 0x80 && o.bytes[6] == q && o.bytes[7] == 0 && o.bytes[9] == 0
    && o.bytes[10..] == payload
  }

  lemma BlockBytes(q: u8, r: seq<u8>)
    requires |r| <= RSP_DATA_CAP
    ensures Carries(Sent(Block(q, r, 0)), q, r)
  {
    hide Le32;
  }

  /** A card's answer of at most 510 bytes is the payload of the host's reply. */
  lemma HostGetsTheCardsAnswer(s: Ccid, f: seq<u8>, env: Env, a: seq<u8>, wrapped: bool)
    requires Inv(s) && |f| >= HEADER_LEN && env.Ok() && Executed(f, env) && Completed(s, f).Some?
    requires env.sendOk && env.abortAfter != Some((f[SLOT], f[SEQ]))
    requires IsForTheCard(s, Completed(s, f).value, a, wrapped)
    requires |ForTheHost(wrapped, CardSays(env, wrapped))| <= 510
    ensures var outs := HandleBulk(s, f, env).1;
            && Relayed(a, wrapped, CardSays(env, wrapped)) in outs
            && Carries(outs[|outs| - 1], f[6], ForTheHost(wrapped, CardSays(env, wrapped)))
  {
    hide HandleBulk, Executed, Completed, Inv, ResponseTo, ForTheHost, CardSays, IsForTheCard, Block, Carries;
    CompletedIsRelayed(s, f, env, a, wrapped);
    ShortResponseIsTheReply(s, f, env);
    BlockBytes(f[SEQ], ResponseTo(s, Completed(s, f).value, env));
  }

  /** A longer one is what the reply and the continuations carry together. */
  lemma HostGetsTheCardsLongAnswer(s: Ccid, f: seq<u8>, env: Env, a: seq<u8>, wrapped: bool, msgs: seq<Message>)
    requires Inv(s) && |f| >= HEADER_LEN && env.Ok() && Executed(f, env) && Completed(s, f).Some?
    requires env.sendOk && env.abortAfter != Some((f[SLOT], f[SEQ]))
    requires IsForTheCard(s, Completed(s, f).value, a, wrapped)
    requires AskForTheRest(msgs)
    requires var r := ForTheHost(wrapped, CardSays(env, wrapped)); 510 < |r| && Asked(msgs) == BlockCount(|r|) - 1
    ensures var r, (s', outs) := ForTheHost(wrapped, CardSays(env, wrapped)), HandleBulk(s, f, env);
            && Relayed(a, wrapped, CardSays(env, wrapped)) in outs
            && outs[|outs| - 1] == Sent(Block(f[SEQ], r[..510], 1))
            && r[..510] + Joined(Pieces(s', msgs)) == r && !AfterAll(s', msgs).chainActive
  {
    hide HandleBulk, Executed, Completed, Inv, ResponseTo, ForTheHost, CardSays, IsForTheCard, Block, Cut, AskForTheRest, Joined,
      Pieces, AfterAll, Asked;
    CompletedIsRelayed(s, f, env, a, wrapped);
    LongResponseIsDeliveredOnce(s, f, env, msgs);
    var r := ForTheHost(wrapped, CardSays(env, wrapped));
    CutUnfolds(r, 0);
    JoinedUnfolds(Cut(r, 0)[0], Pieces(HandleBulk(s, f, env).0, msgs));
  }

  // ---- Over whole runs ----

  /** What an observer of the outputs knows to be owed to the host. */
  datatype Owed =
    | Nothing
    | CardsAnswer(apdu: seq<u8>, wrapped: bool, card: seq<u8>)
    | Response(response: seq<u8>)

  function OwedAfter(before: Owed, outs: seq<Out>): Owed {
    if outs == [] then before
    else
      match outs[|outs| - 1]
      case Relayed(apdu, wrapped, card) => CardsAnswer(apdu, wrapped, card)
      case Dispatched(_, response) => Response(response)
      case Sent(_) => Nothing
      case _ => OwedAfter(before, outs[..|outs| - 1])
  }

  /** The block that carries a response, or its first 510 bytes, or the notice that the host has aborted the command. */
  predicate Delivers(b: seq<u8>, response: seq<u8>) {
    && |b| >= 10 && b[0] == 0x80
    && (|| (b[7] == 0 && b[9] == 0 && |response| <= 510 && b[10..] == response)
        || (b[7] == 0 && b[9] == 1 && |response| > 510 && b[10..] == response[..510])
        || (b[7] == 0x40 && b[8] == 0xFF && |b| == 10))
  }

  /**
    * When a card has answered, the host is asked to wait or the command is done with that card's bytes; what is done goes out
    * at once; and a command that no card has answered gets no card's answer, unless it is a pseudo-APDU.
    */
  predicate Honest(owed: Owed, o: Out) {
    match owed
    case Nothing =>
      o.Dispatched? && (|o.payload| < 2 || o.payload[0] != 0xFF) ==>
        o.response in {[0x69, 0xFF], [0x6D, 0x00], [0x6E, 0x00], [0x6F, 0x00]}
    case CardsAnswer(apdu, wrapped, card) =>
      || o.TimeExtension?
      || (o.Dispatched? && (if wrapped then Wraps(o.payload, apdu) else o.payload == apdu)
          && o.response == ForTheHost(wrapped, card))
    case Response(response) => o.Sent? && Delivers(o.bytes, response)
  }

  ghost predicate AllHonest(before: Owed, outs: seq<Out>) {
    forall k: nat :: k < |outs| ==> Honest(OwedAfter(before, outs[..k]), outs[k])
  }

  /** Nothing is owed before or after, and all in between is honest. */
  ghost predicate Settled(outs: seq<Out>) { AllHonest(Nothing, outs) && OwedAfter(Nothing, outs) == Nothing }

  lemma {:induction false} OwedConcat(w: Owed, a: seq<Out>, b: seq<Out>)
    ensures OwedAfter(w, a + b) == OwedAfter(OwedAfter(w, a), b)
  {
    if b == [] {
      assert a + b == a;
    } else {
      var n := |b| - 1;
      assert (a + b)[..|a + b| - 1] == a + b[..n];
      OwedConcat(w, a, b[..n]);
    }
  }

  lemma HonestConcat(w: Owed, a: seq<Out>, b: seq<Out>)
    requires AllHonest(w, a) && AllHonest(OwedAfter(w, a), b)
    ensures AllHonest(w, a + b) && OwedAfter(w, a + b) == OwedAfter(OwedAfter(w, a), b)
  {
    hide OwedAfter, Honest;
    OwedConcat(w, a, b);
    forall k: nat | k < |a + b| ensures Honest(OwedAfter(w, (a + b)[..k]), (a + b)[k]) {
      if k < |a| {
        assert (a + b)[..k] == a[..k];
      } else {
        assert (a + b)[..k] == a + b[..k - |a|];
        OwedConcat(w, a, b[..k - |a|]);
      }
    }
  }

  lemma NothingDone(w: Owed)
    ensures OwedAfter(w, []) == w && AllHonest(w, [])
  {
  }

  lemma OneHonest(w: Owed, o: Out)
    requires Honest(w, o)
    ensures AllHonest(w, [o])
    ensures OwedAfter(w, [o]) == match o case Relayed(a, wrapped, c) => CardsAnswer(a, wrapped, c)
                                         case Dispatched(_, r) => Response(r)
                                         case Sent(_) => Nothing
                                         case _ => w
  {
    hide Honest;
    assert [o][..0] == [];
    NothingDone(w);
  }

  /** Outputs that neither relay nor dispatch leave nothing owed. */
  ghost predicate Idle(outs: seq<Out>) {
    forall o :: o in outs ==> !o.Relayed? && !o.Dispatched?
  }

  lemma {:induction false} IdleIsSettled(outs: seq<Out>)
    requires Idle(outs)
    ensures Settled(outs)
  {
    hide Honest;
    NothingDone(Nothing);
    if outs != [] {
      var n := |outs| - 1;
      assert outs[n] in outs && outs == outs[..n] + [outs[n]];
      IdleIsSettled(outs[..n]);
      IdleIsHonest(outs[n]);
      OneHonest(Nothing, outs[n]);
      HonestConcat(Nothing, outs[..n], [outs[n]]);
    }
  }

  lemma IdleIsHonest(o: Out)
    requires !o.Dispatched?
    ensures Honest(Nothing, o)
  {
  }

  lemma SettledConcat(a: seq<Out>, b: seq<Out>)
    requires Settled(a) && Settled(b)
    ensures Settled(a + b)
  {
    hide OwedAfter, AllHonest;
    HonestConcat(Nothing, a, b);
  }

  /** Time extensions change nothing of what is owed, as long as no answer is. */
  lemma {:induction false} Waiting(w: Owed, outs: seq<Out>)
    requires !w.Response? && forall o :: o in outs ==> o.TimeExtension?
    ensures AllHonest(w, outs) && OwedAfter(w, outs) == w
  {
    hide Honest;
    NothingDone(w);
    if outs != [] {
      var n := |outs| - 1;
      assert outs[n] in outs && outs == outs[..n] + [outs[n]];
      Waiting(w, outs[..n]);
      WaitingIsHonest(w, outs[n]);
      OneHonest(w, outs[n]);
      HonestConcat(w, outs[..n], [outs[n]]);
    }
  }

  lemma WaitingIsHonest(w: Owed, o: Out)
    requires !w.Response? && o.TimeExtension?
    ensures Honest(w, o)
  {
  }

  /** A dispatch that relays gives the host the card's bytes; one that does not makes no answer of a card up. */
  lemma DispatchIsHonest(s: Ccid, a: seq<u8>, env: Env)
    ensures var d := AnswerTo(s, a, env);
            match d.relayed
            case Some(Relayed(b, wrapped, c)) => Honest(CardsAnswer(b, wrapped, c), Dispatched(a, d.rsp))
            case Some(_) => false
            case None => Honest(Nothing, Dispatched(a, d.rsp))
  {
    hide SelectsNdefApp, SelectsFido, StatusOk, DrivesFido;
    if |a| >= 8 && Pn53x(a, 0x40) && a[7] == 1 {
      Pn53xBytes(a);
      assert a[5..8] == [a[5], a[6], a[7]] && a[5..][3..] == a[8..];
    }
  }

  /** What is owed once the relay of a command, if there is one, is under way. */
  function Underway(relayed: Option<Out>): Owed {
    match relayed
    case Some(Relayed(b, wrapped, c)) => CardsAnswer(b, wrapped, c)
    case _ => Nothing
  }

  lemma RelayIsHonest(relayed: Option<Out>)
    requires relayed.Some? ==> relayed.value.Relayed?
    ensures var outs := if relayed.Some? then [relayed.value] else [];
            AllHonest(Nothing, outs) && OwedAfter(Nothing, outs) == Underway(relayed)
  {
    hide Honest;
    NothingDone(Nothing);
    if relayed.Some? {
      IdleIsHonest(relayed.value);
      OneHonest(Nothing, relayed.value);
    }
  }

  lemma ExchangeOutsAre(s: Ccid, f: seq<u8>, a: seq<u8>, env: Env) returns (head: seq<Out>, waits: seq<Out>)
    requires |f| >= HEADER_LEN
    ensures forall o :: o in head + waits ==> o.TimeExtension?
    ensures var d := AnswerTo(s, a, env);
            ExchangeOuts(s, f, a, env)
            == head + (if d.relayed.Some? then [d.relayed.value] else []) + (waits + [Dispatched(a, d.rsp)])
  {
    hide Dispatch, AsksTimeFirst;
    head := if AsksTimeFirst(s.kind, a) then [TimeExtension(f[SEQ])] else [];
    waits := Waits(f[SEQ], if s.kind == Type4 || AsksTimeFirst(s.kind, a) then env.waits else 0);
  }

  lemma ExchangeOwesItsAnswer(s: Ccid, f: seq<u8>, a: seq<u8>, env: Env)
    requires |f| >= HEADER_LEN
    ensures AllHonest(Nothing, ExchangeOuts(s, f, a, env))
    ensures OwedAfter(Nothing, ExchangeOuts(s, f, a, env)) == Response(ResponseTo(s, a, env))
  {
    hide Honest, AllHonest, OwedAfter, ExchangeOuts, Dispatch;
    var d := AnswerTo(s, a, env);
    var head, waits := ExchangeOutsAre(s, f, a, env);
    var relay := if d.relayed.Some? then [d.relayed.value] else [];
    DispatchIsHonest(s, a, env);
    Waiting(Nothing, head);
    RelayIsHonest(d.relayed);
    HonestConcat(Nothing, head, relay);
    Waiting(Underway(d.relayed), waits);
    OneHonest(Underway(d.relayed), Dispatched(a, d.rsp));
    HonestConcat(Underway(d.relayed), waits, [Dispatched(a, d.rsp)]);
    HonestConcat(Nothing, head + relay, waits + [Dispatched(a, d.rsp)]);
  }

  lemma BlockDelivers(q: u8, r: seq<u8>)
    ensures |r| <= 510 ==> Delivers(Block(q, r, 0), r)
    ensures 510 < |r| ==> Delivers(Block(q, r[..510], 1), r)
  {
    hide Le32;
  }

  lemma AbortDelivers(q: u8, r: seq<u8>)
    ensures Delivers(CommandFailed(XFR, q, ACTIVE, ERR_CMD_ABORTED), r)
  {
  }

  /** The response goes out in one block, or its first 510 bytes do. */
  lemma SendResponseDelivers(s: Ccid, q: u8, r: seq<u8>, sendOk: bool)
    requires |r| <= EXTENDED_RSP_BUF_SIZE
    ensures var outs := SendResponse(s, q, r, sendOk).1; |outs| == 1 && outs[0].Sent? && Delivers(outs[0].bytes, r)
  {
    hide Block, Delivers;
    BlockDelivers(q, r);
    if |r| > RSP_DATA_CAP {
      FirstChunkIs(ClearChain(s).(chain := r, chainOff := 0, chainActive := true), q, sendOk);
    }
  }

  lemma ExchangeIsSettled(s: Ccid, f: seq<u8>, a: seq<u8>, env: Env)
    requires |f| >= HEADER_LEN && f[0] == XFR && s.sess && s.present
    ensures Settled(Exchange(s, f, a, env).1)
  {
    hide Honest, AllHonest, OwedAfter, ExchangeOuts, Dispatch, SendResponse, Delivers, CommandFailed, Exchanged;
    var outs, r := ExchangeOuts(s, f, a, env), ResponseTo(s, a, env);
    var s1 := Exchanged(s, f, a, env);
    ExchangeOwesItsAnswer(s, f, a, env);
    ExchangedStaysOpen(s, f, a, env);
    ResponseFits(s, a, env);
    SendResponseDelivers(s1, f[SEQ], r, env.sendOk);
    AbortDelivers(f[SEQ], r);
    SentSettles(outs, SendResponse(s1, f[SEQ], r, env.sendOk).1, r);
    SentSettles(outs, [Sent(CommandFailed(XFR, f[SEQ], ACTIVE, ERR_CMD_ABORTED))], r);
  }

  lemma ExchangedStaysOpen(s: Ccid, f: seq<u8>, a: seq<u8>, env: Env)
    requires |f| >= HEADER_LEN && s.sess && s.present
    ensures Level(Exchanged(s, f, a, env)) == ACTIVE
  {
    hide Dispatch;
  }

  lemma SentSettles(outs: seq<Out>, reply: seq<Out>, r: seq<u8>)
    requires AllHonest(Nothing, outs) && OwedAfter(Nothing, outs) == Response(r)
    requires |reply| == 1 && reply[0].Sent? && Delivers(reply[0].bytes, r)
    ensures Settled(outs + reply)
  {
    hide AllHonest, OwedAfter, Delivers;
    assert reply == [reply[0]];
    OneHonest(Response(r), reply[0]);
    HonestConcat(Nothing, outs, reply);
  }

  lemma TransferIsSettled(s: Ccid, f: seq<u8>, env: Env)
    requires |f| >= HEADER_LEN && f[0] == XFR && Inv(s)
    ensures Settled(Transfer(s, f, env).1)
  {
    hide Exchange, Settled, CommandFailed, Block, LevelParam, Level;
    var (s', outs) := Transfer(s, f, env);
    if s.sess {
      ExchangeIsSettled(s, f, f[HEADER_LEN..], env);
      ExchangeIsSettled(Assembled(s, f), f, Assembled(s, f).cmd, env);
      AssembledIsSameSlot(s, f);
    }
    TransferIs(s, f, env);
    if |outs| == 1 && outs[0].Sent? {
      IdleIsSettled(outs);
    }
  }

  lemma OtherCommandsAreIdle(s: Ccid, f: seq<u8>, env: Env)
    requires |f| >= HEADER_LEN && f[0] != XFR && env.Ok()
    ensures Idle(Command(s, f, env).1)
  {
    hide Command, Status, Activate;
    if f[0] == ICC_OFF {
      PowerOffIs(s, f, env);
    } else if f[0] == ICC_ON {
      PowerOnIs(s, f, env);
    } else {
      PlainCommand(s, f, env);
    }
  }

  lemma MessageIsSettled(s: Ccid, f: seq<u8>, env: Env)
    requires Inv(s) && env.Ok()
    ensures Settled(HandleBulk(s, f, env).1)
  {
    hide EarlyError, Command, SendChunk, CommandFailed, IsContinuation, Settled;
    var (s', outs) := HandleBulk(s, f, env);
    if |f| < HEADER_LEN || EarlyError(s, f).Some? {
      IdleIsSettled(outs);
    } else if IsContinuation(f) {
      SendChunkOuts(s, f[SEQ], env.sendOk);
      IdleIsSettled(outs);
    } else {
      var s1 := Prepared(s, f);
      if HandleBulk(s, f, env) == Command(s1, f, env) {
        if f[0] == XFR {
          XfrIsTransfer(s1, f, env);
          TransferIsSettled(s1, f, env);
        } else {
          OtherCommandsAreIdle(s1, f, env);
          IdleIsSettled(outs);
        }
      } else {
        IdleIsSettled(outs);
      }
    }
  }

  lemma StepIsSettled(r: Reader, step: Legal)
    requires Inv(r.ccid)
    ensures Settled(Take(r, step).1)
  {
    hide HandleBulk, Settled;
    var s := r.ccid;
    match step
    case Serve(elapsed, frame, env) =>
      var due := s.deferred && (!s.sess || elapsed);
      var s1, outs := if due then Removed(s) else s, if due then RemovedOuts(s) else [];
      RemovedKeeps(s);
      IdleIsSettled(outs);
      if frame.Some? {
        var f := Fit(frame.value, WORK_BUF_SIZE);
        MessageIsSettled(s1, f, env);
        SettledConcat(outs, HandleBulk(s1, f, env).1);
      }
    case Watch(i) =>
      IdleIsSettled(Take(r, step).1);
  }

  /** In every run all outputs are honest, and nothing is owed at the end. */
  lemma {:induction false} EveryRunIsHonest(run: seq<Legal>)
    ensures Settled(Log(run))
  {
    hide Take, Settled;
    IdleIsSettled([]);
    if run != [] {
      var n := |run| - 1;
      EveryRunIsHonest(run[..n]);
      EveryRunIsSafe(run[..n]);
      StepIsSettled(After(run[..n]), run[n]);
      SettledConcat(Log(run[..n]), Take(After(run[..n]), run[n]).1);
    }
  }

  lemma OneMoreOut(w: Owed, outs: seq<Out>, i: nat)
    requires i < |outs|
    ensures OwedAfter(w, outs[..i + 1]) == match outs[i] case Relayed(a, wrapped, c) => CardsAnswer(a, wrapped, c)
                                                         case Dispatched(_, r) => Response(r)
                                                         case Sent(_) => Nothing
                                                         case _ => OwedAfter(w, outs[..i])
  {
    assert outs[..i + 1][..i] == outs[..i];
  }

  /**
    * In every run: what a card has answered to a relayed command, at place `i`, is the response with which that command is
    * done, at place `j`; nothing but requests to wait lies between; and that response goes out at once.
    */
  lemma CardsAnswerGoesToTheHost(run: seq<Legal>, i: nat) returns (j: nat)
    requires i < |Log(run)| && Log(run)[i].Relayed?
    ensures var log := Log(run);
            && i < j && j + 1 < |log| && (forall k :: i < k < j ==> log[k].TimeExtension?)
            && log[j].Dispatched? && log[j].response == ForTheHost(log[i].wrapped, log[i].response)
            && (if log[i].wrapped then Wraps(log[j].payload, log[i].apdu) else log[j].payload == log[i].apdu)
            && log[j + 1].Sent? && Delivers(log[j + 1].bytes, log[j].response)
  {
    hide Log, Honest, OwedAfter, Wraps, ForTheHost, Delivers;
    var log := Log(run);
    EveryRunIsHonest(run);
    assert log[..|log|] == log;
    var owed := CardsAnswer(log[i].apdu, log[i].wrapped, log[i].response);
    OneMoreOut(Nothing, log, i);
    j := i + 1;
    while j < |log| && log[j].TimeExtension?
      invariant i < j <= |log| && OwedAfter(Nothing, log[..j]) == owed
      invariant forall k :: i < k < j ==> log[k].TimeExtension?
    {
      OneMoreOut(Nothing, log, j);
      j := j + 1;
    }
    assert j < |log|;
    assert Honest(owed, log[j]);
    AnsweredOrWaiting(owed, log[j]);
    OneMoreOut(Nothing, log, j);
    assert j + 1 < |log|;
    assert Honest(Response(log[j].response), log[j + 1]);
    AnsweredOrWaiting(Response(log[j].response), log[j + 1]);
  }

  lemma AnsweredOrWaiting(owed: Owed, o: Out)
    requires Honest(owed, o)
    ensures owed.CardsAnswer? && !o.TimeExtension? ==>
              && o.Dispatched? && o.response == ForTheHost(owed.wrapped, owed.card)
              && if owed.wrapped then Wraps(o.payload, owed.apdu) else o.payload == owed.apdu
    ensures owed.Response? ==> o.Sent? && Delivers(o.bytes, owed.response)
    ensures owed.Nothing? && o.Dispatched? && (|o.payload| < 2 || o.payload[0] != 0xFF) ==>
              o.response in {[0x69, 0xFF], [0x6D, 0x00], [0x6E, 0x00], [0x6F, 0x00]}
  {
  }
}
