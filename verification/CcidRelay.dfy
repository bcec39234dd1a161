/** Which APDUs reach the card: a selected FIDO application is shielded from NDEF selection and from wrapped CTAP traffic. */
module CcidRelay {
  import opened Bytes
  import opened CcidFrame
  import opened Apdu
  import opened CcidMachine
  import opened CcidSafety
  import opened CcidChaining

  /** A direct FIDO SELECT that the card accepted. */
  predicate SelectedFido(o: Out) {
    o.Relayed? && !o.wrapped && SelectsFido(o.apdu) && StatusOk(o.response)
  }

  /** An observer of the outputs: whether FIDO is selected after `outs`, given that it was (`on`) or was not before. */
  function Selected(on: bool, outs: seq<Out>): bool {
    if outs == [] then on
    else
      var before := Selected(on, outs[..|outs| - 1]);
      var o := outs[|outs| - 1];
      if o.IsoReleased? then false else before || SelectedFido(o)
  }

  /** What may be relayed when the observer says `on`. */
  predicate MayRelay(on: bool, o: Out) {
    o.Relayed? ==> (on ==> !SelectsNdefApp(o.apdu)) && (o.wrapped ==> !DrivesFido(o.apdu))
  }

  /** Every relayed APDU was allowed when it was relayed. */
  ghost predicate Shielded(on: bool, outs: seq<Out>) {
    forall k :: 0 <= k < |outs| ==> MayRelay(Selected(on, outs[..k]), outs[k])
  }

  /** A message's outputs keep the shield, and the machine's flag is what the observer says. */
  ghost predicate Watched(s: Ccid, r: (Ccid, seq<Out>)) {
    Shielded(s.fido, r.1) && r.0.fido == Selected(s.fido, r.1)
  }

  lemma {:induction false} SelectedConcat(on: bool, a: seq<Out>, b: seq<Out>)
    ensures Selected(on, a + b) == Selected(Selected(on, a), b)
  {
    if b == [] {
      assert a + b == a;
    } else {
      var n := |b| - 1;
      assert (a + b)[..|a + b| - 1] == a + b[..n];
      SelectedConcat(on, a, b[..n]);
    }
  }

  lemma ShieldedConcat(on: bool, a: seq<Out>, b: seq<Out>)
    requires Shielded(on, a) && Shielded(Selected(on, a), b)
    ensures Shielded(on, a + b)
  {
    forall k | 0 <= k < |a + b| ensures MayRelay(Selected(on, (a + b)[..k]), (a + b)[k]) {
      if k < |a| {
        assert (a + b)[..k] == a[..k];
      } else {
        assert (a + b)[..k] == a + b[..k - |a|];
        SelectedConcat(on, a, b[..k - |a|]);
      }
    }
  }

  /** Outputs that neither relay nor release. */
  ghost predicate Neutral(outs: seq<Out>) {
    forall o :: o in outs ==> !o.Relayed? && !o.IsoReleased?
  }

  lemma {:induction false} NeutralKeeps(on: bool, outs: seq<Out>)
    requires Neutral(outs)
    ensures Selected(on, outs) == on && Shielded(on, outs)
  {
    if outs != [] {
      NeutralKeeps(on, outs[..|outs| - 1]);
    }
    forall k | 0 <= k < |outs| ensures MayRelay(Selected(on, outs[..k]), outs[k]) {
      assert outs[k] in outs;
    }
  }

  lemma OneOut(on: bool, o: Out)
    ensures Selected(on, [o]) == (if o.IsoReleased? then false else on || SelectedFido(o))
    ensures Shielded(on, [o]) <==> MayRelay(on, o)
  {
    assert [o][..0] == [];
    assert Selected(on, []) == on;
    if MayRelay(on, o) {
      forall k | 0 <= k < 1 ensures MayRelay(Selected(on, [o][..k]), [o][k]) {
        assert [o][..k] == [];
      }
    } else {
      assert !MayRelay(Selected(on, [o][..0]), [o][0]);
    }
  }

  /** A dispatch relays only what may be relayed, and only then can it set the flag. */
  lemma DispatchIsShielded(s: Ccid, a: seq<u8>, cap: nat, env: Env)
    requires cap >= 10
    ensures var r := Dispatch(s, a, cap, env);
            if r.relayed.None? then r.fido == s.fido
            else r.relayed.value.Relayed? && MayRelay(s.fido, r.relayed.value)
                 && r.fido == (s.fido || SelectedFido(r.relayed.value))
  {
    hide SelectsFido, SelectsNdefApp, CtapCommand, IsGetResponse, IsControlEnd, StatusOk;
  }

  lemma AroundOneRelay(on: bool, head: seq<Out>, relayed: Option<Out>, tail: seq<Out>)
    requires Neutral(head) && Neutral(tail)
    requires relayed.Some? ==> relayed.value.Relayed? && MayRelay(on, relayed.value)
    ensures var outs := head + (if relayed.Some? then [relayed.value] else []) + tail;
            Shielded(on, outs) && Selected(on, outs) == (on || (relayed.Some? && SelectedFido(relayed.value)))
  {
    hide Selected, Shielded, MayRelay, SelectedFido;
    var mid := if relayed.Some? then [relayed.value] else [];
    NeutralKeeps(on, head);
    if relayed.Some? {
      OneOut(on, relayed.value);
    } else {
      NeutralKeeps(on, mid);
    }
    SelectedConcat(on, head, mid);
    ShieldedConcat(on, head, mid);
    NeutralKeeps(Selected(on, head + mid), tail);
    SelectedConcat(on, head + mid, tail);
    ShieldedConcat(on, head + mid, tail);
  }

  lemma TailIsNeutral(q: u8, n: nat, a: seq<u8>, r: seq<u8>)
    ensures Neutral(Waits(q, n) + [Dispatched(a, r)])
  {
  }

  lemma ExchangeShape(s: Ccid, f: seq<u8>, a: seq<u8>, env: Env) returns (head: seq<Out>, tail: seq<Out>)
    requires |f| >= HEADER_LEN
    ensures Neutral(head) && Neutral(tail)
    ensures var r := Dispatch(s, a, ResponseCap(s), env);
            && ExchangeOuts(s, f, a, env) == head + (if r.relayed.Some? then [r.relayed.value] else []) + tail
            && Exchanged(s, f, a, env).fido == r.fido
  {
    hide Dispatch, AsksTimeFirst, Waits;
    head := if AsksTimeFirst(s.kind, a) then [TimeExtension(f[SEQ])] else [];
    var waits := if s.kind == Type4 || AsksTimeFirst(s.kind, a) then env.waits else 0;
    tail := Waits(f[SEQ], waits) + [Dispatched(a, Dispatch(s, a, ResponseCap(s), env).rsp)];
    TailIsNeutral(f[SEQ], waits, a, Dispatch(s, a, ResponseCap(s), env).rsp);
  }

  lemma ExchangeOutsAreWatched(s: Ccid, f: seq<u8>, a: seq<u8>, env: Env)
    requires |f| >= HEADER_LEN
    ensures Watched(s, (Exchanged(s, f, a, env), ExchangeOuts(s, f, a, env)))
  {
    hide Dispatch, Selected, Shielded, MayRelay, SelectedFido, Neutral, ExchangeOuts, Exchanged;
    DispatchIsShielded(s, a, ResponseCap(s), env);
    var head, tail := ExchangeShape(s, f, a, env);
    AroundOneRelay(s.fido, head, Dispatch(s, a, ResponseCap(s), env).relayed, tail);
  }

  /** Watched steps compose. */
  lemma Then(s: Ccid, s1: Ccid, a: seq<Out>, s2: Ccid, b: seq<Out>)
    requires Watched(s, (s1, a)) && Watched(s1, (s2, b))
    ensures Watched(s, (s2, a + b))
  {
    SelectedConcat(s.fido, a, b);
    ShieldedConcat(s.fido, a, b);
  }

  lemma Quiet(s: Ccid, s': Ccid, outs: seq<Out>)
    requires s'.fido == s.fido && Neutral(outs)
    ensures Watched(s, (s', outs))
  {
    NeutralKeeps(s.fido, outs);
  }

  lemma TeardownIsWatched(s: Ccid)
    requires Inv(s)
    ensures Watched(s, (Teardown(s), TeardownOuts(s)))
  {
    if s.isoOpen {
      OneOut(s.fido, IsoReleased);
    } else {
      NeutralKeeps(s.fido, []);
    }
  }

  lemma SendsAreNeutral(s: Ccid, f: seq<u8>, data: seq<u8>, sendOk: bool)
    requires |f| >= HEADER_LEN
    ensures Neutral(SendResponse(s, f[SEQ], data, sendOk).1) && SendResponse(s, f[SEQ], data, sendOk).0.fido == s.fido
    ensures Neutral(SendChunk(s, f[SEQ], sendOk).1) && SendChunk(s, f[SEQ], sendOk).0.fido == s.fido
  {
    hide SendResponse, SendChunk;
    SendResponseOuts(s, f, data, sendOk);
    SendChunkOuts(s, f[SEQ], sendOk);
  }

  lemma ExchangeIsWatched(s: Ccid, f: seq<u8>, a: seq<u8>, env: Env)
    requires |f| >= HEADER_LEN
    ensures Watched(s, Exchange(s, f, a, env))
  {
    hide Exchanged, ExchangeOuts, Dispatch, SendResponse, CommandFailed;
    var s1, outs := Exchanged(s, f, a, env), ExchangeOuts(s, f, a, env);
    ExchangeOutsAreWatched(s, f, a, env);
    var rsp := Dispatch(s, a, ResponseCap(s), env).rsp;
    SendsAreNeutral(s1, f, rsp, env.sendOk);
    var (s2, reply) := SendResponse(s1, f[SEQ], rsp, env.sendOk);
    Quiet(s1, s2, reply);
    Then(s, s1, outs, s2, reply);
    var failed := [Sent(CommandFailed(f[0], f[SEQ], Level(s1), ERR_CMD_ABORTED))];
    Quiet(s1, ClearChain(s1), failed);
    Then(s, s1, outs, ClearChain(s1), failed);
  }

  lemma TransferIsWatched(s: Ccid, f: seq<u8>, env: Env)
    requires |f| >= HEADER_LEN
    ensures Watched(s, Transfer(s, f, env))
  {
    hide Exchange, Watched, Transfer, Neutral;
    TransferIs(s, f, env);
    AssembledIsSameSlot(s, f);
    ExchangeIsWatched(s, f, f[HEADER_LEN..], env);
    ExchangeIsWatched(Assembled(s, f), f, Assembled(s, f).cmd, env);
    SameFlag(s, Assembled(s, f), Exchange(Assembled(s, f), f, Assembled(s, f).cmd, env));
    var (s', outs) := Transfer(s, f, env);
    if SameSlot(s, s') && |outs| == 1 && outs[0].Sent? {
      OneIsNeutral(outs);
      Quiet(s, s', outs);
    }
  }

  lemma OneIsNeutral(outs: seq<Out>)
    requires |outs| == 1 && outs[0].Sent?
    ensures Neutral(outs)
  {
  }

  lemma SameFlag(s: Ccid, s1: Ccid, r: (Ccid, seq<Out>))
    requires s.fido == s1.fido && Watched(s1, r)
    ensures Watched(s, r)
  {
  }

  lemma PowerOffIsWatched(s: Ccid, f: seq<u8>, env: Env)
    requires Inv(s) && |f| >= HEADER_LEN && f[0] == ICC_OFF && env.Ok()
    ensures Watched(s, Command(s, f, env))
  {
    hide Status, Command, Teardown, TeardownOuts, Watched;
    PowerOffIs(s, f, env);
    TeardownIsWatched(s);
    var last := [Sent(Status(RDR_SLOTSTATUS, f[SEQ], if s.present then INACTIVE else NO_ICC, 0))];
    var s' := Teardown(s).(protocol := PROTOCOL_T1);
    assert Command(s, f, env) == (s', TeardownOuts(s) + last);
    Quiet(Teardown(s), s', last);
    Then(s, Teardown(s), TeardownOuts(s), s', last);
  }

  lemma PowerOnIsWatched(s: Ccid, f: seq<u8>, env: Env)
    requires Inv(s) && |f| >= HEADER_LEN && f[0] == ICC_ON && env.Ok()
    ensures Watched(s, Command(s, f, env))
  {
    hide Status, Command, Activate, Teardown, TeardownOuts, Watched;
    PowerOnIs(s, f, env);
    TeardownIsWatched(s);
    var (s', outs) := PowerOn(s, f, env);
    if f[PARAM1] > 3 {
      Quiet(s, s', outs);
    } else {
      ActivateFlag(Teardown(s), f[SEQ], env);
      var last := OpenOuts(s, f[SEQ], env) + [Sent(Activate(Teardown(s), f[SEQ], env).1)];
      assert outs == TeardownOuts(s) + last;
      Quiet(Teardown(s), s', last);
      Then(s, Teardown(s), TeardownOuts(s), s', last);
    }
  }

  lemma OtherCommandsAreWatched(s: Ccid, f: seq<u8>, env: Env)
    requires Inv(s) && |f| >= HEADER_LEN && f[0] != XFR && env.Ok()
    ensures Watched(s, Command(s, f, env))
  {
    hide Command, Watched;
    if f[0] == ICC_OFF {
      PowerOffIsWatched(s, f, env);
    } else if f[0] == ICC_ON {
      PowerOnIsWatched(s, f, env);
    } else {
      PlainCommand(s, f, env);
      var (s', outs) := Command(s, f, env);
      OneIsNeutral(outs);
      Quiet(s, s', outs);
    }
  }

  lemma ActivateFlag(s: Ccid, q: u8, env: Env)
    requires env.Ok()
    ensures Activate(s, q, env).0.fido == s.fido
  {
    hide Status, Block;
  }

  lemma MessageIsWatched(s: Ccid, f: seq<u8>, env: Env)
    requires Inv(s) && env.Ok()
    ensures Watched(s, HandleBulk(s, f, env))
  {
    hide EarlyError, Command, SendChunk, CommandFailed, IsContinuation, Watched;
    var (s', outs) := HandleBulk(s, f, env);
    if |f| < HEADER_LEN || EarlyError(s, f).Some? {
      Quiet(s, s', outs);
    } else if IsContinuation(f) {
      SendsAreNeutral(s, f, [], env.sendOk);
      Quiet(s, s', outs);
    } else {
      var s1 := Prepared(s, f);
      assert Inv(s1) && s1.fido == s.fido;
      if HandleBulk(s, f, env) == Command(s1, f, env) {
        if f[0] == XFR {
          TransferIsWatched(s1, f, env);
          XfrIsTransfer(s1, f, env);
        } else {
          OtherCommandsAreWatched(s1, f, env);
        }
        SameFlag(s, s1, Command(s1, f, env));
      } else {
        Quiet(s, s', outs);
      }
    }
  }

  lemma RemovedIsWatched(s: Ccid)
    requires Inv(s)
    ensures Watched(s, (Removed(s), RemovedOuts(s)))
  {
    TeardownIsWatched(s);
    var tail := if s.present then [Notify(false)] else [];
    Quiet(Teardown(s), Removed(s), tail);
    Then(s, Teardown(s), TeardownOuts(s), Removed(s), tail);
  }

  lemma PollIsWatched(s: Ccid, elapsed: bool, frame: Option<seq<u8>>, env: Env)
    requires Inv(s) && env.Ok()
    ensures Watched(s, Poll(s, elapsed, frame, env))
  {
    hide HandleBulk, Watched;
    var due := s.deferred && (!s.sess || elapsed);
    var s1, outs := if due then Removed(s) else s, if due then RemovedOuts(s) else [];
    RemovedIsWatched(s);
    RemovedKeeps(s);
    Quiet(s, s, []);
    if frame.Some? {
      var f := Fit(frame.value, WORK_BUF_SIZE);
      MessageIsWatched(s1, f, env);
      var (s2, more) := HandleBulk(s1, f, env);
      Then(s, s1, outs, s2, more);
    }
  }

  lemma DetectedIsWatched(s: Ccid, kind: Kind)
    requires Inv(s) && (!s.present || s.deferred)
    ensures Watched(s, TagDetected(s, kind))
  {
    var s1, outs := if s.deferred then Removed(s) else s, if s.deferred then RemovedOuts(s) else [];
    RemovedIsWatched(s);
    Quiet(s, s, []);
    var (s', all) := TagDetected(s, kind);
    Quiet(s1, s', [Notify(true)]);
    Then(s, s1, outs, s', [Notify(true)]);
  }

  lemma TagRemovedIsWatched(s: Ccid, elapsed: bool)
    requires Inv(s)
    ensures Watched(s, TagRemoved(s, elapsed))
  {
    RemovedIsWatched(s);
    var (s', outs) := TagRemoved(s, elapsed);
    if outs != RemovedOuts(s) || s' != Removed(s) {
      Quiet(s, s', outs);
    }
  }

  lemma StepIsWatched(r: Reader, step: Legal)
    requires Inv(r.ccid)
    ensures Watched(r.ccid, (Take(r, step).0.ccid, Take(r, step).1))
  {
    hide Poll, TagDetected, TagRemoved, Selected, Shielded;
    var s := r.ccid;
    match step
    case Serve(elapsed, frame, env) => PollIsWatched(s, elapsed, frame, env);
    case Watch(i) =>
      TagRemovedKeeps(s, i.elapsed);
      TagRemovedIsWatched(s, i.elapsed);
      Quiet(s, s, []);
      if Level(s) == NO_ICC {
        if i.found.Some? {
          DetectedIsWatched(s, i.found.value);
        }
      } else if i.probed.Some? {
        var (s1, o1) := TagRemoved(s, i.elapsed);
        var (s2, o2) := TagDetected(s1, i.probed.value);
        DetectedIsWatched(s1, i.probed.value);
        Then(s, s1, o1, s2, o2);
      }
  }

  /** In every run every relayed APDU was allowed, and the machine's flag is what an observer of its outputs computes. */
  lemma {:induction false} EveryRunIsShielded(run: seq<Legal>)
    ensures Shielded(false, Log(run)) && After(run).ccid.fido == Selected(false, Log(run))
  {
    hide Take;
    if run != [] {
      var n := |run| - 1;
      EveryRunIsShielded(run[..n]);
      EveryRunIsSafe(run[..n]);
      StepIsWatched(After(run[..n]), run[n]);
      Then(Initial, After(run[..n]).ccid, Log(run[..n]), After(run).ccid, Take(After(run[..n]), run[n]).1);
    }
  }

  lemma {:induction false} StaysSelected(on: bool, outs: seq<Out>, i: nat, j: nat)
    requires i < j <= |outs| && SelectedFido(outs[i])
    requires forall k :: i < k < j ==> !outs[k].IsoReleased?
    ensures Selected(on, outs[..j])
    decreases j
  {
    assert outs[..j][..j - 1] == outs[..j - 1];
    if i + 1 < j {
      StaysSelected(on, outs, i, j - 1);
    }
  }

  /** After an accepted FIDO SELECT no SELECT of the NDEF application reaches the card before the session is released. */
  lemma NoNdefSelectUntilRelease(run: seq<Legal>, i: nat, j: nat)
    requires i < j < |Log(run)| && SelectedFido(Log(run)[i])
    requires Log(run)[j].Relayed? && SelectsNdefApp(Log(run)[j].apdu)
    ensures exists k :: i < k < j && Log(run)[k].IsoReleased?
  {
    EveryRunIsShielded(run);
    assert MayRelay(Selected(false, Log(run)[..j]), Log(run)[j]);
    if forall k :: i < k < j ==> !Log(run)[k].IsoReleased? {
      StaysSelected(false, Log(run), i, j);
      assert false;
    }
  }

  /** No FIDO SELECT and no CTAP command is ever relayed wrapped in InDataExchange. */
  lemma NoWrappedFidoTraffic(run: seq<Legal>, j: nat)
    requires j < |Log(run)| && Log(run)[j].Relayed? && Log(run)[j].wrapped
    ensures !DrivesFido(Log(run)[j].apdu)
  {
    EveryRunIsShielded(run);
    assert MayRelay(Selected(false, Log(run)[..j]), Log(run)[j]);
  }
}
