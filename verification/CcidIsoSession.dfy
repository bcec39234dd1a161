/** The ISO-DEP session under the CCID session: whether every session that is opened is also released. */
module CcidIsoSession {
  import opened Bytes
  import opened CcidFrame
  import opened CcidMachine
  import opened CcidSafety
  import opened CcidChaining
  import CcidAtr

  /** The openings (true) and releases (false) among outputs, in order. */
  function IsoEvents(outs: seq<Out>): seq<bool> {
    if outs == [] then []
    else
      (if outs[0].IsoOpened? then [true] else if outs[0].IsoReleased? then [false] else []) + IsoEvents(outs[1..])
  }

  /** Openings and releases take turns, an opening first. */
  predicate Alternate(events: seq<bool>) {
    forall i :: 0 <= i < |events| ==> events[i] == (i % 2 == 0)
  }

  /** A power-on that opens the session of a Type 4 tag. */
  predicate Opens(s: Ccid, f: seq<u8>, env: Env)
    requires |f| >= HEADER_LEN
  {
    Executed(f, env) && f[0] == ICC_ON && f[PARAM1] <= 3 && s.present && s.kind == Type4 && env.opens
  }

  /** The same of a poll: its message is handled after a removal that is due. */
  predicate PollOpens(s: Ccid, elapsed: bool, frame: Option<seq<u8>>, env: Env) {
    && frame.Some?
    && var f := Fit(frame.value, WORK_BUF_SIZE);
       |f| >= HEADER_LEN && Opens(if s.deferred && (!s.sess || elapsed) then Removed(s) else s, f, env)
  }

  predicate OpenStep(s: Ccid, step: Legal) {
    match step
    case Serve(elapsed, frame, env) => PollOpens(s, elapsed, frame, env)
    case Watch(_) => false
  }

  /** What the layer below does before it reports a session open: it keeps an answer to RATS, and the ATR is made of that. */
  ghost predicate FromRats(env: Env) {
    exists received ::
      CcidAtr.Ats(received).Some? && env.atr == CcidAtr.Atr(CcidAtr.Ats(received).value, RSP_DATA_CAP)
  }

  /** Every opening in the run is of that kind. */
  ghost predicate OpenedOnRats(run: seq<Legal>) {
    run != [] ==>
      var before, last := run[..|run| - 1], run[|run| - 1];
      OpenedOnRats(before) && (OpenStep(After(before).ccid, last) ==> FromRats(last.env))
  }

  /** Were that not so: the session is opened, then the ATR cannot be given, so the session is open and nobody knows. */
  predicate LeakStep(s: Ccid, step: Legal) {
    OpenStep(s, step) && step.env.atr.None?
  }

  /** Some step of the run leaked. */
  predicate Leaked(run: seq<Legal>) {
    run != [] && (Leaked(run[..|run| - 1]) || LeakStep(After(run[..|run| - 1]).ccid, run[|run| - 1]))
  }

  /** No step of the run opened a session after one had leaked. */
  predicate NeverReopened(run: seq<Legal>) {
    run != [] ==>
      var before := run[..|run| - 1];
      NeverReopened(before) && !(Leaked(before) && OpenStep(After(before).ccid, run[|run| - 1]))
  }

  /** What one step does: open, after releasing what was open, with the flag up unless it leaks; or nothing; or release. */
  predicate IsoStep(before: bool, events: seq<bool>, after: bool, opens: bool, leak: bool) {
    if opens then events == (if before then [false] else []) + [true] && after == !leak
    else !leak && ((events == [] && after == before) || (before && events == [false] && !after))
  }

  lemma {:induction false} IsoConcat(a: seq<Out>, b: seq<Out>)
    ensures IsoEvents(a + b) == IsoEvents(a) + IsoEvents(b)
  {
    if a == [] {
      assert a + b == b;
    } else {
      assert (a + b)[1..] == a[1..] + b;
      IsoConcat(a[1..], b);
      var first := if a[0].IsoOpened? then [true] else if a[0].IsoReleased? then [false] else [];
      assert first + (IsoEvents(a[1..]) + IsoEvents(b)) == first + IsoEvents(a[1..]) + IsoEvents(b);
    }
  }

  /** Outputs that do not concern the ISO session. */
  ghost predicate NoIso(outs: seq<Out>) { forall o :: o in outs ==> !o.IsoOpened? && !o.IsoReleased? }

  lemma {:induction false} NoIsoEvents(outs: seq<Out>)
    requires NoIso(outs)
    ensures IsoEvents(outs) == []
  {
    if outs != [] {
      NoIsoEvents(outs[1..]);
    }
  }

  lemma TeardownEvents(s: Ccid)
    ensures IsoEvents(TeardownOuts(s)) == if s.isoOpen then [false] else []
    ensures IsoEvents(RemovedOuts(s)) == if s.isoOpen then [false] else []
  {
    var outs := TeardownOuts(s);
    assert outs != [] ==> outs[1..] == [];
    var notes := if s.present then [Notify(false)] else [];
    IsoConcat(outs, notes);
    NoIsoEvents(notes);
  }

  lemma OpenEvents(s: Ccid, q: u8, env: Env)
    ensures IsoEvents(OpenOuts(s, q, env)) == if s.present && s.kind == Type4 && env.opens then [true] else []
  {
    var waits := Waits(q, env.waits);
    var last := if env.opens then [IsoOpened] else [];
    assert env.opens ==> last[1..] == [];
    NoIsoEvents(waits);
    IsoConcat(waits, last);
  }

  lemma PowerOnEvents(s: Ccid, f: seq<u8>, env: Env)
    requires Inv(s) && |f| >= HEADER_LEN && f[0] == ICC_ON && env.Ok() && Executed(f, env)
    ensures var (s', outs), opens := PowerOn(s, f, env), Opens(s, f, env);
            IsoStep(s.isoOpen, IsoEvents(outs), s'.isoOpen, opens, opens && env.atr.None?)
  {
    hide Status, Block, IsoEvents, TeardownOuts, OpenOuts, Executed;
    var (s', outs) := PowerOn(s, f, env);
    if f[PARAM1] > 3 {
      NoIsoEvents(outs);
    } else {
      var reply := [outs[|outs| - 1]];
      assert outs == TeardownOuts(s) + OpenOuts(s, f[SEQ], env) + reply;
      IsoConcat(TeardownOuts(s) + OpenOuts(s, f[SEQ], env), reply);
      IsoConcat(TeardownOuts(s), OpenOuts(s, f[SEQ], env));
      TeardownEvents(s);
      OpenEvents(s, f[SEQ], env);
      NoIsoEvents(reply);
    }
  }

  lemma PowerOffEvents(s: Ccid, f: seq<u8>, env: Env)
    requires Inv(s) && |f| >= HEADER_LEN && f[0] == ICC_OFF && env.Ok()
    ensures var (s', outs) := Command(s, f, env); IsoStep(s.isoOpen, IsoEvents(outs), s'.isoOpen, false, false)
  {
    hide Status, IsoEvents, TeardownOuts, Command;
    PowerOffIs(s, f, env);
    var reply := [Sent(Status(RDR_SLOTSTATUS, f[SEQ], if s.present then INACTIVE else NO_ICC, 0))];
    IsoConcat(TeardownOuts(s), reply);
    TeardownEvents(s);
    NoIsoEvents(reply);
  }

  lemma ExchangeHasNoIso(s: Ccid, f: seq<u8>, a: seq<u8>, env: Env)
    requires |f| >= HEADER_LEN
    ensures var (s', outs) := Exchange(s, f, a, env); s'.isoOpen == s.isoOpen && NoIso(outs)
  {
    hide Dispatch, CommandFailed, SendResponse, ExchangeOuts, Exchanged;
    ExchangedHasNoIso(s, f, a, env);
    SendResponseOuts(Exchanged(s, f, a, env), f, Dispatch(s, a, ResponseCap(s), env).rsp, env.sendOk);
  }

  lemma ExchangedHasNoIso(s: Ccid, f: seq<u8>, a: seq<u8>, env: Env)
    requires |f| >= HEADER_LEN
    ensures Exchanged(s, f, a, env).isoOpen == s.isoOpen && NoIso(ExchangeOuts(s, f, a, env))
  {
    hide Dispatch, AsksTimeFirst, LevelParam, Waits, NoIso;
    var r := Dispatch(s, a, ResponseCap(s), env);
    RelayIsNoIso(s, a, ResponseCap(s), env);
    var n := if s.kind == Type4 || AsksTimeFirst(s.kind, a) then env.waits else 0;
    OutsAreNoIso(if AsksTimeFirst(s.kind, a) then [TimeExtension(f[SEQ])] else [],
                 if r.relayed.Some? then [r.relayed.value] else [], f[SEQ], n, Dispatched(a, r.rsp));
  }

  lemma OutsAreNoIso(first: seq<Out>, relayed: seq<Out>, q: u8, n: nat, last: Out)
    requires (first == [] || first == [TimeExtension(q)]) && last.Dispatched?
    requires relayed == [] || exists o: Out :: o.Relayed? && relayed == [o]
    ensures NoIso(first + relayed + (Waits(q, n) + [last]))
  {
  }

  lemma RelayIsNoIso(s: Ccid, a: seq<u8>, cap: nat, env: Env)
    requires cap >= 10
    ensures var r := Dispatch(s, a, cap, env); r.relayed.Some? ==> r.relayed.value.Relayed?
  {
  }

  lemma TransferHasNoIso(s: Ccid, f: seq<u8>, env: Env)
    requires |f| >= HEADER_LEN
    ensures var (s', outs) := Transfer(s, f, env); s'.isoOpen == s.isoOpen && NoIso(outs)
  {
    hide Transfer, Exchange;
    TransferIs(s, f, env);
    AssembledIsSameSlot(s, f);
    ExchangeHasNoIso(s, f, f[HEADER_LEN..], env);
    ExchangeHasNoIso(Assembled(s, f), f, Assembled(s, f).cmd, env);
  }

  lemma SentIsNoIso(b: seq<u8>)
    ensures NoIso([Sent(b)])
  {
  }

  lemma OtherCommandsHaveNoIso(s: Ccid, f: seq<u8>, env: Env)
    requires |f| >= HEADER_LEN && f[0] !in {ICC_ON, ICC_OFF, XFR} && env.Ok()
    ensures var (s', outs) := Command(s, f, env); s'.isoOpen == s.isoOpen && NoIso(outs)
  {
    hide Command;
    PlainCommand(s, f, env);
  }

  lemma CommandEvents(s: Ccid, f: seq<u8>, env: Env)
    requires Inv(s) && |f| >= HEADER_LEN && env.Ok() && Executed(f, env)
    ensures var (s', outs), opens := Command(s, f, env), Opens(s, f, env);
            IsoStep(s.isoOpen, IsoEvents(outs), s'.isoOpen, opens, opens && env.atr.None?)
  {
    hide IsoEvents, PowerOn, Command, Transfer, Executed, NoIso, Inv;
    var (s', outs) := Command(s, f, env);
    if f[0] == ICC_ON {
      PowerOnIs(s, f, env);
      PowerOnEvents(s, f, env);
    } else if f[0] == ICC_OFF {
      PowerOffEvents(s, f, env);
    } else {
      if f[0] == XFR {
        XfrIsTransfer(s, f, env);
        TransferHasNoIso(s, f, env);
      } else {
        OtherCommandsHaveNoIso(s, f, env);
      }
      NoIsoEvents(outs);
    }
  }

  lemma NothingHappens(open: bool)
    ensures IsoStep(open, [], open, false, false)
  {
  }

  lemma MessageEvents(s: Ccid, f: seq<u8>, env: Env)
    requires Inv(s) && |f| >= HEADER_LEN && env.Ok()
    ensures var (s', outs), opens := HandleBulk(s, f, env), Opens(s, f, env);
            IsoStep(s.isoOpen, IsoEvents(outs), s'.isoOpen, opens, opens && env.atr.None?)
  {
    hide EarlyError, Accepted, Command, SendChunk, CommandFailed, IsContinuation, IsoEvents, NoIso, IsoStep, Level;
    NothingHappens(s.isoOpen);
    var (s', outs) := HandleBulk(s, f, env);
    AcceptanceIgnoresState(s, f);
    if Executed(f, env) {
      CommandEvents(Prepared(s, f), f, env);
    } else {
      SendChunkOuts(s, f[SEQ], env.sendOk);
      forall b: seq<u8> ensures NoIso([Sent(b)]) {
        SentIsNoIso(b);
      }
      NoIsoEvents(outs);
    }
  }

  lemma PollEvents(s: Ccid, elapsed: bool, frame: Option<seq<u8>>, env: Env)
    requires Inv(s) && env.Ok()
    ensures var (s', outs), opens := Poll(s, elapsed, frame, env), PollOpens(s, elapsed, frame, env);
            IsoStep(s.isoOpen, IsoEvents(outs), s'.isoOpen, opens, opens && env.atr.None?)
  {
    hide HandleBulk, IsoEvents, Opens, RemovedOuts;
    RemovedKeeps(s);
    TeardownEvents(s);
    assert IsoEvents([]) == [] by { NoIsoEvents([]); }
    var due := s.deferred && (!s.sess || elapsed);
    var s1, outs := if due then Removed(s) else s, if due then RemovedOuts(s) else [];
    if frame.Some? {
      var f := Fit(frame.value, WORK_BUF_SIZE);
      IsoConcat(outs, HandleBulk(s1, f, env).1);
      if |f| >= HEADER_LEN {
        MessageEvents(s1, f, env);
      } else {
        ShortIsIgnored(s1, f, env);
      }
    }
  }

  lemma TagEvents(s: Ccid, kind: Kind, elapsed: bool)
    requires Inv(s)
    ensures var (s', outs) := TagRemoved(s, elapsed); IsoStep(s.isoOpen, IsoEvents(outs), s'.isoOpen, false, false)
    ensures var (s', outs) := TagRemoved(s, elapsed); IsoEvents(outs) == [] || IsoEvents(outs) == [false]
    ensures var (s', outs) := TagDetected(s, kind); s'.isoOpen == s.isoOpen && IsoEvents(outs) == []
  {
    hide IsoEvents, RemovedOuts;
    TeardownEvents(s);
    NoIsoEvents([]);
    NoIsoEvents([Notify(true)]);
    IsoConcat(RemovedOuts(s), [Notify(true)]);
    assert [] + [Notify(true)] == [Notify(true)];
  }

  lemma WatchEvents(r: Reader, i: Field)
    requires Inv(r.ccid) && i.Ok()
    ensures var (r', outs) := LoopStep(r, i); IsoStep(r.ccid.isoOpen, IsoEvents(outs), r'.ccid.isoOpen, false, false)
  {
    hide IsoEvents, TagDetected, TagRemoved;
    var s := r.ccid;
    var (s1, outs) := TagRemoved(s, i.elapsed);
    TagEvents(s, if i.found.Some? then i.found.value else NoTag, i.elapsed);
    TagRemovedKeeps(s, i.elapsed);
    NoIsoEvents([]);
    if i.probed.Some? {
      TagEvents(s1, i.probed.value, i.elapsed);
      IsoConcat(outs, TagDetected(s1, i.probed.value).1);
    }
  }

  lemma StepEvents(r: Reader, step: Legal)
    requires Inv(r.ccid)
    ensures var (r', outs), opens := Take(r, step), OpenStep(r.ccid, step);
            IsoStep(r.ccid.isoOpen, IsoEvents(outs), r'.ccid.isoOpen, opens, LeakStep(r.ccid, step))
  {
    hide IsoEvents, LoopStep, Poll, IsoStep, Inv;
    match step
    case Serve(elapsed, frame, env) => PollEvents(r.ccid, elapsed, frame, env);
    case Watch(field) => WatchEvents(r, field);
  }

  /** One more step, on the sequence of events. */
  lemma MoreEvents(past: seq<bool>, events: seq<bool>, before: bool, after: bool,
                   leaked: bool, opens: bool, leak: bool)
    requires Alternate(past) && (|past| % 2 == 1 <==> before || leaked) && !(before && leaked)
    requires IsoStep(before, events, after, opens, leak)
    ensures Alternate(past + events) <==> !(leaked && opens)
    ensures Alternate(past + events) ==>
              (|past + events| % 2 == 1 <==> after || leaked || leak) && !(after && (leaked || leak))
  {
    var all := past + events;
    if leaked && opens {
      assert events == [true] && all[|past|] == true;
    }
  }

  /**
    * Whatever the layer below does, openings and releases alternate exactly if no session is opened after one has leaked;
    * as long as none has leaked the last of them tells whether the session is open.
    */
  lemma {:induction false} IsoAlternatesExactlyUnlessReopenedAfterALeak(run: seq<Legal>)
    ensures Alternate(IsoEvents(Log(run))) <==> NeverReopened(run)
    ensures var n, open := |IsoEvents(Log(run))|, After(run).ccid.isoOpen;
            NeverReopened(run) ==> (n % 2 == 1 <==> open || Leaked(run)) && !(open && Leaked(run))
  {
    hide Take, IsoStep, OpenStep, LeakStep, Alternate;
    if run == [] {
      NothingAlternates();
    } else {
      var n := |run| - 1;
      var before := run[..n];
      var (r', outs) := Take(After(before), run[n]);
      IsoAlternatesExactlyUnlessReopenedAfterALeak(before);
      EveryRunIsSafe(before);
      StepEvents(After(before), run[n]);
      IsoConcat(Log(before), outs);
      if NeverReopened(before) {
        MoreEvents(IsoEvents(Log(before)), IsoEvents(outs), After(before).ccid.isoOpen, r'.ccid.isoOpen,
                   Leaked(before), OpenStep(After(before).ccid, run[n]), LeakStep(After(before).ccid, run[n]));
      } else if Alternate(IsoEvents(Log(run))) {
        PrefixAlternates(IsoEvents(Log(before)), IsoEvents(outs));
      }
    }
  }

  /** No opening leaks, since the ATR of an answer to RATS can always be given. */
  lemma {:induction false} NothingLeaks(run: seq<Legal>)
    requires OpenedOnRats(run)
    ensures !Leaked(run) && NeverReopened(run)
  {
    hide PollOpens, CcidAtr.Ats, CcidAtr.Atr, Take;
    if run != [] {
      NothingLeaks(run[..|run| - 1]);
      if OpenStep(After(run[..|run| - 1]).ccid, run[|run| - 1]) {
        AnAtrIsGiven(run[|run| - 1].env);
      }
    }
  }

  lemma AnAtrIsGiven(env: Env)
    requires FromRats(env)
    ensures env.atr.Some?
  {
    hide CcidAtr.Ats, CcidAtr.Atr;
    var received :| CcidAtr.Ats(received).Some? && env.atr == CcidAtr.Atr(CcidAtr.Ats(received).value, RSP_DATA_CAP);
    CcidAtr.EveryAtsGivesAnAtr(received);
  }

  /** In every run openings and releases of the ISO-DEP session alternate, and the last of them tells whether it is open. */
  lemma IsoSessionsAlternate(run: seq<Legal>)
    requires OpenedOnRats(run)
    ensures Alternate(IsoEvents(Log(run)))
    ensures |IsoEvents(Log(run))| % 2 == 1 <==> After(run).ccid.isoOpen
  {
    hide OpenedOnRats, Leaked, NeverReopened, Alternate, After, Log;
    NothingLeaks(run);
    IsoAlternatesExactlyUnlessReopenedAfterALeak(run);
  }

  lemma NothingAlternates()
    ensures Alternate([])
  {
  }

  lemma PrefixAlternates(a: seq<bool>, b: seq<bool>)
    requires Alternate(a + b)
    ensures Alternate(a)
  {
    forall i | 0 <= i < |a| ensures a[i] == (i % 2 == 0) {
      assert (a + b)[i] == a[i];
    }
  }

  const POWER_ON: seq<u8> := Status(ICC_ON, 0, 0, 0)
  const NO_ATR := Env(true, None, None, true, true, None, 0, [], [])

  lemma PlainPowerOnIsExecuted(f: seq<u8>, env: Env)
    requires |f| == HEADER_LEN && f[0] == ICC_ON && f[SLOT] == f[PARAM1] == f[PARAM2] == f[PARAM3] == 0
    requires Validate(f) == Some(0) && env.abortBefore.None?
    ensures Executed(f, env)
  {
    hide Validate, CommandFailed, SlotAbsent, XfrLevelError, LevelParam;
  }

  lemma PowerOnIsExecuted(q: u8, env: Env)
    requires env.abortBefore.None?
    ensures Executed(Status(ICC_ON, q, 0, 0), env)
  {
    hide Validate, Executed;
    StatusIsValid(ICC_ON, q, 0, 0);
    PlainPowerOnIsExecuted(Status(ICC_ON, q, 0, 0), env);
  }

  /** A Type 4 tag is there, and no session is known of. */
  ghost predicate Waiting(s: Ccid) { Inv(s) && s.present && s.kind == Type4 && !s.deferred && !s.isoOpen }

  /** Powering on a Type 4 tag whose ATR cannot be given leaks, and leaves the tag where it is. */
  lemma PoweringOnLeaks(r: Reader)
    requires Waiting(r.ccid)
    ensures var (r', outs) := Take(r, Serve(false, Some(POWER_ON), NO_ATR));
            Waiting(r'.ccid) && IsoEvents(outs) == [true]
  {
    hide HandleBulk, IsoEvents, Executed, Inv;
    var s := r.ccid;
    PowerOnIsExecuted(0, NO_ATR);
    assert Fit(POWER_ON, WORK_BUF_SIZE) == POWER_ON;
    assert PollOpens(s, false, Some(POWER_ON), NO_ATR);
    PollEvents(s, false, Some(POWER_ON), NO_ATR);
    EveryMessageIsAnsweredOnce(s, POWER_ON, NO_ATR);
    assert [] + [true] == [true];
  }

  lemma OneMoreStep(run: seq<Legal>, step: Legal)
    ensures After(run + [step]) == Take(After(run), step).0
    ensures IsoEvents(Log(run + [step])) == IsoEvents(Log(run)) + IsoEvents(Take(After(run), step).1)
  {
    hide Take, IsoEvents;
    assert (run + [step])[..|run|] == run;
    IsoConcat(Log(run), Take(After(run), step).1);
  }

  lemma FindingATag(found: Legal)
    requires found == Watch(Field(false, false, false, false, None, false, false, Some(Type4)))
    ensures var (r, outs) := Take(Start, found); Waiting(r.ccid) && IsoEvents(outs) == []
  {
    hide IsoEvents;
    var (r, outs) := Take(Start, found);
    NoIsoEvents(outs);
  }

  /** So the ATR is needed: were there none for a Type 4 tag, powering it on twice would break the alternation. */
  lemma PoweringOnTwiceWithoutAnAtrOpensTwice(found: Legal, on: Legal)
    requires found == Watch(Field(false, false, false, false, None, false, false, Some(Type4)))
    requires on == Serve(false, Some(POWER_ON), NO_ATR)
    ensures IsoEvents(Log([found, on, on])) == [true, true] && !After([found, on, on]).ccid.isoOpen
  {
    hide Take, IsoEvents, After, Log;
    FindingATag(found);
    NothingLogged();
    OneMoreStep([], found);
    OneMoreStep([found], on);
    OneMoreStep([found, on], on);
    assert [] + [found] == [found] && [found] + [on] == [found, on] && [found, on] + [on] == [found, on, on];
    PoweringOnLeaks(After([found]));
    PoweringOnLeaks(After([found, on]));
  }

  lemma NothingLogged()
    ensures After([]) == Start && IsoEvents(Log([])) == []
  {
  }
}
