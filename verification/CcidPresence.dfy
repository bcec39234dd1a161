/** How the reader's loop notices that a tag has gone: by two misses in a row, and never while a FIDO session is open. */
module CcidPresence {
  import opened Bytes
  import opened CcidFrame
  import opened CcidMachine
  import opened CcidSafety

  // ---- What becomes of the slot ----

  /** A tag taken for gone leaves the slot as it was at the start, or, before the deadline and with no session, is waited for. */
  lemma TakenForGone(s: Ccid, elapsed: bool)
    requires Inv(s) && s.present
    ensures TagRemoved(s, elapsed)
            == if !s.sess && !elapsed then (s.(deferred := true), [])
               else (Initial, (if s.isoOpen then [IsoReleased] else []) + [Notify(false)])
  {
  }

  /** A tag that is adopted finds the slot as it was at the start; a tag that was still waited for is reported gone before. */
  lemma Adopted(s: Ccid, kind: Kind)
    requires Inv(s) && kind != NoTag && (!s.present || s.deferred)
    ensures TagDetected(s, kind)
            == (Initial.(present := true, kind := kind), (if s.deferred then [Notify(false)] else []) + [Notify(true)])
  {
    DeferredIsGivenUp(s);
    assert !s.present ==> s == Initial;
  }

  lemma DeferredIsGivenUp(s: Ccid)
    requires Inv(s)
    ensures s.deferred ==> Removed(s) == Initial && RemovedOuts(s) == [Notify(false)] && !s.sess
  {
    assert s.deferred ==> TeardownOuts(s) == [];
  }

  /** A poll gives up a tag that was waited for, and then takes at most 2060 bytes of a message. */
  lemma PollIs(s: Ccid, elapsed: bool, frame: Option<seq<u8>>, env: Env)
    requires Inv(s) && env.Ok()
    ensures var s1, o1 := if s.deferred then Initial else s, if s.deferred then [Notify(false)] else [];
            match frame
            case None => Poll(s, elapsed, frame, env) == (s1, o1)
            case Some(f) =>
              var (s2, o2) := HandleBulk(s1, if |f| <= 2060 then f else f[..2060], env);
              Poll(s, elapsed, frame, env) == (s2, o1 + o2)
  {
    hide HandleBulk;
    DeferredIsGivenUp(s);
  }

  // ---- Misses ----

  /** With a tag in the slot, the loop looks for it in this step. */
  predicate Looks(s: Ccid, i: Field) {
    s.present && !i.early && if s.sess && s.kind == Type4 then !s.fido else s.sess ==> i.probeDue
  }

  predicate Answered(s: Ccid, i: Field) { if s.sess && s.kind == Type4 then i.loaded else i.probed.Some? }

  predicate Missed(s: Ccid, i: Field) { Looks(s, i) && !Answered(s, i) }

  predicate Seen(s: Ccid, i: Field) { Looks(s, i) && Answered(s, i) }

  /** A stranger was found in place of the tag, outside a Type 4 session, and its identifier could be stored. */
  predicate Stranger(s: Ccid, i: Field) { Seen(s, i) && !(s.sess && s.kind == Type4) && !i.sameUid && i.remembered }

  /** The misses that count: those seen in the same state of the slot. */
  function Counted(r: Reader): nat { if r.lastLevel == Level(r.ccid) then r.misses else 0 }

  /**
    * One step with a tag in the slot. The first miss is forgiven, the second takes the tag for gone; a tag that answers is
    * forgiven its misses, and one that is not known replaces the one before; a step that does not look changes nothing.
    */
  lemma PresenceStep(r: Reader, i: Field)
    requires Inv(r.ccid) && i.Ok() && r.ccid.present
    ensures var s, (r', outs) := r.ccid, LoopStep(r, i);
            if Missed(s, i) then
              if Counted(r) == 0 then r'.ccid == s && outs == [] && r'.misses == 1
              else (r'.ccid, outs) == TagRemoved(s, i.elapsed) && r'.misses == 0
            else if Stranger(s, i) then
              var (s1, o1) := TagRemoved(s, i.elapsed);
              var (s2, o2) := TagDetected(s1, i.probed.value);
              r'.ccid == s2 && outs == o1 + o2 && r'.misses == 0
            else if Seen(s, i) then r'.ccid == s && outs == [] && r'.misses == 0
            else r'.ccid == s && outs == [] && r'.misses == Counted(r)
    ensures LoopStep(r, i).0.lastLevel == Level(r.ccid)
  {
    hide TagRemoved, TagDetected;
  }

  /** With no tag in the slot, what is found is adopted. */
  lemma AbsenceStep(r: Reader, i: Field)
    requires Inv(r.ccid) && i.Ok() && !r.ccid.present
    ensures var s, (r', outs) := r.ccid, LoopStep(r, i);
            && r'.misses == 0
            && if i.early || i.found.None? then r'.ccid == s && outs == [] else (r'.ccid, outs) == TagDetected(s, i.found.value)
  {
    hide TagRemoved, TagDetected;
  }

  /** The loop's last look in a run found nothing. */
  ghost predicate MissedLast(run: seq<Legal>, k: nat) {
    && k < |run| && run[k].Watch? && Missed(After(run[..k]).ccid, run[k].field)
    && forall j :: k < j < |run| && run[j].Watch? ==> !Seen(After(run[..j]).ccid, run[j].field)
  }

  lemma {:induction false} OneMissIsRemembered(run: seq<Legal>)
    ensures After(run).misses <= 1
    ensures After(run).misses == 1 ==> exists k: nat :: MissedLast(run, k)
  {
    hide Take, Missed, Seen, MissedLast;
    if run != [] {
      var n := |run| - 1;
      var r, step := After(run[..n]), run[n];
      OneMissIsRemembered(run[..n]);
      EveryRunIsSafe(run[..n]);
      StepRemembers(r, step);
      if After(run).misses == 1 {
        if step.Watch? && Missed(r.ccid, step.field) {
          MissedJustNow(run);
        } else {
          var k: nat :| MissedLast(run[..n], k);
          OneStepLater(run, k);
        }
      }
    }
  }

  lemma MissedJustNow(run: seq<Legal>)
    requires run != []
    requires var n := |run| - 1; run[n].Watch? && Missed(After(run[..n]).ccid, run[n].field)
    ensures MissedLast(run, |run| - 1)
  {
    hide After, Missed, Seen;
  }

  lemma OneStepLater(run: seq<Legal>, k: nat)
    requires run != [] && MissedLast(run[..|run| - 1], k)
    requires var n := |run| - 1; run[n].Watch? ==> !Seen(After(run[..n]).ccid, run[n].field)
    ensures MissedLast(run, k)
  {
    hide After, Missed, Seen;
    var n := |run| - 1;
    assert run[..n][..k] == run[..k];
    forall j | k < j < |run| && run[j].Watch? ensures !Seen(After(run[..j]).ccid, run[j].field) {
      if j < n {
        assert run[..n][..j] == run[..j] && run[..n][j] == run[j];
      }
    }
  }

  lemma StepRemembers(r: Reader, step: Legal)
    requires Inv(r.ccid) && r.misses <= 1
    ensures var r' := Take(r, step).0;
            && r'.misses <= 1
            && (r'.misses == 1 ==> (r.misses == 1 && (step.Watch? ==> !Seen(r.ccid, step.field)))
                                   || (step.Watch? && Missed(r.ccid, step.field)))
  {
    hide Poll, LoopStep, Missed, Seen, Stranger, TagRemoved, TagDetected;
    match step
    case Serve(elapsed, frame, env) =>
    case Watch(i) =>
      if r.ccid.present {
        PresenceStep(r, i);
      } else {
        AbsenceStep(r, i);
      }
  }

  /**
    * In every run: where the loop takes a tag for gone without having found another in its place, it has missed the tag in
    * this step and in an earlier one, and has not seen it in between.
    */
  lemma GoneOnlyAfterTwoMisses(run: seq<Legal>, i: Field) returns (k: nat)
    requires i.Ok() && After(run).ccid.present && LoopStep(After(run), i).0.ccid != After(run).ccid
    requires !Stranger(After(run).ccid, i)
    ensures Missed(After(run).ccid, i) && MissedLast(run, k)
  {
    hide LoopStep, After, Missed, Seen, Stranger, TagRemoved, TagDetected;
    EveryRunIsSafe(run);
    PresenceStep(After(run), i);
    OneMissIsRemembered(run);
    k :| MissedLast(run, k);
  }
}
