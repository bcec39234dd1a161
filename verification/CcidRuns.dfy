/** The chaining rules over whole runs of messages, polls and tag events, from power-up. */
module CcidRuns {
  import opened Bytes
  import opened CcidFrame
  import opened CcidMachine
  import opened CcidSafety
  import opened CcidChaining

  /** The step serves a bulk message of at least header length. */
  predicate IsMessage(step: Legal) {
    step.Serve? && step.frame.Some? && |Fit(step.frame.value, WORK_BUF_SIZE)| >= HEADER_LEN
  }

  function Frame(step: Legal): (f: seq<u8>)
    requires IsMessage(step)
    ensures |f| >= HEADER_LEN
  {
    Fit(step.frame.value, WORK_BUF_SIZE)
  }

  /** The state in which the message of step `i` is handled: a removal that is due comes first. */
  function Before(run: seq<Legal>, i: nat): Ccid
    requires i < |run| && IsMessage(run[i])
  {
    var s := After(run[..i]).ccid;
    if s.deferred && (!s.sess || run[i].elapsed) then Removed(s) else s
  }

  function Result(run: seq<Legal>, i: nat): (Ccid, seq<Out>)
    requires i < |run| && IsMessage(run[i])
  {
    HandleBulk(Before(run, i), Frame(run[i]), run[i].env)
  }

  /** Nothing of a chain survives that was not there. */
  ghost predicate ChainsKept(s: Ccid, s': Ccid) {
    && (s'.cmdActive ==> s.cmdActive && s'.cmd == s.cmd)
    && (s'.chainActive ==> s.chainActive && s'.chain == s.chain && s'.chainOff == s.chainOff)
  }

  lemma LastStep(run: seq<Legal>, i: nat)
    requires i < |run|
    ensures After(run[..i + 1]) == Take(After(run[..i]), run[i]).0
    ensures Log(run[..i + 1]) == Log(run[..i]) + Take(After(run[..i]), run[i]).1
  {
    var r := run[..i + 1];
    assert r[..|r| - 1] == run[..i];
    hide Take;
  }

  lemma MessageStep(run: seq<Legal>, i: nat)
    requires i < |run| && IsMessage(run[i])
    ensures Inv(Before(run, i)) && ChainsKept(After(run[..i]).ccid, Before(run, i))
    ensures After(run[..i + 1]).ccid == Result(run, i).0
  {
    hide HandleBulk;
    LastStep(run, i);
    EveryRunIsSafe(run[..i]);
    RemovedKeeps(After(run[..i]).ccid);
  }

  lemma OtherStep(run: seq<Legal>, i: nat)
    requires i < |run| && !IsMessage(run[i])
    ensures ChainsKept(After(run[..i]).ccid, After(run[..i + 1]).ccid)
  {
    LastStep(run, i);
    var r := After(run[..i]);
    if run[i].Serve? {
      if run[i].frame.Some? {
        var s := r.ccid;
        var s1 := if s.deferred && (!s.sess || run[i].elapsed) then Removed(s) else s;
        ShortIsIgnored(s1, Fit(run[i].frame.value, WORK_BUF_SIZE), run[i].env);
        hide HandleBulk;
      }
    } else {
      WatchKeepsChains(r, run[i].field);
    }
  }

  lemma DetectedKeepsChains(s: Ccid, kind: Kind)
    ensures ChainsKept(s, TagDetected(s, kind).0)
  {
    hide RemovedOuts;
  }

  lemma RemovedKeepsChains(s: Ccid, elapsed: bool)
    ensures ChainsKept(s, TagRemoved(s, elapsed).0)
  {
    hide RemovedOuts;
  }

  lemma TagEventsKeepChains(s: Ccid, kind: Kind, elapsed: bool)
    ensures ChainsKept(s, TagDetected(s, kind).0) && ChainsKept(s, TagRemoved(s, elapsed).0)
  {
    hide TagDetected, TagRemoved, ChainsKept;
    DetectedKeepsChains(s, kind);
    RemovedKeepsChains(s, elapsed);
  }

  lemma WatchKeepsChains(r: Reader, i: Field)
    ensures ChainsKept(r.ccid, LoopStep(r, i).0.ccid)
  {
    hide TagDetected, TagRemoved;
    var s := r.ccid;
    var s1 := TagRemoved(s, i.elapsed).0;
    TagEventsKeepChains(s, if i.found.Some? then i.found.value else NoTag, i.elapsed);
    TagEventsKeepChains(s1, if i.probed.Some? then i.probed.value else NoTag, i.elapsed);
  }

  // ---- Commands ----

  /** The message of step `i` was acknowledged as a block of a longer command. */
  ghost predicate Acked(run: seq<Legal>, i: nat)
    requires i < |run|
  {
    IsMessage(run[i]) && Acks(Frame(run[i]), Result(run, i).1)
  }

  /** The payloads acknowledged in steps `j` to `n - 1`, in order. */
  ghost function Gathered(run: seq<Legal>, j: nat, n: nat): seq<u8>
    requires n <= |run|
  {
    if n <= j then []
    else Gathered(run, j, n - 1) + (if Acked(run, n - 1) then Frame(run[n - 1])[HEADER_LEN..] else [])
  }

  /** Step `j` was acknowledged as a first block, and up to `n` only middle blocks were, with harmless messages between. */
  ghost predicate Assembles(run: seq<Legal>, j: nat, n: nat)
    requires n <= |run|
  {
    && j < n && Acked(run, j) && LevelParam(Frame(run[j])) == LEVEL_BEGIN
    && forall i :: j < i < n && IsMessage(run[i]) ==>
         if Acked(run, i) then LevelParam(Frame(run[i])) == LEVEL_MIDDLE else Harmless(Frame(run[i]), run[i].env)
  }

  /** The command under assembly is the concatenation of what was acknowledged since the latest first block. */
  lemma {:induction false} CommandUnderAssembly(run: seq<Legal>, n: nat) returns (j: nat)
    requires n <= |run| && After(run[..n]).ccid.cmdActive
    ensures Assembles(run, j, n) && After(run[..n]).ccid.cmd == Gathered(run, j, n)
    decreases n
  {
    hide HandleBulk, Take, Harmless, Acked, Inv, Gathered, Assembles, LevelParam, Result;
    assert n > 0 by { assert run[..0] == []; }
    var i := n - 1;
    if IsMessage(run[i]) {
      MessageStep(run, i);
      AssemblyOfMessage(run, i);
      if Acked(run, i) && LevelParam(Frame(run[i])) == LEVEL_BEGIN {
        j := i;
        FirstBlock(run, i);
      } else {
        j := CommandUnderAssembly(run, i);
        NextBlock(run, j, i);
      }
    } else {
      OtherStep(run, i);
      j := CommandUnderAssembly(run, i);
      NextBlock(run, j, i);
    }
  }

  /** How a command can be under assembly after a message. */
  lemma AssemblyOfMessage(run: seq<Legal>, i: nat)
    requires i < |run| && IsMessage(run[i]) && Inv(Before(run, i)) && Result(run, i).0.cmdActive
    ensures var s, s', f := Before(run, i), Result(run, i).0, Frame(run[i]);
            if Acked(run, i) then
              || (LevelParam(f) == LEVEL_BEGIN && s'.cmd == f[HEADER_LEN..])
              || (LevelParam(f) == LEVEL_MIDDLE && s.cmdActive && s'.cmd == s.cmd + f[HEADER_LEN..])
            else s.cmdActive && s'.cmd == s.cmd && Harmless(f, run[i].env)
  {
    hide HandleBulk, Harmless, Acks, LevelParam;
    MessageCmd(Before(run, i), Frame(run[i]), run[i].env);
  }

  lemma FirstBlock(run: seq<Legal>, i: nat)
    requires i < |run| && Acked(run, i) && LevelParam(Frame(run[i])) == LEVEL_BEGIN
    ensures Assembles(run, i, i + 1) && Gathered(run, i, i + 1) == Frame(run[i])[HEADER_LEN..]
  {
    hide Acks, Result, LevelParam;
    assert Gathered(run, i, i) == [];
    assert [] + Frame(run[i])[HEADER_LEN..] == Frame(run[i])[HEADER_LEN..];
  }

  lemma NextBlock(run: seq<Legal>, j: nat, i: nat)
    requires i < |run| && Assembles(run, j, i)
    requires IsMessage(run[i]) ==>
               if Acked(run, i) then LevelParam(Frame(run[i])) == LEVEL_MIDDLE else Harmless(Frame(run[i]), run[i].env)
    ensures Assembles(run, j, i + 1)
    ensures Acked(run, i) ==> IsMessage(run[i]) && Gathered(run, j, i + 1) == Gathered(run, j, i) + Frame(run[i])[HEADER_LEN..]
    ensures !Acked(run, i) ==> Gathered(run, j, i + 1) == Gathered(run, j, i)
  {
    hide Acks, Result, LevelParam, Harmless;
    assert Gathered(run, j, i) + [] == Gathered(run, j, i);
  }

  /**
    * Whatever is dispatched by a closing block is exactly the blocks acknowledged since the latest first one,
    * and the closing block itself; it never exceeds the assembly buffer.
    */
  lemma DispatchIsWhatWasAcknowledged(run: seq<Legal>, n: nat, a: seq<u8>, r: seq<u8>)
    requires n < |run| && IsMessage(run[n]) && Dispatched(a, r) in Result(run, n).1
    requires LevelParam(Frame(run[n])) == LEVEL_END
    ensures |a| <= MAX_XFR_PAYLOAD
    ensures exists j :: Assembles(run, j, n) && a == Gathered(run, j, n) + Frame(run[n])[HEADER_LEN..]
  {
    hide HandleBulk, Harmless, Acks, Inv;
    MessageStep(run, n);
    MessageCmd(Before(run, n), Frame(run[n]), run[n].env);
    var j := CommandUnderAssembly(run, n);
  }

  // ---- Responses ----

  /** Between steps `j` and `n` the host was served nothing but continuations, refused messages and silence. */
  ghost predicate OnlyContinued(run: seq<Legal>, j: nat, n: nat)
    requires n <= |run|
  {
    forall i :: j < i < n && IsMessage(run[i]) ==> !Accepted(Frame(run[i])) || Continues(Frame(run[i]))
  }

  ghost function Continuations(run: seq<Legal>, j: nat, n: nat): nat
    requires n <= |run|
  {
    if n <= j + 1 then 0
    else Continuations(run, j, n - 1) + (if IsMessage(run[n - 1]) && Continues(Frame(run[n - 1])) then 1 else 0)
  }

  /** Step `j` dispatched a command whose response was `r`. */
  ghost predicate Produces(run: seq<Legal>, j: nat, r: seq<u8>)
    requires j < |run|
  {
    IsMessage(run[j]) && exists a :: Dispatched(a, r) in Result(run, j).1
  }

  /** A pending response is that of the latest executed message, and the cursor counts the continuations since. */
  lemma {:induction false} PendingResponse(run: seq<Legal>, n: nat) returns (j: nat)
    requires n <= |run| && After(run[..n]).ccid.chainActive
    ensures j < n && Produces(run, j, After(run[..n]).ccid.chain) && OnlyContinued(run, j, n)
    ensures After(run[..n]).ccid.chainOff == RSP_DATA_CAP * (1 + Continuations(run, j, n))
    decreases n
  {
    hide HandleBulk, Take, Accepted, IsContinuation, Inv, Produces, OnlyContinued, Continuations, Result, Starts;
    assert n > 0 by { assert run[..0] == []; }
    var i := n - 1;
    if IsMessage(run[i]) {
      MessageStep(run, i);
      ResultOfMessage(run, i);
      var s' := Result(run, i).0;
      if Supersedes(Frame(run[i])) && Starts(s', Result(run, i).1) {
        j := i;
        ProducesNow(run, i);
      } else {
        j := PendingResponse(run, i);
        OneMoreContinuation(run, j, i);
      }
    } else {
      OtherStep(run, i);
      j := PendingResponse(run, i);
      OneMoreContinuation(run, j, i);
    }
  }

  lemma ResultOfMessage(run: seq<Legal>, i: nat)
    requires i < |run| && IsMessage(run[i]) && Inv(Before(run, i)) && Result(run, i).0.chainActive
    ensures var s, f, (s', outs) := Before(run, i), Frame(run[i]), Result(run, i);
            || (!Accepted(f) && s' == s)
            || (Continues(f) && s.chainActive && s'.chain == s.chain && s'.chainOff == s.chainOff + RSP_DATA_CAP)
            || (Supersedes(f) && Starts(s', outs))
  {
    hide HandleBulk, Accepted, IsContinuation, Starts;
    MessageChain(Before(run, i), Frame(run[i]), run[i].env);
  }

  lemma ProducesNow(run: seq<Legal>, i: nat)
    requires i < |run| && IsMessage(run[i]) && Starts(Result(run, i).0, Result(run, i).1)
    ensures Produces(run, i, Result(run, i).0.chain) && OnlyContinued(run, i, i + 1)
    ensures Result(run, i).0.chainOff == RSP_DATA_CAP && Continuations(run, i, i + 1) == 0
  {
    hide Result;
  }

  lemma OneMoreContinuation(run: seq<Legal>, j: nat, i: nat)
    requires j < i < |run| && OnlyContinued(run, j, i)
    requires IsMessage(run[i]) ==> !Accepted(Frame(run[i])) || Continues(Frame(run[i]))
    ensures OnlyContinued(run, j, i + 1)
    ensures Continuations(run, j, i + 1)
            == Continuations(run, j, i) + (if IsMessage(run[i]) && Continues(Frame(run[i])) then 1 else 0)
  {
    hide Accepted, Continues;
  }

  /** The block of a response that starts at `off`, after the first one. */
  function Slice(q: u8, r: seq<u8>, off: nat): seq<u8>
    requires off <= |r|
  {
    var end := off + Min(RSP_DATA_CAP, |r| - off);
    Block(q, r[off..end], if end >= |r| then LEVEL_END else LEVEL_MIDDLE)
  }

  lemma ChunkIsSlice(s: Ccid, q: u8)
    requires ChainInv(s) && s.chainActive
    ensures Block(q, s.chain[s.chainOff..s.chainOff + ChunkLen(s)], ChunkLevel(s)) == Slice(q, s.chain, s.chainOff)
  {
    hide Block;
  }

  /** Step `n` is answered by the next block of `r`, the response of step `j`, after one block for each continuation between. */
  ghost predicate IsNextSlice(run: seq<Legal>, n: nat, j: nat, r: seq<u8>)
    requires n < |run| && IsMessage(run[n])
  {
    && j < n && Produces(run, j, r) && OnlyContinued(run, j, n)
    && RSP_DATA_CAP * (1 + Continuations(run, j, n)) < |r|
    && Result(run, n).1 == [Sent(Slice(Frame(run[n])[SEQ], r, RSP_DATA_CAP * (1 + Continuations(run, j, n))))]
  }

  /**
    * A continuation is answered either by an error or by the next slice of the response of the latest
    * executed message: never by older bytes, never twice by the same ones.
    */
  lemma ContinuationIsNeverStale(run: seq<Legal>, n: nat)
    requires n < |run| && IsMessage(run[n]) && Continues(Frame(run[n]))
    ensures || Result(run, n).1 == [Sent(CommandFailed(XFR, Frame(run[n])[SEQ], Level(Before(run, n)), ERR_BAD_LEVEL))]
            || exists j, r :: IsNextSlice(run, n, j, r)
  {
    hide HandleBulk, Accepted, IsContinuation, Block, CommandFailed, Slice, ChunkLen, ChunkLevel, Continues,
      Produces, OnlyContinued;
    MessageStep(run, n);
    var s := Before(run, n);
    MessageChain(s, Frame(run[n]), run[n].env);
    if s.chainActive {
      var j := PendingResponse(run, n);
      ChunkIsSlice(s, Frame(run[n])[SEQ]);
      assert IsNextSlice(run, n, j, s.chain);
    }
  }
}
