/**
 Writes of superseded transfers: when they can happen at all, and what they do to the window they land in.  The
 guard of each is a state of the superseded transfer that can be seen when the window is reset.
 */
module StreamStale {
  import opened Base
  import opened WindowContract
  import opened Placement
  import opened TransferProtocol
  import opened StreamSystem
  import opened StreamInvariant
  import opened StreamRuns
  import opened StreamReturns
  import opened StreamSteps

  /** `copyData` is inside connection.Read with body left, or it holds a chunk. */
  predicate Armed(x: Transfer) {
    x.copyPc.Writing? || (x.copyPc.Reading? && x.position < |x.body|)
  }

  /** Closed for good, and no chunk will come. */
  predicate Quiet(x: Transfer) { Returned(x) && !Armed(x) }

  lemma StarterKeepsQuiet(x: Transfer, e: Event, y: Transfer)
    requires Quiet(x) && StartStep(x, e, y)
    ensures Quiet(y) && !e.ChunkWrite?
  {
    match x.startPc
    case Select =>
    case CloseConnection =>
    case Mark(_) =>
    case _ =>
  }

  lemma CopierKeepsQuiet(x: Transfer, e: Event, y: Transfer)
    requires TransferProtocol.Inv(x) && Quiet(x) && CopyStep(x, e, y)
    ensures Quiet(y) && !e.ChunkWrite?
  {
  }

  lemma StepKeepsQuiet(env: Env, s: System, a: Action, t: System, i: nat)
    requires SystemInv(env, s) && SystemStep(env, s, a, t) && i < |s.transfers| && Quiet(s.transfers[i])
    ensures i < |t.transfers| && Quiet(t.transfers[i])
    ensures a.Copier? && a.i == i ==> !a.e.ChunkWrite?
  {
    hide StartStep, CopyStep, ReaderStep, CloserStep, FieldsInv, ConnectionsInv;
    if a.Reader? {
      ReaderMoves(env, s, a.choice, t);
    } else if a.Closer? {
      CloserMoves(env, s, a.choice, t);
    } else if a.i == i {
      if a.Starter? {
        StarterKeepsQuiet(s.transfers[i], a.e, t.transfers[i]);
      } else {
        CopierKeepsQuiet(s.transfers[i], a.e, t.transfers[i]);
      }
    }
  }

  lemma {:induction false} QuietForGood(env: Env, ss: seq<System>, acts: seq<Action>, j: nat, k: nat, i: nat)
    requires IsSystemRun(env, ss, acts) && j <= k <= |acts| && i < |ss[j].transfers| && Quiet(ss[j].transfers[i])
    ensures i < |ss[k].transfers| && Quiet(ss[k].transfers[i])
    ensures k < |acts| && acts[k].Copier? && acts[k].i == i ==> !acts[k].e.ChunkWrite?
  {
    hide SystemStep, SystemInv, Quiet;
    if j < k {
      QuietForGood(env, ss, acts, j, k - 1, i);
      InvOverSystemRun(env, ss, acts, k - 1);
      assert StepAt(env, ss, acts, k - 1);
      StepKeepsQuiet(env, ss[k - 1], acts[k - 1], ss[k], i);
    }
    if k < |acts| {
      InvOverSystemRun(env, ss, acts, k);
      assert StepAt(env, ss, acts, k);
      StepKeepsQuiet(env, ss[k], acts[k], ss[k + 1], i);
    }
  }

  // ----- when a stale chunk can come -----

  ghost predicate Extends(env: Env, ss: seq<System>, acts: seq<Action>, ts: seq<System>, bcts: seq<Action>) {
    IsSystemRun(env, ts, bcts) && ss <= ts && acts <= bcts
  }

  predicate StaleChunkBy(ss: seq<System>, acts: seq<Action>, k: nat, i: nat) {
    k < |ss| && k < |acts| && StaleChunk(ss[k], acts[k]) && acts[k].i == i
  }

  /** In some continuation of this run bytes of transfer `i` land in a window that is not its own. */
  ghost predicate StaleChunkAhead(env: Env, ss: seq<System>, acts: seq<Action>, i: nat) {
    exists ts: seq<System>, bcts: seq<Action>, k: nat ::
      Extends(env, ss, acts, ts, bcts) && |acts| <= k && StaleChunkBy(ts, bcts, k, i)
  }

  /** The buffer takes bytes at all. */
  predicate Takes(s: System) { !s.window.closed && s.window.capacity > 0 }

  lemma StepTakes(env: Env, s: System, a: Action, t: System)
    requires s.window.Valid() && SystemStep(env, s, a, t)
    ensures Takes(t) ==> Takes(s)
    ensures a.Copier? && a.e.ChunkWrite? && a.e.n > 0 ==> Takes(s)
  {
  }

  lemma {:induction false} TookBefore(env: Env, ss: seq<System>, acts: seq<Action>, j: nat, k: nat)
    requires IsSystemRun(env, ss, acts) && j <= k <= |acts| && Takes(ss[k])
    ensures Takes(ss[j])
    decreases k - j
  {
    if j < k {
      assert StepAt(env, ss, acts, k - 1);
      StepTakes(env, ss[k - 1], acts[k - 1], ss[k]);
      TookBefore(env, ss, acts, j, k - 1);
    }
  }

  /** The window is about to be reset, and the buffer is there. */
  predicate AtReset(s: System) { !s.crashed && s.reader.Reset? && s.hasBuffer }

  /** The run extended by the reset. */
  lemma ResetNow(env: Env, ss: seq<System>, acts: seq<Action>) returns (ts: seq<System>, bcts: seq<Action>)
    requires IsSystemRun(env, ss, acts) && AtReset(ss[|acts|])
    ensures Extends(env, ss, acts, ts, bcts) && |bcts| == |acts| + 1
    ensures var s := ss[|acts|]; var q := s.reader.q;
            var w := s.window.Reset(StartPosition(env.size, q.seek));
            ts[|bcts|] == s.(window := w, owner := None, reader := Start(q))
  {
    hide StepAt;
    InvOverSystemRun(env, ss, acts, |acts|);
    var s := ss[|acts|];
    var q := s.reader.q;
    var t := s.(window := s.window.Reset(StartPosition(env.size, q.seek)), owner := None, reader := Start(q));
    ts, bcts := Extend(env, ss, acts, Reader(Go), t);
  }

  /** An armed transfer in a read gets a byte of its body in hand. */
  lemma ArmedReads(env: Env, ss: seq<System>, acts: seq<Action>, i: nat) returns (ts: seq<System>, bcts: seq<Action>)
    requires IsSystemRun(env, ss, acts) && !ss[|acts|].crashed && i < |ss[|acts|].transfers|
    requires var x := ss[|acts|].transfers[i]; Armed(x) && x.copyPc.Reading? && !x.crashed
    ensures Extends(env, ss, acts, ts, bcts)
    ensures var s := ss[|acts|]; var x := s.transfers[i];
            ts[|bcts|] == SetTransfer(s, i, x.(position := x.position + 1,
                                               copyPc := Writing(x.body[x.position..x.position + 1], NoError)))
  {
    hide StepAt;
    InvOverSystemRun(env, ss, acts, |acts|);
    var s := ss[|acts|];
    var x := s.transfers[i];
    var y := x.(position := x.position + 1, copyPc := Writing(x.body[x.position..x.position + 1], NoError));
    ts, bcts := Extend(env, ss, acts, Copier(i, ReadReturn(1, NoError)), SetTransfer(s, i, y));
  }

  /** A transfer with a chunk in hand writes its first byte into an empty window. */
  lemma ChunkLands(env: Env, ss: seq<System>, acts: seq<Action>, i: nat) returns (ts: seq<System>, bcts: seq<Action>)
    requires IsSystemRun(env, ss, acts)
    requires var s := ss[|acts|];
             && !s.crashed && Takes(s) && s.window.data == [] && s.owner.None? && i < |s.transfers|
             && s.transfers[i].copyPc.Writing? && s.transfers[i].hasBuffer && !s.transfers[i].crashed
    ensures Extends(env, ss, acts, ts, bcts) && StaleChunkBy(ts, bcts, |acts|, i)
  {
    hide StepAt;
    InvOverSystemRun(env, ss, acts, |acts|);
    var s := ss[|acts|];
    var x := s.transfers[i];
    assert TransferProtocol.Inv(x);
    var chunk := x.copyPc.chunk;
    var failed := |chunk| > 1;
    var next := if failed then Send(WriteFailed) else AfterRead(x.copyPc.error);
    var y := x.(written := x.written + chunk[..1], copyPc := next);
    var t := SetTransfer(s, i, y).(window := s.window.(data := s.window.data + chunk[..1]));
    ts, bcts := Extend(env, ss, acts, Copier(i, ChunkWrite(1, failed)), t);
  }

  lemma ArmedGetsChunk(env: Env, ss: seq<System>, acts: seq<Action>, i: nat)
    returns (ts: seq<System>, bcts: seq<Action>)
    requires IsSystemRun(env, ss, acts) && i < |ss[|acts|].transfers|
    requires AtReset(ss[|acts|]) && Takes(ss[|acts|]) && Armed(ss[|acts|].transfers[i])
    ensures Extends(env, ss, acts, ts, bcts)
    ensures var s := ts[|bcts|];
            && !s.crashed && Takes(s) && s.window.data == [] && s.owner.None? && i < |s.transfers|
            && s.transfers[i].copyPc.Writing? && s.transfers[i].hasBuffer && !s.transfers[i].crashed
  {
    hide StepAt;
    ReturnsOverRun(env, ss, acts, |acts|);
    ts, bcts := ResetNow(env, ss, acts);
    if ss[|acts|].transfers[i].copyPc.Reading? {
      ts, bcts := ArmedReads(env, ts, bcts, i);
    }
  }

  lemma StaleChunkTaken(env: Env, ss: seq<System>, acts: seq<Action>, k: nat, i: nat)
    requires IsSystemRun(env, ss, acts) && StaleChunkBy(ss, acts, k, i)
    ensures Takes(ss[k])
  {
    assert StepAt(env, ss, acts, k);
    StepTakes(env, ss[k], acts[k], ss[k + 1]);
  }

  /** Exactly when a transfer superseded by this reset can still put bytes into another's window: its `copyData`
      is then inside a read with body left or holds a chunk, and the buffer takes bytes. */
  lemma StaleChunkAheadIff(env: Env, ss: seq<System>, acts: seq<Action>, i: nat)
    requires IsSystemRun(env, ss, acts) && AtReset(ss[|acts|]) && i < |ss[|acts|].transfers|
    ensures StaleChunkAhead(env, ss, acts, i) <==> Armed(ss[|acts|].transfers[i]) && Takes(ss[|acts|])
  {
    hide StepAt, Armed, SystemInv;
    ReturnsOverRun(env, ss, acts, |acts|);
    if Armed(ss[|acts|].transfers[i]) && Takes(ss[|acts|]) {
      var ts, bcts := ArmedGetsChunk(env, ss, acts, i);
      var us, ccts := ChunkLands(env, ts, bcts, i);
      assert StaleChunkBy(us, ccts, |bcts|, i);
    }
    if StaleChunkAhead(env, ss, acts, i) {
      var ts, bcts, k: nat :| Extends(env, ss, acts, ts, bcts) && |acts| <= k && StaleChunkBy(ts, bcts, k, i);
      assert ts[|acts|] == ss[|acts|];
      if !Armed(ss[|acts|].transfers[i]) {
        QuietForGood(env, ts, bcts, |acts|, k, i);
      }
      StaleChunkTaken(env, ts, bcts, k, i);
      TookBefore(env, ts, bcts, |acts|, k);
    }
  }

  // ----- runs in which none can come -----

  /** No transfer present at the reset is armed. */
  predicate CleanReset(s: System, a: Action) {
    a.Reader? && s.reader.Reset? && s.hasBuffer ==>
      forall i | 0 <= i < |s.transfers| :: !Armed(s.transfers[i])
  }

  ghost predicate CleanRun(ss: seq<System>, acts: seq<Action>) {
    |ss| == |acts| + 1 && forall k | 0 <= k < |acts| :: CleanReset(ss[k], acts[k])
  }

  predicate SupersededQuiet(s: System) {
    forall i | 0 <= i < |s.transfers| && s.owner != Some(i) :: Quiet(s.transfers[i])
  }

  lemma ReaderKeepsOwner(env: Env, s: System, c: Choice, t: System)
    requires SystemInv(env, s) && OwnerInv(env, s) && !s.crashed && ReaderStep(env, s, c, t)
    ensures OwnerInv(env, t)
  {
    if !s.reader.Reset? && !s.reader.Start? {
      hide ReaderStep, TransfersInv, ConnectionsInv;
      ReaderMoves(env, s, c, t);
      ReaderTakesEdge(env, s, c, t);
      ReaderKeepsBytes(env, s, c, t);
    }
  }

  lemma StepKeepsOwner(env: Env, s: System, a: Action, t: System)
    requires SystemInv(env, s) && OwnerInv(env, s) && SystemStep(env, s, a, t)
    ensures OwnerInv(env, t)
  {
    hide ReaderStep, CloserStep, StartStep, CopyStep, ConnectionsInv, TransferProtocol.Inv;
    if a.Reader? {
      ReaderKeepsOwner(env, s, a.choice, t);
    } else if a.Closer? {
      CloserMoves(env, s, a.choice, t);
      CloserKeepsBytes(s, a.choice, t);
    } else {
      GoroutineTakesEdge(env, s, a, t);
    }
  }

  lemma StepKeepsSupersededQuiet(env: Env, s: System, a: Action, t: System)
    requires SystemInv(env, s) && ReturnsInv(s) && OwnerInv(env, s) && SupersededQuiet(s)
    requires SystemStep(env, s, a, t) && CleanReset(s, a)
    ensures SupersededQuiet(t)
  {
    hide ReaderStep, CloserStep, StartStep, CopyStep, ConnectionsInv, TransferProtocol.Inv, Armed;
    if a.Reader? {
      ReaderMoves(env, s, a.choice, t);
      ReaderTakesEdge(env, s, a.choice, t);
    } else if a.Closer? {
      CloserMoves(env, s, a.choice, t);
      CloserKeepsBytes(s, a.choice, t);
    } else {
      GoroutineTakesEdge(env, s, a, t);
    }
    forall i: nat | i < |s.transfers| && Quiet(s.transfers[i]) ensures i < |t.transfers| && Quiet(t.transfers[i]) {
      StepKeepsQuiet(env, s, a, t, i);
    }
  }

  lemma {:induction false} QuietOverCleanRun(env: Env, ss: seq<System>, acts: seq<Action>, k: nat)
    requires IsSystemRun(env, ss, acts) && CleanRun(ss, acts) && k <= |acts|
    ensures OwnerInv(env, ss[k]) && SupersededQuiet(ss[k])
  {
    hide SystemStep, SystemInv, ReturnsInv, OwnerInv, SupersededQuiet;
    if k == 0 {
      NewIsQuiet(env);
    } else {
      QuietOverCleanRun(env, ss, acts, k - 1);
      ReturnsOverRun(env, ss, acts, k - 1);
      assert StepAt(env, ss, acts, k - 1);
      StepKeepsOwner(env, ss[k - 1], acts[k - 1], ss[k]);
      StepKeepsSupersededQuiet(env, ss[k - 1], acts[k - 1], ss[k]);
    }
  }

  lemma NewIsQuiet(env: Env)
    ensures OwnerInv(env, NewSystem(env)) && SupersededQuiet(NewSystem(env))
  {
  }

  /** A run in which no reset finds an armed transfer has no stale chunk, so every read in it agrees with the
      remote file (ReadsAgreeWithRemote). */
  lemma CleanRunsAgree(env: Env, ss: seq<System>, acts: seq<Action>)
    requires IsSystemRun(env, ss, acts) && CleanRun(ss, acts)
    ensures NoStaleChunk(ss, acts)
    ensures forall k | 0 <= k < |ss| :: AnswersFaithful(env, ss[k])
  {
    forall k: nat | k < |acts| ensures !StaleChunk(ss[k], acts[k]) {
      QuietOverCleanRun(env, ss, acts, k);
      if StaleChunk(ss[k], acts[k]) {
        assert StepAt(env, ss, acts, k);
        QuietForGood(env, ss, acts, k, k, acts[k].i);
      }
    }
    forall k: nat | k < |ss| ensures AnswersFaithful(env, ss[k]) {
      ReadsAgreeWithRemote(env, ss, acts, k);
    }
  }
}
