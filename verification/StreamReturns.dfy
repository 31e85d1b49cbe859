/**
 Which transfers have been closed for good, who is closing the last one, and which window belongs to whom: a second
 invariant of the stream system, again with no assumption on the schedule.
 */
module StreamReturns {
  import opened Base
  import opened WindowContract
  import opened Placement
  import opened TransferProtocol
  import opened StreamSystem
  import opened StreamInvariant
  import opened StreamRuns

  predicate Returned(x: Transfer) { x.closePc.CloseReturned? }

  predicate AllReturned(s: System) {
    forall i | 0 <= i < |s.transfers| :: Returned(s.transfers[i])
  }

  function Last(s: System): Transfer
    requires s.transfers != []
  {
    s.transfers[|s.transfers| - 1]
  }

  /** The Close of every transfer but the last has returned, and of the last one too before the window is reset
      for its successor. */
  predicate HandoverInv(s: System) {
    && (forall i | 0 <= i < |s.transfers| - 1 :: Returned(s.transfers[i]))
    && (s.reader.Start? || (s.hasBuffer && (s.reader.DropTransfer? || s.reader.Reset?)) ==> AllReturned(s))
    && (s.hasBuffer && s.transfers != [] ==>
          && (Last(s).closePc.CloseNone? || Returned(Last(s)) || s.reader.Closing?)
          && (s.current.None? ==> s.reader.Reset? || s.reader.Start?))
  }

  /** A transfer without a buffer was started after Close had nilled it, and its reader has not got further. */
  predicate BufferInv(s: System) {
    forall i | 0 <= i < |s.transfers| ::
      !s.transfers[i].hasBuffer ==> i == |s.transfers| - 1 && !s.hasBuffer && s.reader.ProbeEnd?
  }

  predicate NoneCrashed(s: System) {
    !s.crashed ==> forall i | 0 <= i < |s.transfers| :: !s.transfers[i].crashed
  }

  /** An open connection is the current transfer's, or somebody is about to close it. */
  predicate HeldInv(s: System) {
    && (s.reader.DropTransfer? || s.closer.ForgetTransfer? ==> s.transfers != [] && !Last(s).closePc.CloseNone?)
    && forall i | 0 <= i < |s.transfers| && !s.transfers[i].connectionClosed ::
         && (s.transfers[i].closePc.CloseNone? ==> s.current == Some(i))
         && (s.transfers[i].closePc.CloseConn? ==>
               (s.reader.Closing? && s.reader.i == i) || s.closer == ClosingTransfer(i))
  }

  /** What the closer's looks at `stream.transfer` leave possible. */
  predicate CloserInv(s: System) {
    && (s.closer.CallTransferClose? || s.closer.ClosingTransfer? || s.closer.ForgetTransfer? ==>
          s.transfers != [] && !s.reader.Start?)
    && (s.closer.ClosingTransfer? ==> s.closer.i == |s.transfers| - 1)
    && (s.closer.CallTransferClose? && s.current.None? ==> s.reader.Reset?)
    && (s.reader.CallClose? && s.current.None? ==> !s.hasBuffer)
    && (s.closer == Done(true) && s.current.Some? ==>
          s.reader.ProbeEnd? && s.transfers != [] && Last(s).closePc.CloseNone?)
  }

  /** The window's base is its owner's start; an owner is set anew only after a reset. */
  predicate OwnerInv(env: Env, s: System) {
    && (s.owner.Some? ==> s.owner.value < |s.transfers| && s.window.base == s.transfers[s.owner.value].start)
    && (s.reader.Start? ==> s.owner.None? && s.window.base == StartPosition(env.size, s.reader.q.seek))
  }

  predicate ReturnsInv(s: System) {
    HandoverInv(s) && BufferInv(s) && HeldInv(s) && CloserInv(s) && NoneCrashed(s)
  }

  lemma NewSystemReturns(env: Env)
    ensures ReturnsInv(NewSystem(env)) && OwnerInv(env, NewSystem(env))
  {
  }

  // ----- the reader -----

  lemma ReaderKeepsHandover(env: Env, s: System, t: System)
    requires FieldsInv(s) && HandoverInv(s) && ReaderEdge(s, t) && Moves(env, s, ReaderMove(s), t)
    ensures HandoverInv(t)
  {
    match s.reader
    case CallClose(_) =>
    case Closing(_, _) =>
    case Start(_) =>
    case _ =>
  }

  lemma ReaderKeepsBuffers(env: Env, s: System, t: System)
    requires FieldsInv(s) && BufferInv(s) && ReaderEdge(s, t) && Moves(env, s, ReaderMove(s), t)
    ensures BufferInv(t)
  {
    match s.reader
    case CallClose(_) =>
    case Closing(_, _) =>
    case Start(_) =>
    case _ =>
  }

  lemma ReaderKeepsHeld(env: Env, s: System, t: System)
    requires FieldsInv(s) && HeldInv(s) && CloserInv(s) && ReaderEdge(s, t) && Moves(env, s, ReaderMove(s), t)
    ensures HeldInv(t)
  {
    if s.reader.CallClose? || s.reader.Closing? || s.reader.Start? {
      ReaderMovingKeepsHeld(env, s, t);
    }
  }

  lemma ReaderMovingKeepsHeld(env: Env, s: System, t: System)
    requires FieldsInv(s) && HeldInv(s) && CloserInv(s) && ReaderEdge(s, t) && Moves(env, s, ReaderMove(s), t)
    requires s.reader.CallClose? || s.reader.Closing? || s.reader.Start?
    ensures HeldInv(t)
  {
    match s.reader
    case CallClose(_) =>
    case Closing(_, _) =>
    case Start(_) =>
  }

  lemma ReaderKeepsCloser(env: Env, s: System, t: System)
    requires FieldsInv(s) && CloserInv(s) && ReaderEdge(s, t) && Moves(env, s, ReaderMove(s), t)
    ensures CloserInv(t)
  {
    match s.reader
    case CallClose(_) =>
    case Closing(_, _) =>
    case Start(_) =>
    case _ =>
  }

  /** Neither the reader nor the closer crashes a transfer. */
  lemma MoveKeepsNoneCrashed(env: Env, s: System, m: Move, t: System)
    requires NoneCrashed(s) && !s.crashed && Moves(env, s, m, t)
    ensures NoneCrashed(t)
  {
  }

  // ----- the closer -----

  lemma CloserKeepsHandover(env: Env, s: System, t: System)
    requires FieldsInv(s) && HandoverInv(s) && CloserEdge(s, t) && Moves(env, s, CloserMove(s), t)
    ensures HandoverInv(t) && (BufferInv(s) ==> BufferInv(t))
  {
  }

  lemma CloserKeepsHeld(env: Env, s: System, t: System)
    requires FieldsInv(s) && HeldInv(s) && CloserInv(s) && CloserEdge(s, t) && Moves(env, s, CloserMove(s), t)
    ensures HeldInv(t)
  {
    match s.closer
    case CallTransferClose =>
    case ClosingTransfer(_) =>
    case _ =>
  }

  lemma CloserKeepsCloser(env: Env, s: System, t: System)
    requires FieldsInv(s) && CloserInv(s) && CloserEdge(s, t) && Moves(env, s, CloserMove(s), t)
    ensures CloserInv(t)
  {
    match s.closer
    case CallTransferClose =>
    case ClosingTransfer(_) =>
    case _ =>
  }

  // ----- the goroutines -----

  /** A goroutine's action touches one transfer, whose Close, buffer and start stay as they are, and of the stream
      nothing but the window's bytes. */
  predicate GoroutineEdge(s: System, i: nat, t: System) {
    && i < |s.transfers| == |t.transfers|
    && t.transfers == s.transfers[i := t.transfers[i]]
    && t.transfers[i].closePc == s.transfers[i].closePc && t.transfers[i].hasBuffer == s.transfers[i].hasBuffer
    && t.transfers[i].start == s.transfers[i].start && (!t.crashed ==> t.transfers[i].crashed == s.transfers[i].crashed)
    && (s.transfers[i].connectionClosed ==> t.transfers[i].connectionClosed)
    && t.reader == s.reader && t.closer == s.closer && t.current == s.current && t.owner == s.owner
    && t.hasBuffer == s.hasBuffer && t.closed == s.closed && t.window.base == s.window.base
  }

  lemma StarterKeepsBuffer(x: Transfer, e: Event, y: Transfer)
    requires StartStep(x, e, y)
    ensures y.hasBuffer == x.hasBuffer && (!e.Crash? ==> y.crashed == x.crashed)
  {
    match x.startPc
    case Select =>
    case CloseConnection =>
    case Mark(_) =>
    case _ =>
  }

  lemma CopierKeepsBuffer(x: Transfer, e: Event, y: Transfer)
    requires CopyStep(x, e, y)
    ensures y.hasBuffer == x.hasBuffer && (!e.Crash? ==> y.crashed == x.crashed)
  {
  }

  lemma GoroutineTakesEdge(env: Env, s: System, a: Action, t: System)
    requires s.window.Valid() && SystemStep(env, s, a, t) && (a.Starter? || a.Copier?)
    ensures GoroutineEdge(s, a.i, t)
  {
    hide StartStep, CopyStep;
    if a.Starter? {
      StarterOnlyCloses(s.transfers[a.i], a.e, t.transfers[a.i]);
      StarterKeepsBuffer(s.transfers[a.i], a.e, t.transfers[a.i]);
    } else {
      CopierOnlyReads(s.transfers[a.i], a.e, t.transfers[a.i]);
      CopierKeepsBuffer(s.transfers[a.i], a.e, t.transfers[a.i]);
    }
  }

  lemma GoroutineKeepsReturns(s: System, i: nat, t: System)
    requires ReturnsInv(s) && !s.crashed && GoroutineEdge(s, i, t)
    ensures ReturnsInv(t)
  {
  }

  // ----- every step -----

  lemma StepKeepsReturns(env: Env, s: System, a: Action, t: System)
    requires SystemInv(env, s) && ReturnsInv(s) && SystemStep(env, s, a, t)
    ensures ReturnsInv(t)
  {
    hide ReaderStep, CloserStep, StartStep, CopyStep, ReaderEdge, CloserEdge, GoroutineEdge, Moves;
    hide TransferProtocol.Inv, ConnectionsInv, HandoverInv, BufferInv, HeldInv, CloserInv, NoneCrashed;
    if a.Reader? {
      ReaderTakesEdge(env, s, a.choice, t);
      ReaderMoves(env, s, a.choice, t);
      ReaderKeepsHandover(env, s, t);
      ReaderKeepsBuffers(env, s, t);
      ReaderKeepsHeld(env, s, t);
      ReaderKeepsCloser(env, s, t);
      MoveKeepsNoneCrashed(env, s, ReaderMove(s), t);
    } else if a.Closer? {
      CloserTakesEdge(s, a.choice, t);
      CloserMoves(env, s, a.choice, t);
      CloserKeepsHandover(env, s, t);
      CloserKeepsHeld(env, s, t);
      CloserKeepsCloser(env, s, t);
      MoveKeepsNoneCrashed(env, s, CloserMove(s), t);
    } else {
      GoroutineTakesEdge(env, s, a, t);
      GoroutineKeepsReturns(s, a.i, t);
    }
  }

  lemma {:induction false} ReturnsOverRun(env: Env, ss: seq<System>, acts: seq<Action>, k: nat)
    requires IsSystemRun(env, ss, acts) && k < |ss|
    ensures SystemInv(env, ss[k]) && ReturnsInv(ss[k])
  {
    hide SystemStep, SystemInv, ReturnsInv;
    InvOverSystemRun(env, ss, acts, k);
    if k == 0 {
      NewSystemReturns(env);
    } else {
      ReturnsOverRun(env, ss, acts, k - 1);
      assert StepAt(env, ss, acts, k - 1);
      StepKeepsReturns(env, ss[k - 1], acts[k - 1], ss[k]);
    }
  }
}
