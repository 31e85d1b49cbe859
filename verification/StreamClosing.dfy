/** What a Close of the stream leaves open, and runs in which it does not overlap a ReadAt. */
module StreamClosing {
  import opened Base
  import opened TransferProtocol
  import opened StreamSystem
  import opened StreamInvariant
  import opened StreamRuns
  import opened StreamReturns
  import opened StreamSteps
  import opened StreamCrashes

  // ----- what Close leaves open -----

  /** Close has returned with the buffer closed, and this step of ReadAt starts a transfer. */
  predicate StartsAfterClose(s: System, a: Action) {
    a.Reader? && s.reader.Start? && s.closer == Done(true)
  }

  ghost predicate StartedAfterClose(ss: seq<System>, acts: seq<Action>) {
    |ss| == |acts| + 1 && exists j :: 0 <= j < |acts| && StartsAfterClose(ss[j], acts[j])
  }

  lemma StepAfterClose(env: Env, s: System, a: Action, t: System)
    requires SystemInv(env, s) && ReturnsInv(s) && SystemStep(env, s, a, t)
    ensures s.closer == Done(true) ==> t.closer == Done(true)
    ensures t.closer == Done(true) ==>
              (t.current.Some? <==> StartsAfterClose(s, a) || (s.closer == Done(true) && s.current.Some?))
  {
    hide ReaderStep, CloserStep, StartStep, CopyStep, ConnectionsInv, TransferProtocol.Inv, HandoverInv, HeldInv;
    hide BufferInv;
    if a.Reader? {
      ReaderTakesEdge(env, s, a.choice, t);
    } else if a.Closer? {
      CloserTakesEdge(s, a.choice, t);
    } else {
      GoroutineTakesEdge(env, s, a, t);
    }
  }

  lemma {:induction false} CurrentAfterCloseIff(env: Env, ss: seq<System>, acts: seq<Action>, k: nat)
    requires IsSystemRun(env, ss, acts) && k <= |acts|
    ensures ss[k].closer != Done(true) ==> forall j | 0 <= j < k :: ss[j].closer != Done(true)
    ensures ss[k].closer == Done(true) ==>
              (ss[k].current.Some? <==> exists j :: 0 <= j < k && StartsAfterClose(ss[j], acts[j]))
  {
    hide SystemStep, SystemInv, ReturnsInv;
    if k > 0 {
      CurrentAfterCloseIff(env, ss, acts, k - 1);
      ReturnsOverRun(env, ss, acts, k - 1);
      assert StepAt(env, ss, acts, k - 1);
      StepAfterClose(env, ss[k - 1], acts[k - 1], ss[k]);
      assert StartsAfterClose(ss[k - 1], acts[k - 1]) ==> ss[k - 1].closer == Done(true);
    }
  }

  /** ReadAt is inside its own Close of the last transfer and has yet to close the connection. */
  predicate ReaderStillCloses(s: System) {
    s.reader.Closing? && s.reader.i < |s.transfers| && s.transfers[s.reader.i].closePc.CloseConn?
  }

  lemma OpenIffCurrent(env: Env, s: System)
    requires SystemInv(env, s) && ReturnsInv(s) && s.closer == Done(true)
    ensures !AllClosed(s) <==> s.current.Some? || ReaderStillCloses(s)
  {
    hide HandoverInv, BufferInv, DataInv, ReturnInv;
    if i: nat :| i < |s.transfers| && !s.transfers[i].connectionClosed {
      assert TransferProtocol.Inv(s.transfers[i]);
    }
    if s.current.Some? {
      assert TransferProtocol.Inv(Last(s));
    }
    if ReaderStillCloses(s) {
      assert TransferProtocol.Inv(s.transfers[s.reader.i]);
    }
  }

  /** Exactly what a Close whose buffer closed can leave open: the connection of a transfer that ReadAt, past its
      reset, starts only then, which nobody closes any more; or one that ReadAt itself is just about to close. */
  lemma OpenAfterCloseIff(env: Env, ss: seq<System>, acts: seq<Action>)
    requires IsSystemRun(env, ss, acts) && ss[|acts|].closer == Done(true)
    ensures !AllClosed(ss[|acts|]) <==> StartedAfterClose(ss, acts) || ReaderStillCloses(ss[|acts|])
  {
    hide SystemStep, SystemInv, ReturnsInv, AllClosed, ReaderStillCloses;
    ReturnsOverRun(env, ss, acts, |acts|);
    CurrentAfterCloseIff(env, ss, acts, |acts|);
    OpenIffCurrent(env, ss[|acts|]);
  }

  // ----- what Close answers -----

  /** The buffer's own Close fails. */
  predicate Refuses(s: System, a: Action) {
    s.closer.CloseBuffer? && a == Closer(Says(false))
  }

  lemma StepRefuses(env: Env, s: System, a: Action, t: System)
    requires s.window.Valid() && SystemStep(env, s, a, t)
    ensures t.closer == Done(false) <==> s.closer == Done(false) || Refuses(s, a)
    ensures s.closer.CloseBuffer? && a == Closer(Says(true)) ==> t.window.closed && t.closer.DropBuffer?
  {
    hide StartStep, CopyStep, ReaderStep, CloseStep;
    if a.Reader? {
      ReaderTakesEdge(env, s, a.choice, t);
    } else if a.Closer? {
      match s.closer
      case CloseBuffer =>
      case CallTransferClose =>
      case ClosingTransfer(_) =>
      case _ =>
    } else {
      GoroutineTakesEdge(env, s, a, t);
    }
  }

  ghost predicate RefusedBy(ss: seq<System>, acts: seq<Action>, k: nat) {
    k <= |acts| && k <= |ss| && exists j :: 0 <= j < k && Refuses(ss[j], acts[j])
  }

  /** Over every run Close gives up early exactly if the buffer refused to close. */
  lemma {:induction false} GivesUpIffRefused(env: Env, ss: seq<System>, acts: seq<Action>, k: nat)
    requires IsSystemRun(env, ss, acts) && k <= |acts|
    ensures ss[k].closer == Done(false) <==> RefusedBy(ss, acts, k)
  {
    hide SystemStep;
    if k > 0 {
      GivesUpIffRefused(env, ss, acts, k - 1);
      assert StepAt(env, ss, acts, k - 1);
      StepRefuses(env, ss[k - 1], acts[k - 1], ss[k]);
    }
  }

  /** Close goes on, whatever the buffer answers, unless it waits for a `start`. */
  lemma CloserGoesOn(s: System, c: Choice)
    requires FieldsInv(s) && !s.closer.Done? && (if s.closer.CloseBuffer? then c.Says? else c.Go?)
    requires s.closer.ClosingTransfer? ==>
               !s.transfers[s.closer.i].closePc.CloseWait? || s.transfers[s.closer.i].waiting == 0
    ensures exists t: System :: CloserStep(s, c, t)
  {
    var t := s;
    match s.closer {
      case NotClosing => t := s.(closed := true, closer := CancelContext);
      case CancelContext => t := s.(closer := LookAtBuffer);
      case LookAtBuffer => t := s.(closer := if s.hasBuffer then CloseBuffer else LookAtTransfer);
      case CloseBuffer =>
        t := if c.yes then s.(window := s.window.(closed := true), closer := DropBuffer) else s.(closer := Done(false));
      case DropBuffer => t := s.(hasBuffer := false, closer := LookAtTransfer);
      case LookAtTransfer => t := s.(closer := if s.current.Some? then CallTransferClose else Done(true));
      case CallTransferClose =>
        if s.current.None? || s.current.value >= |s.transfers| {
          t := Crashed(s);
        } else {
          var i := s.current.value;
          t := if s.transfers[i].closePc.CloseNone? then
                 SetTransfer(s, i, s.transfers[i].(closePc := CloseConn)).(closer := ClosingTransfer(i))
               else s.(closer := ForgetTransfer);
        }
      case ClosingTransfer(i) =>
        t := if s.transfers[i].closePc.CloseReturned? then s.(closer := ForgetTransfer) else ClosedOn(s, i);
      case ForgetTransfer => t := s.(current := None, closer := Done(true));
    }
    assert CloserStep(s, c, t);
  }

  // ----- orderly runs -----

  /** Calls of ReadAt and Close do not overlap, and no `start` goroutine nils its connection while its
      `copyData` stands before the load of it. */
  predicate Orderly(s: System, a: Action) {
    && (a.Reader? ==> s.closer.NotClosing? || s.closer.Done?)
    && (a.Closer? ==> s.reader.Idle?)
    && (a.Starter? && a.i < |s.transfers| && s.transfers[a.i].startPc.DropConnection? ==>
          !s.transfers[a.i].copyPc.Load?)
  }

  ghost predicate OrderlyRun(ss: seq<System>, acts: seq<Action>) {
    |ss| == |acts| + 1 && forall k | 0 <= k < |acts| :: Orderly(ss[k], acts[k])
  }

  /** Once Close is under way ReadAt does no more than find the stream closed. */
  predicate Apart(s: System) { s.closer.NotClosing? || s.reader.Idle? || s.reader.TestClosed? }

  lemma StarterDrops(x: Transfer, e: Event, y: Transfer)
    requires StartStep(x, e, y) && x.hasConnection && !y.hasConnection
    ensures x.startPc.DropConnection? && y.copyPc == x.copyPc
  {
  }

  lemma OrderlyStep(env: Env, s: System, a: Action, t: System)
    requires SystemInv(env, s) && Apart(s) && SystemStep(env, s, a, t) && Orderly(s, a)
    ensures Apart(t) && !Falls(s, t)
  {
    hide ReaderStep, CloserStep, StartStep, CopyStep, ConnectionsInv, TransferProtocol.Inv;
    if a.Reader? {
      ReaderTakesEdge(env, s, a.choice, t);
      ReaderDropsNothing(env, s, a.choice, t);
    } else if a.Closer? {
      CloserTakesEdge(s, a.choice, t);
      CloserMoves(env, s, a.choice, t);
      MoveStaysCaught(env, s, CloserMove(s), t);
    } else {
      GoroutineTakesEdge(env, s, a, t);
      if a.Copier? {
        CopierStaysCaught(s.transfers[a.i], a.e, t.transfers[a.i]);
      } else if s.transfers[a.i].hasConnection && !t.transfers[a.i].hasConnection {
        StarterDrops(s.transfers[a.i], a.e, t.transfers[a.i]);
      }
    }
  }

  lemma {:induction false} OrderlyOverRun(env: Env, ss: seq<System>, acts: seq<Action>, k: nat)
    requires IsSystemRun(env, ss, acts) && OrderlyRun(ss, acts) && k <= |acts|
    ensures Apart(ss[k]) && !FellBy(ss, k)
  {
    hide SystemStep, SystemInv, Falls, Apart;
    if k == 0 {
      assert Apart(ss[0]) by { NewIsApart(env); }
    } else {
      OrderlyOverRun(env, ss, acts, k - 1);
      InvOverSystemRun(env, ss, acts, k - 1);
      assert StepAt(env, ss, acts, k - 1);
      OrderlyStep(env, ss[k - 1], acts[k - 1], ss[k]);
      FellByOneMore(ss, k - 1);
    }
  }

  lemma NewIsApart(env: Env)
    ensures Apart(NewSystem(env))
  {
  }

  /** In orderly runs nothing falls, so nothing crashes, and once a Close whose buffer closed has returned no
      connection the stream ever created is open. */
  lemma OrderlyRunsAreSafe(env: Env, ss: seq<System>, acts: seq<Action>, k: nat)
    requires IsSystemRun(env, ss, acts) && OrderlyRun(ss, acts) && k <= |acts|
    ensures !ss[k].crashed
    ensures ss[k].closer == Done(true) ==> AllClosed(ss[k])
  {
    hide SystemStep, SystemInv, ReturnsInv, Falls, AllClosed;
    OrderlyOverRun(env, ss, acts, k);
    CaughtIffFell(env, ss, acts, k);
    PrefixIsRun(env, ss, acts, k);
    if ss[k].crashed {
      CrashedIsCaught(env, ss[..k + 1], acts[..k]);
    }
    if ss[k].closer == Done(true) {
      ReturnsOverRun(env, ss, acts, k);
      OpenIffCurrent(env, ss[k]);
      CurrentAfterCloseIff(env, ss, acts, k);
      forall j: nat | j < k ensures !StartsAfterClose(ss[j], acts[j]) {
        OrderlyOverRun(env, ss, acts, j);
      }
    }
  }

  lemma PrefixIsRun(env: Env, ss: seq<System>, acts: seq<Action>, k: nat)
    requires IsSystemRun(env, ss, acts) && k <= |acts|
    ensures IsSystemRun(env, ss[..k + 1], acts[..k])
  {
    hide SystemStep;
    var ts, bcts := ss[..k + 1], acts[..k];
    forall j: nat | j < |bcts| ensures StepAt(env, ts, bcts, j) {
      assert StepAt(env, ss, acts, j);
    }
  }
}
