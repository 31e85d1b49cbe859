/**
 Nil dereferences: which drop of a field, falling where, crashes the process.  A field is dropped under a process
 when that process has tested or used it and will use it again without another test.
 */
module StreamCrashes {
  import opened Base
  import opened WindowContract
  import opened TransferProtocol
  import opened StreamSystem
  import opened StreamInvariant
  import opened StreamRuns
  import opened StreamReturns
  import opened StreamSteps
  import opened StreamStale

  /** ReadAt between a test of `stream.buffer` and a use of it that no other test precedes.  At RetestClosed and
      RetestBuffer a dropped buffer is noticed in time. */
  predicate Exposed(pc: ReaderPc) {
    !pc.Idle? && !pc.TestClosed? && !pc.TestBuffer? && !pc.RetestClosed? && !pc.RetestBuffer?
  }

  predicate ReaderCaught(s: System) { Exposed(s.reader) && !s.hasBuffer }

  /** `copyData` is about to load a connection that is nil. */
  predicate CopierCaught(x: Transfer) { x.copyPc.Load? && !x.hasConnection }

  predicate Caught(s: System) {
    ReaderCaught(s) || exists i :: 0 <= i < |s.transfers| && CopierCaught(s.transfers[i])
  }

  /** Close nils `stream.buffer` under an exposed ReadAt. */
  predicate BufferFalls(s: System, t: System) {
    s.hasBuffer && !t.hasBuffer && Exposed(s.reader)
  }

  /** `start` nils `transfer.connection` under its `copyData`. */
  predicate ConnectionFalls(s: System, t: System) {
    exists i :: 0 <= i < |s.transfers| && i < |t.transfers|
                && s.transfers[i].copyPc.Load? && s.transfers[i].hasConnection && !t.transfers[i].hasConnection
  }

  predicate Falls(s: System, t: System) { BufferFalls(s, t) || ConnectionFalls(s, t) }

  // ----- caught exactly by a fall -----

  lemma ReaderStaysCaught(s: System, t: System)
    requires FieldsInv(s) && ReaderEdge(s, t)
    ensures ReaderCaught(t) <==> ReaderCaught(s)
  {
  }

  lemma CopierStaysCaught(x: Transfer, e: Event, y: Transfer)
    requires TransferProtocol.Inv(x) && CopyStep(x, e, y)
    ensures CopierCaught(y) <==> CopierCaught(x)
    ensures y.hasConnection == x.hasConnection
  {
    hide DataInv, Delivers;
  }

  lemma StarterCatches(x: Transfer, e: Event, y: Transfer)
    requires TransferProtocol.Inv(x) && StartStep(x, e, y)
    ensures CopierCaught(y) <==> CopierCaught(x) || (x.copyPc.Load? && x.hasConnection && !y.hasConnection)
  {
    hide DataInv;
    match x.startPc
    case Select =>
    case CloseConnection =>
    case Mark(_) =>
    case _ =>
  }

  lemma MoveStaysCaught(env: Env, s: System, m: Move, t: System)
    requires Moves(env, s, m, t)
    ensures |s.transfers| <= |t.transfers|
    ensures forall i | 0 <= i < |s.transfers| ::
              && (CopierCaught(t.transfers[i]) <==> CopierCaught(s.transfers[i]))
              && t.transfers[i].hasConnection == s.transfers[i].hasConnection
    ensures forall i | |s.transfers| <= i < |t.transfers| :: !CopierCaught(t.transfers[i])
  {
  }

  lemma GoroutineCatchesIff(s: System, i: nat, t: System)
    requires GoroutineEdge(s, i, t)
    requires var x, y := s.transfers[i], t.transfers[i];
             CopierCaught(y) <==> CopierCaught(x) || (x.copyPc.Load? && x.hasConnection && !y.hasConnection)
    ensures Caught(t) <==> Caught(s) || Falls(s, t)
  {
    if j: nat :| j < |t.transfers| && CopierCaught(t.transfers[j]) {
      assert CopierCaught(s.transfers[j]) || ConnectionFalls(s, t);
    }
    if j: nat :| j < |s.transfers| && CopierCaught(s.transfers[j]) {
      assert CopierCaught(t.transfers[j]);
    }
    if ConnectionFalls(s, t) {
      assert CopierCaught(t.transfers[i]);
    }
  }

  /** A step catches a process exactly if one was caught before it or a field falls in it. */
  lemma StepCatchesIff(env: Env, s: System, a: Action, t: System)
    requires SystemInv(env, s) && SystemStep(env, s, a, t)
    ensures Caught(t) <==> Caught(s) || Falls(s, t)
  {
    hide ReaderStep, CloserStep, StartStep, CopyStep, ConnectionsInv, TransferProtocol.Inv;
    if a.Reader? {
      ReaderTakesEdge(env, s, a.choice, t);
      ReaderStaysCaught(s, t);
      ReaderMoves(env, s, a.choice, t);
      MoveStaysCaught(env, s, ReaderMove(s), t);
    } else if a.Closer? {
      CloserTakesEdge(s, a.choice, t);
      CloserMoves(env, s, a.choice, t);
      MoveStaysCaught(env, s, CloserMove(s), t);
    } else {
      GoroutineTakesEdge(env, s, a, t);
      if a.Starter? {
        StarterCatches(s.transfers[a.i], a.e, t.transfers[a.i]);
      } else {
        CopierStaysCaught(s.transfers[a.i], a.e, t.transfers[a.i]);
      }
      GoroutineCatchesIff(s, a.i, t);
    }
  }

  ghost predicate FellBy(ss: seq<System>, k: nat) {
    exists j: nat :: FellAt(ss, j, k)
  }

  predicate FellAt(ss: seq<System>, j: nat, k: nat) {
    j < k && k < |ss| && Falls(ss[j], ss[j + 1])
  }

  lemma {:induction false} CaughtIffFell(env: Env, ss: seq<System>, acts: seq<Action>, k: nat)
    requires IsSystemRun(env, ss, acts) && k <= |acts|
    ensures Caught(ss[k]) <==> FellBy(ss, k)
  {
    hide SystemStep, SystemInv, Falls, Caught;
    if k == 0 {
      assert !Caught(ss[0]) by { NewIsNotCaught(env); }
    } else {
      CaughtIffFell(env, ss, acts, k - 1);
      InvOverSystemRun(env, ss, acts, k - 1);
      assert StepAt(env, ss, acts, k - 1);
      StepCatchesIff(env, ss[k - 1], acts[k - 1], ss[k]);
      FellByOneMore(ss, k - 1);
    }
  }

  lemma NewIsNotCaught(env: Env)
    ensures !Caught(NewSystem(env))
  {
  }

  lemma FellByOneMore(ss: seq<System>, k: nat)
    requires k + 1 < |ss|
    ensures FellBy(ss, k + 1) <==> FellBy(ss, k) || Falls(ss[k], ss[k + 1])
  {
    hide Falls;
    if FellBy(ss, k) {
      var j: nat :| FellAt(ss, j, k);
      assert FellAt(ss, j, k + 1);
    }
    if Falls(ss[k], ss[k + 1]) {
      assert FellAt(ss, k, k + 1);
    }
    if FellBy(ss, k + 1) {
      var j: nat :| FellAt(ss, j, k + 1);
      assert j < k ==> FellAt(ss, j, k);
    }
  }

  // ----- a crash catches nobody new -----

  lemma GoroutineCrashesCaught(x: Transfer, e: Event, y: Transfer)
    requires (StartStep(x, e, y) || CopyStep(x, e, y)) && e.Crash?
    ensures CopierCaught(x) || !x.hasBuffer
  {
  }

  lemma CrashMeansCaught(env: Env, s: System, a: Action, t: System)
    requires SystemInv(env, s) && ReturnsInv(s) && SystemStep(env, s, a, t) && t.crashed
    ensures Caught(s)
  {
    hide ReaderStep, CloserStep, StartStep, CopyStep, ConnectionsInv, TransferProtocol.Inv, HandoverInv, HeldInv;
    if a.Reader? {
      ReaderTakesEdge(env, s, a.choice, t);
    } else if a.Closer? {
      CloserTakesEdge(s, a.choice, t);
    } else {
      GoroutineCrashesCaught(s.transfers[a.i], a.e, t.transfers[a.i]);
    }
  }

  // ----- the caught crash -----

  function CloseRank(pc: ClosePc): nat {
    match pc
    case CloseConn => 3
    case CloseCancel => 2
    case CloseWait => 1
    case _ => 0
  }

  function StartRank(pc: StartPc): nat {
    match pc
    case Spawn => 6
    case Select => 5
    case CloseConnection => 4
    case DropConnection => 3
    case Mark(_) => 2
    case Leave(_) => 1
    case _ => 0
  }

  /** What a caught reader still waits for in the transfer it is closing. */
  function TransferRank(x: Transfer): nat {
    CloseRank(x.closePc) + 2 * StartRank(x.startPc) + if x.copyPc.Load? then 1 else 0
  }

  /** A bound on the actions it takes a caught reader to reach its crash. */
  function Rank(s: System): nat {
    match s.reader
    case TestTransfer(_) => 21
    case CallClose(_) => 20
    case Closing(_, i) => if i < |s.transfers| then 2 + TransferRank(s.transfers[i]) else 0
    case DropTransfer(_) => 1
    case Start(_) => 1
    case Waiting(_) => 1
    case _ => 0
  }

  lemma ReaderDropsNothing(env: Env, s: System, c: Choice, t: System)
    requires s.window.Valid() && !s.crashed && ReaderStep(env, s, c, t)
    ensures !Falls(s, t)
  {
    hide ReaderStep;
    ReaderTakesEdge(env, s, c, t);
    ReaderMoves(env, s, c, t);
    MoveStaysCaught(env, s, ReaderMove(s), t);
  }

  /** Where a caught reader goes next, by itself. */
  function NextOfReader(env: Env, s: System): System
    requires s.reader.Closing? ==> s.reader.i < |s.transfers|
  {
    if s.reader.TestTransfer? || HandsOver(s.reader) then HandedOver(env, s)
    else if s.reader.Waiting? then s.(reader := Fetch(s.reader.q))
    else Crashed(s)
  }

  lemma CaughtReaderSteps(env: Env, s: System) returns (c: Choice)
    requires s.window.Valid() && FieldsInv(s) && !s.crashed && ReaderCaught(s) && !AwaitsStart(s)
    ensures ReaderStep(env, s, c, NextOfReader(env, s))
  {
    c := if s.reader.Waiting? then Says(false) else Go;
    match s.reader
    case CallClose(_) =>
    case Closing(_, _) =>
    case Start(_) =>
    case _ =>
  }

  /** It gets nearer to its crash, and nothing saves it. */
  predicate GetsOn(env: Env, s: System)
    requires s.reader.Closing? ==> s.reader.i < |s.transfers|
  {
    var t := NextOfReader(env, s);
    t.crashed || (ReaderCaught(t) && Rank(t) < Rank(s))
  }

  lemma ClosingReaderGetsOn(env: Env, s: System)
    requires FieldsInv(s) && !s.crashed && ReaderCaught(s) && !AwaitsStart(s)
    requires s.reader.CallClose? || s.reader.Closing?
    ensures GetsOn(env, s)
  {
    if s.reader.CallClose? {
    } else {
      assert s.transfers[s.reader.i].closePc != CloseNone;
    }
  }

  lemma CaughtReaderGetsOn(env: Env, s: System)
    requires FieldsInv(s) && !s.crashed && ReaderCaught(s) && !AwaitsStart(s)
    ensures GetsOn(env, s)
  {
    if s.reader.CallClose? || s.reader.Closing? {
      ClosingReaderGetsOn(env, s);
    }
  }

  /** The window after an action of `start`. */
  function WindowAfterStart(w: Window, x: Transfer): Window {
    if x.startPc.Mark? && !w.closed then w.(ended := true) else w
  }

  lemma AwaitedStartSteps(x: Transfer)
    requires TransferProtocol.Inv(x) && x.closePc.CloseWait? && x.waiting > 0 && x.hasBuffer
    ensures var y := NextOfStart(x);
            && StartStep(x, if x.startPc.Mark? then MarkWrite else Silent, y)
            && y.closePc == x.closePc && StartRank(y.startPc) < StartRank(x.startPc)
            && (x.startPc.Spawn? || y.copyPc == x.copyPc)
            && (!x.startPc.DropConnection? ==> y.hasConnection == x.hasConnection)
            && TransferRank(y) < TransferRank(x)
  {
    hide DataInv, ReturnInv;
    match x.startPc
    case Select =>
    case CloseConnection =>
    case Mark(_) =>
    case _ =>
  }

  lemma AwaitedCopySteps(x: Transfer)
    requires TransferProtocol.Inv(x) && x.startPc.DropConnection? && x.copyPc.Load?
    ensures CopyStep(x, ReadCall, x.(copyPc := Head)) && TransferRank(x.(copyPc := Head)) < TransferRank(x)
  {
    hide DataInv, ReturnInv;
  }

  /** While the reader waits for it, `start` can go on; its `copyData` is let past its load first. */
  lemma AwaitedStartGoesOn(env: Env, s: System) returns (a: Action, t: System)
    requires SystemInv(env, s) && ReturnsInv(s) && !s.crashed && ReaderCaught(s) && AwaitsStart(s)
    ensures s.window.Valid() && SystemStep(env, s, a, t) && !Falls(s, t)
    ensures !t.crashed && ReaderCaught(t) && Rank(t) < Rank(s)
  {
    hide StartStep, CopyStep, HandoverInv, HeldInv, CloserInv, ConnectionsInv, TransferRank, NextOfStart;
    var i := s.reader.i;
    var x := s.transfers[i];
    assert TransferProtocol.Inv(x) && x.hasBuffer && !x.crashed;
    if x.startPc.DropConnection? && x.copyPc.Load? {
      AwaitedCopySteps(x);
      a, t := Copier(i, ReadCall), SetTransfer(s, i, x.(copyPc := Head));
    } else {
      AwaitedStartSteps(x);
      a := Starter(i, if x.startPc.Mark? then MarkWrite else Silent);
      t := SetTransfer(s, i, NextOfStart(x)).(window := WindowAfterStart(s.window, x));
    }
  }

  ghost predicate NoFallFrom(ss: seq<System>, k: nat) {
    forall j: nat | k <= j && j + 1 < |ss| :: !Falls(ss[j], ss[j + 1])
  }

  /** This run can go on to a crash although no field is dropped under anybody from here on. */
  ghost predicate BoundToCrash(env: Env, ss: seq<System>, acts: seq<Action>) {
    exists ts: seq<System>, bcts: seq<Action> ::
      Extends(env, ss, acts, ts, bcts) && NoFallFrom(ts, |acts|) && ts[|bcts|].crashed
  }

  /** The run extended by one step in which nothing falls. */
  lemma BoundOneEarlier(env: Env, ss: seq<System>, acts: seq<Action>, a: Action, t: System)
    requires IsSystemRun(env, ss, acts) && ss[|acts|].window.Valid() && SystemStep(env, ss[|acts|], a, t)
    requires !Falls(ss[|acts|], t) && BoundToCrash(env, ss + [t], acts + [a])
    ensures BoundToCrash(env, ss, acts)
  {
    hide SystemStep, Falls, StepAt;
    var us: seq<System>, ccts: seq<Action> :|
      Extends(env, ss + [t], acts + [a], us, ccts) && NoFallFrom(us, |acts| + 1) && us[|ccts|].crashed;
    assert us[|acts|] == (ss + [t])[|acts|] && us[|acts| + 1] == (ss + [t])[|acts| + 1];
    forall j: nat | |acts| <= j && j + 1 < |us| ensures !Falls(us[j], us[j + 1]) {
    }
    assert Extends(env, ss, acts, us, ccts);
  }

  lemma CrashNow(env: Env, ss: seq<System>, acts: seq<Action>)
    requires IsSystemRun(env, ss, acts) && ss[|acts|].crashed
    ensures BoundToCrash(env, ss, acts)
  {
    hide SystemStep, Falls, StepAt;
    assert Extends(env, ss, acts, ss, acts) && NoFallFrom(ss, |acts|);
  }

  lemma CaughtCopierCrashes(env: Env, s: System, i: nat) returns (t: System)
    requires s.window.Valid() && NoneCrashed(s) && !s.crashed && i < |s.transfers| && CopierCaught(s.transfers[i])
    ensures SystemStep(env, s, Copier(i, Crash), t) && t.crashed && !Falls(s, t)
  {
    t := SetTransfer(s, i, CrashOf(s.transfers[i])).(crashed := true);
  }

  /** A caught process that has not crashed has an action that brings it nearer, or there. */
  lemma CaughtGetsOn(env: Env, s: System) returns (a: Action, t: System)
    requires SystemInv(env, s) && ReturnsInv(s) && !s.crashed && Caught(s)
    ensures s.window.Valid() && SystemStep(env, s, a, t) && !Falls(s, t)
    ensures t.crashed || (Caught(t) && Rank(t) < Rank(s))
  {
    hide ReaderStep, StartStep, CopyStep, HandoverInv, HeldInv, CloserInv, BufferInv, ConnectionsInv;
    hide TransferProtocol.Inv, Falls, Rank;
    if i: nat :| i < |s.transfers| && CopierCaught(s.transfers[i]) {
      a := Copier(i, Crash);
      t := CaughtCopierCrashes(env, s, i);
    } else if AwaitsStart(s) {
      a, t := AwaitedStartGoesOn(env, s);
    } else {
      var c := CaughtReaderSteps(env, s);
      CaughtReaderGetsOn(env, s);
      a, t := Reader(c), NextOfReader(env, s);
      ReaderDropsNothing(env, s, c, t);
    }
  }

  lemma {:induction false} CaughtIsBound(env: Env, ss: seq<System>, acts: seq<Action>)
    requires IsSystemRun(env, ss, acts) && Caught(ss[|acts|])
    ensures BoundToCrash(env, ss, acts)
    decreases Rank(ss[|acts|])
  {
    hide SystemStep, SystemInv, ReturnsInv, Caught, Falls, Rank, StepAt;
    if ss[|acts|].crashed {
      CrashNow(env, ss, acts);
    } else {
      ReturnsOverRun(env, ss, acts, |acts|);
      var a, t := CaughtGetsOn(env, ss[|acts|]);
      var ts, bcts := Extend(env, ss, acts, a, t);
      if t.crashed {
        CrashNow(env, ts, bcts);
      } else {
        CaughtIsBound(env, ts, bcts);
      }
      BoundOneEarlier(env, ss, acts, a, t);
    }
  }

  lemma CrashedIsCaught(env: Env, ss: seq<System>, acts: seq<Action>)
    requires IsSystemRun(env, ss, acts) && ss[|acts|].crashed
    ensures Caught(ss[|acts|])
  {
    hide SystemStep, SystemInv, ReturnsInv, Caught, Falls;
    var k := |acts| - 1;
    assert StepAt(env, ss, acts, k);
    ReturnsOverRun(env, ss, acts, k);
    CrashMeansCaught(env, ss[k], acts[k], ss[k + 1]);
    StepCatchesIff(env, ss[k], acts[k], ss[k + 1]);
  }

  /** Exactly the falls crash: a run can go on to a crash with no further fall if and only if in it `stream.buffer`
      was nilled under an exposed ReadAt or `transfer.connection` under a `copyData` about to load it. */
  lemma CrashIffFell(env: Env, ss: seq<System>, acts: seq<Action>)
    requires IsSystemRun(env, ss, acts)
    ensures BoundToCrash(env, ss, acts) <==> FellBy(ss, |acts|)
  {
    hide SystemStep, Caught, Falls, StepAt;
    CaughtIffFell(env, ss, acts, |acts|);
    if Caught(ss[|acts|]) {
      CaughtIsBound(env, ss, acts);
    }
    if BoundToCrash(env, ss, acts) {
      var ts: seq<System>, bcts: seq<Action> :|
        Extends(env, ss, acts, ts, bcts) && NoFallFrom(ts, |acts|) && ts[|bcts|].crashed;
      CrashedIsCaught(env, ts, bcts);
      CaughtIffFell(env, ts, bcts, |bcts|);
      var j: nat :| FellAt(ts, j, |bcts|);
      assert j < |acts| && ts[j] == ss[j] && ts[j + 1] == ss[j + 1];
      assert FellAt(ss, j, |acts|);
    }
  }

  /** In particular a run without a fall has not crashed. */
  lemma NoFallNoCrash(env: Env, ss: seq<System>, acts: seq<Action>)
    requires IsSystemRun(env, ss, acts) && !FellBy(ss, |acts|)
    ensures !ss[|acts|].crashed
  {
    if ss[|acts|].crashed {
      CrashNow(env, ss, acts);
      CrashIffFell(env, ss, acts);
    }
  }

  lemma StepKeepsReaderCaught(env: Env, s: System, a: Action, t: System)
    requires SystemInv(env, s) && SystemStep(env, s, a, t) && ReaderCaught(s)
    ensures ReaderCaught(t)
  {
    hide ReaderStep, CloserStep, StartStep, CopyStep, ConnectionsInv, TransferProtocol.Inv;
    if a.Reader? {
      ReaderTakesEdge(env, s, a.choice, t);
    } else if a.Closer? {
      CloserTakesEdge(s, a.choice, t);
    } else {
      GoroutineTakesEdge(env, s, a, t);
    }
  }

  /** A ReadAt under which the buffer fell never returns. */
  lemma {:induction false} FallenReadNeverReturns(env: Env, ss: seq<System>, acts: seq<Action>, j: nat, k: nat)
    requires IsSystemRun(env, ss, acts) && j < k <= |acts| && BufferFalls(ss[j], ss[j + 1])
    ensures Exposed(ss[k].reader) && ss[k].answers == ss[j].answers
  {
    hide SystemStep, SystemInv;
    CaughtSince(env, ss, acts, j, k);
  }

  lemma {:induction false} CaughtSince(env: Env, ss: seq<System>, acts: seq<Action>, j: nat, k: nat)
    requires IsSystemRun(env, ss, acts) && j < k <= |acts| && BufferFalls(ss[j], ss[j + 1])
    ensures ReaderCaught(ss[k]) && ss[k].answers == ss[j].answers
  {
    hide SystemStep, SystemInv, ReaderCaught;
    InvOverSystemRun(env, ss, acts, k - 1);
    assert StepAt(env, ss, acts, k - 1);
    if j + 1 == k {
      FallCatches(env, ss[j], acts[j], ss[k]);
    } else {
      CaughtSince(env, ss, acts, j, k - 1);
      StepKeepsReaderCaught(env, ss[k - 1], acts[k - 1], ss[k]);
      CaughtAnswersNothing(env, ss[k - 1], acts[k - 1], ss[k]);
    }
  }

  lemma FallCatches(env: Env, s: System, a: Action, t: System)
    requires SystemInv(env, s) && SystemStep(env, s, a, t) && BufferFalls(s, t)
    ensures ReaderCaught(t) && t.answers == s.answers
  {
    hide ReaderStep, CloserStep, StartStep, CopyStep, ConnectionsInv, TransferProtocol.Inv;
    if a.Reader? {
      ReaderTakesEdge(env, s, a.choice, t);
    } else if a.Closer? {
      CloserTakesEdge(s, a.choice, t);
      CloserKeepsBytes(s, a.choice, t);
    }
  }

  lemma CaughtAnswersNothing(env: Env, s: System, a: Action, t: System)
    requires SystemInv(env, s) && SystemStep(env, s, a, t) && ReaderCaught(s)
    ensures t.answers == s.answers
  {
    hide CloserStep, StartStep, CopyStep, CloseStep, ConnectionsInv, TransferProtocol.Inv;
    if a.Closer? {
      CloserKeepsBytes(s, a.choice, t);
    }
  }
}
