/** How much an old transfer can still write, seen from the stream; and when no process crashes. */
module StreamHandover {
  import opened Base
  import opened WindowContract
  import opened TransferProtocol
  import opened StreamSystem
  import opened StreamInvariant
  import opened StreamRuns
  import Runs = TransferRuns

  /** Buffer writes, chunks and markers, made by transfer `i`. */
  function WritesBy(acts: seq<Action>, i: nat): nat {
    if acts == [] then 0 else WriteBy(acts[0], i) + WritesBy(acts[1..], i)
  }

  function WriteBy(a: Action, i: nat): nat {
    if (a.Starter? || a.Copier?) && a.i == i && (a.e.ChunkWrite? || a.e.MarkWrite?) then 1 else 0
  }

  /** Writes transfer `x` can still make once its context is cancelled. */
  function LateBudget(x: Transfer): nat {
    Runs.ChunkBudget(x) + Runs.MarkBudget(x)
  }

  lemma GoroutineSpends(x: Transfer, e: Event, y: Transfer)
    requires x.cancelled && (StartStep(x, e, y) || CopyStep(x, e, y))
    ensures y.cancelled && y.closePc == x.closePc
    ensures (if e.ChunkWrite? || e.MarkWrite? then 1 else 0) + LateBudget(y) <= LateBudget(x)
  {
    hide StartStep, CopyStep;
    if StartStep(x, e, y) {
      Runs.StarterSpends(x, e, y);
    } else {
      Runs.CopierSpends(x, e, y);
    }
  }

  lemma OthersSpendNothing(env: Env, s: System, a: Action, t: System, i: nat)
    requires s.window.Valid() && SystemStep(env, s, a, t) && i < |s.transfers|
    requires (a.Starter? || a.Copier?) && a.i != i
    ensures i < |t.transfers| && t.transfers[i] == s.transfers[i]
  {
  }

  lemma MovesSpendNothing(env: Env, s: System, m: Move, t: System, i: nat)
    requires Moves(env, s, m, t) && i < |s.transfers| && s.transfers[i].closePc.CloseReturned?
             && s.transfers[i].cancelled
    ensures i < |t.transfers| && t.transfers[i] == s.transfers[i]
  {
  }

  /** A step of the system spends from the budget of a transfer whose Close has returned. */
  lemma SystemStepSpends(env: Env, s: System, a: Action, t: System, i: nat)
    requires SystemInv(env, s) && SystemStep(env, s, a, t)
    requires i < |s.transfers| && s.transfers[i].closePc.CloseReturned?
    ensures i < |t.transfers| && t.transfers[i].closePc.CloseReturned?
    ensures WriteBy(a, i) + LateBudget(t.transfers[i]) <= LateBudget(s.transfers[i])
  {
    hide ReaderStep, CloserStep, StartStep, CopyStep;
    assert TransferProtocol.Inv(s.transfers[i]);
    if a.Reader? {
      ReaderMoves(env, s, a.choice, t);
      MovesSpendNothing(env, s, ReaderMove(s), t, i);
    } else if a.Closer? {
      CloserMoves(env, s, a.choice, t);
      MovesSpendNothing(env, s, CloserMove(s), t, i);
    } else if a.i != i {
      OthersSpendNothing(env, s, a, t, i);
    } else {
      GoroutineSpends(s.transfers[i], a.e, t.transfers[i]);
    }
  }

  lemma {:induction false} RunSpends(env: Env, ss: seq<System>, acts: seq<Action>, k: nat, i: nat)
    requires IsSystemRun(env, ss, acts) && k <= |acts|
    requires i < |ss[k].transfers| && ss[k].transfers[i].closePc.CloseReturned?
    ensures WritesBy(acts[k..], i) <= LateBudget(ss[k].transfers[i])
    decreases |acts| - k
  {
    hide SystemStep, SystemInv, WriteBy, LateBudget;
    if k < |acts| {
      InvOverSystemRun(env, ss, acts, k);
      assert StepAt(env, ss, acts, k);
      SystemStepSpends(env, ss[k], acts[k], ss[k + 1], i);
      RunSpends(env, ss, acts, k + 1, i);
      assert acts[k..][1..] == acts[k + 1..];
    }
  }

  /** With no assumption on the schedule: from the moment the winning Close of a transfer has returned,
      whatever the reader, the closer and all other transfers do, that transfer writes to the stream's
      buffer at most once more. */
  lemma AtMostOneLateWriteIntoStream(env: Env, ss: seq<System>, acts: seq<Action>, k: nat, i: nat)
    requires IsSystemRun(env, ss, acts) && k <= |acts|
    requires i < |ss[k].transfers| && ss[k].transfers[i].closePc.CloseReturned?
    ensures WritesBy(acts[k..], i) <= 1
  {
    InvOverSystemRun(env, ss, acts, k);
    RunSpends(env, ss, acts, k, i);
    assert TransferProtocol.Inv(ss[k].transfers[i]);
  }
}
