/** The end marker: whose it is, and what a window that has one holds. */
module StreamMarks {
  import opened Base
  import opened WindowContract
  import opened Placement
  import opened TransferProtocol
  import opened TransferRuns
  import opened StreamSystem
  import opened StreamInvariant
  import opened StreamRuns
  import opened StreamReturns
  import opened StreamSteps
  import opened StreamStale

  /** An end marker written by a transfer that the window no longer belongs to. */
  predicate StaleMark(s: System, a: Action) {
    a.Starter? && a.e.MarkWrite? && s.owner != Some(a.i)
  }

  predicate StaleMarkBy(ss: seq<System>, acts: seq<Action>, k: nat, i: nat) {
    k < |ss| && k < |acts| && StaleMark(ss[k], acts[k]) && acts[k].i == i
  }

  /** In some continuation of this run transfer `i` puts its end marker into a window that is not its own. */
  ghost predicate StaleMarkAhead(env: Env, ss: seq<System>, acts: seq<Action>, i: nat) {
    exists ts: seq<System>, bcts: seq<Action>, k: nat ::
      Extends(env, ss, acts, ts, bcts) && |acts| <= k && StaleMarkBy(ts, bcts, k, i)
  }

  // ----- a marker is written once -----

  lemma StepKeepsMarked(env: Env, s: System, a: Action, t: System, i: nat)
    requires s.window.Valid() && SystemStep(env, s, a, t) && i < |s.transfers| && HasMarked(s.transfers[i])
    ensures i < |t.transfers| && HasMarked(t.transfers[i])
    ensures a.Starter? && a.i == i ==> !a.e.MarkWrite?
  {
    hide CopyStep, ReaderStep, CloserStep;
    if a.Reader? {
      ReaderMoves(env, s, a.choice, t);
    } else if a.Closer? {
      CloserMoves(env, s, a.choice, t);
    } else if a.i == i && a.Copier? {
      CopierKeepsStart(s.transfers[i], a.e, t.transfers[i]);
    }
  }

  lemma {:induction false} MarkedForGood(env: Env, ss: seq<System>, acts: seq<Action>, j: nat, k: nat, i: nat)
    requires IsSystemRun(env, ss, acts) && j <= k <= |acts| && i < |ss[j].transfers| && HasMarked(ss[j].transfers[i])
    ensures i < |ss[k].transfers| && HasMarked(ss[k].transfers[i])
    ensures k < |acts| && acts[k].Starter? && acts[k].i == i ==> !acts[k].e.MarkWrite?
  {
    hide SystemStep, HasMarked;
    if j < k {
      MarkedForGood(env, ss, acts, j, k - 1, i);
      assert StepAt(env, ss, acts, k - 1);
      StepKeepsMarked(env, ss[k - 1], acts[k - 1], ss[k], i);
    }
    if k < |acts| {
      assert StepAt(env, ss, acts, k);
      StepKeepsMarked(env, ss[k], acts[k], ss[k + 1], i);
    }
  }

  // ----- when a stale marker can come -----

  /** Actions left to `start` before its marker, once its context is cancelled. */
  function StepsToMark(x: Transfer): nat {
    match x.startPc
    case Begin => 6
    case Spawn => 5
    case Select => 4
    case CloseConnection => 3
    case DropConnection => 2
    case Mark(_) => 1
    case _ => 0
  }

  /** `start` of transfer `i`, cancelled, goes on by one action short of its marker. */
  lemma StarterGoesOn(env: Env, ss: seq<System>, acts: seq<Action>, i: nat) returns (ts: seq<System>, bcts: seq<Action>)
    requires IsSystemRun(env, ss, acts) && !ss[|acts|].crashed && i < |ss[|acts|].transfers|
    requires var x := ss[|acts|].transfers[i]; x.cancelled && !x.crashed && StepsToMark(x) > 1
    ensures Extends(env, ss, acts, ts, bcts)
    ensures ts[|bcts|] == SetTransfer(ss[|acts|], i, NextOfStart(ss[|acts|].transfers[i]))
  {
    hide StepAt;
    InvOverSystemRun(env, ss, acts, |acts|);
    var s := ss[|acts|];
    ts, bcts := Extend(env, ss, acts, Starter(i, Silent), SetTransfer(s, i, NextOfStart(s.transfers[i])));
  }

  lemma MarkerComes(env: Env, ss: seq<System>, acts: seq<Action>, i: nat) returns (ts: seq<System>, bcts: seq<Action>)
    requires IsSystemRun(env, ss, acts)
    requires var s := ss[|acts|];
             && !s.crashed && s.owner.None? && i < |s.transfers|
             && s.transfers[i].startPc.Mark? && s.transfers[i].hasBuffer && !s.transfers[i].crashed
    ensures Extends(env, ss, acts, ts, bcts) && StaleMarkBy(ts, bcts, |acts|, i)
  {
    hide StepAt;
    InvOverSystemRun(env, ss, acts, |acts|);
    var s := ss[|acts|];
    var x := s.transfers[i];
    var y := x.(startPc := Leave(x.startPc.byResult), marks := x.marks + 1);
    var w := if s.window.closed then s.window else s.window.(ended := true);
    ts, bcts := Extend(env, ss, acts, Starter(i, MarkWrite), SetTransfer(s, i, y).(window := w));
  }

  lemma {:induction false} MarkerAhead(env: Env, ss: seq<System>, acts: seq<Action>, i: nat)
    requires IsSystemRun(env, ss, acts)
    requires var s := ss[|acts|];
             && !s.crashed && s.owner.None? && i < |s.transfers|
             && s.transfers[i].hasBuffer && !s.transfers[i].crashed && s.transfers[i].cancelled
             && !HasMarked(s.transfers[i])
    ensures StaleMarkAhead(env, ss, acts, i)
    decreases StepsToMark(ss[|acts|].transfers[i])
  {
    hide StepAt;
    if ss[|acts|].transfers[i].startPc.Mark? {
      var ts, bcts := MarkerComes(env, ss, acts, i);
    } else {
      var ts, bcts := StarterGoesOn(env, ss, acts, i);
      MarkerAhead(env, ts, bcts, i);
      var us, ccts, k: nat :| Extends(env, ts, bcts, us, ccts) && |bcts| <= k && StaleMarkBy(us, ccts, k, i);
      assert Extends(env, ss, acts, us, ccts);
    }
  }

  /** Exactly when a transfer superseded by this reset can still put its end marker into another's window: it has
      not written it yet. */
  lemma StaleMarkAheadIff(env: Env, ss: seq<System>, acts: seq<Action>, i: nat)
    requires IsSystemRun(env, ss, acts) && AtReset(ss[|acts|]) && i < |ss[|acts|].transfers|
    ensures StaleMarkAhead(env, ss, acts, i) <==> !HasMarked(ss[|acts|].transfers[i])
  {
    hide StepAt, HasMarked, ConnectionsInv, FieldsInv;
    ReturnsOverRun(env, ss, acts, |acts|);
    if HasMarked(ss[|acts|].transfers[i]) && StaleMarkAhead(env, ss, acts, i) {
      var ts, bcts, k: nat :| Extends(env, ss, acts, ts, bcts) && |acts| <= k && StaleMarkBy(ts, bcts, k, i);
      assert ts[|acts|] == ss[|acts|];
      MarkedForGood(env, ts, bcts, |acts|, k, i);
    }
    if !HasMarked(ss[|acts|].transfers[i]) {
      assert TransferProtocol.Inv(ss[|acts|].transfers[i]);
      var ts, bcts := ResetNow(env, ss, acts);
      MarkerAhead(env, ts, bcts, i);
      var us, ccts, k: nat :| Extends(env, ts, bcts, us, ccts) && |bcts| <= k && StaleMarkBy(us, ccts, k, i);
      assert Extends(env, ss, acts, us, ccts);
    }
  }

  // ----- what the end marker means -----

  /** A window with an end marker got it from its owner. */
  predicate EndedInv(s: System) {
    s.window.ended ==> s.owner.Some? && s.owner.value < |s.transfers| && HasMarked(s.transfers[s.owner.value])
  }

  lemma ReaderKeepsEnded(env: Env, s: System, c: Choice, t: System)
    requires SystemInv(env, s) && OwnerInv(env, s) && EndedInv(s) && ReaderStep(env, s, c, t)
    ensures EndedInv(t)
  {
    if !s.reader.Reset? && !s.reader.Start? {
      hide ReaderStep, TransferProtocol.Inv, ConnectionsInv;
      ReaderMoves(env, s, c, t);
      ReaderKeepsBytes(env, s, c, t);
    }
  }

  lemma GoroutineKeepsEnded(env: Env, s: System, a: Action, t: System)
    requires s.window.Valid() && EndedInv(s) && SystemStep(env, s, a, t) && !StaleMark(s, a)
    requires a.Starter? || a.Copier?
    ensures EndedInv(t)
  {
    if a.Copier? {
      CopierKeepsStart(s.transfers[a.i], a.e, t.transfers[a.i]);
    }
  }

  lemma StepKeepsEnded(env: Env, s: System, a: Action, t: System)
    requires SystemInv(env, s) && OwnerInv(env, s) && EndedInv(s) && SystemStep(env, s, a, t) && !StaleMark(s, a)
    ensures EndedInv(t)
  {
    hide ReaderStep, CloserStep, StartStep, CopyStep, TransferProtocol.Inv, ConnectionsInv;
    if a.Reader? {
      ReaderKeepsEnded(env, s, a.choice, t);
    } else if a.Closer? {
      CloserMoves(env, s, a.choice, t);
      CloserKeepsBytes(s, a.choice, t);
    } else {
      GoroutineKeepsEnded(env, s, a, t);
    }
  }

  /** No transfer puts its end marker into a window already reset for its successor. */
  ghost predicate NoStaleMark(ss: seq<System>, acts: seq<Action>) {
    |ss| == |acts| + 1 && forall k | 0 <= k < |acts| :: !StaleMark(ss[k], acts[k])
  }

  lemma {:induction false} EndedOverRun(env: Env, ss: seq<System>, acts: seq<Action>, k: nat)
    requires IsSystemRun(env, ss, acts) && NoStaleMark(ss, acts) && k <= |acts|
    ensures SystemInv(env, ss[k]) && OwnerInv(env, ss[k]) && EndedInv(ss[k])
  {
    hide SystemStep, SystemInv, OwnerInv;
    InvOverSystemRun(env, ss, acts, k);
    if k == 0 {
      NewIsQuiet(env);
    } else {
      EndedOverRun(env, ss, acts, k - 1);
      assert StepAt(env, ss, acts, k - 1);
      StepKeepsOwner(env, ss[k - 1], acts[k - 1], ss[k]);
      StepKeepsEnded(env, ss[k - 1], acts[k - 1], ss[k]);
    }
  }

  /** Why a transfer's marker may come before its body is complete. */
  predicate CutShort(x: Transfer) {
    x.cancelled || x.copyPc == Exit(ReadFailed) || x.copyPc == Exit(WriteFailed)
  }

  /** Without stale writes an end marker in the window means that the window has all of its owner's body, the file
      from the window's base to its end, unless the owner was closed or one of its reads or writes failed. */
  lemma EndedMeansComplete(env: Env, ss: seq<System>, acts: seq<Action>, k: nat)
    requires IsSystemRun(env, ss, acts) && NoStaleMark(ss, acts) && NoStaleChunk(ss, acts) && k <= |acts|
    requires ss[k].window.ended
    ensures var s := ss[k];
            && s.owner.Some? && s.owner.value < |s.transfers|
            && (s.window.data == BodyFrom(env.remote, s.window.base) || CutShort(s.transfers[s.owner.value]))
  {
    EndedOverRun(env, ss, acts, k);
    AgreementOverRun(env, ss, acts, k);
    var x := ss[k].transfers[ss[k].owner.value];
    assert TransferProtocol.Inv(x);
    if !CutShort(x) {
      assert x.copyPc == Exit(Finished);
      assert x.body[..x.position] == x.body;
    }
  }
}
