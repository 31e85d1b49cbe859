/**
 How every ReadAt of every run goes: what must have happened before it gets where it is, and that a read which fits
 can be answered in full.
 */
module StreamReads {
  import opened Base
  import opened WindowContract
  import opened Placement
  import opened TransferProtocol
  import opened StreamSystem
  import opened StreamInvariant
  import opened StreamRuns
  import opened StreamReturns
  import opened StreamStale
  import opened StreamLanding
  import opened StreamSteps
  import opened StreamProgress
  import opened StreamWitnesses

  // ----- the stages of a read -----

  datatype Stage =
    | Admitted   // past the test for a closed stream
    | Missed     // on its way to a new transfer
    | Placed     // past the seek
    | Waits      // waiting for the requested position
    | Covered    // about to read the buffer

  predicate InStage(stage: Stage, pc: ReaderPc): (within: bool)
    ensures within ==> !pc.Idle?
  {
    match stage
    case Admitted => !pc.Idle? && !pc.TestClosed?
    case Missed =>
      pc.RetestClosed? || pc.RetestBuffer? || pc.TestTransfer? || pc.CallClose? || pc.Closing? || pc.DropTransfer?
      || pc.Reset? || pc.Start?
    case Placed => pc.ProbeEnd? || pc.CallWait? || pc.Waiting? || pc.Fetch?
    case Waits => pc.CallWait? || pc.Waiting?
    case Covered => pc.Fetch?
  }

  /** The only ways into a stage: the stream was not closed; the window was said not to have the seek position; it was
      said to have it, and does, and the transfer stays, or a new transfer was started in a window placed for the seek;
      the window was said not to have the end of the request; it has it, or the stream was closed during the wait. */
  predicate Enters(env: Env, stage: Stage, q: Query, s: System, a: Action, t: System) {
    match stage
    case Admitted => s.reader == TestClosed(q) && !s.closed
    case Missed => s.reader == ProbeSeek(q) && a == Reader(Says(false))
    case Placed =>
      || (s.reader == ProbeSeek(q) && a == Reader(Says(true)) && s.window.MayOffer(q.seek)
          && t.transfers == s.transfers && t.current == s.current)
      || (s.reader == Start(q) && t.transfers == s.transfers + [TransferFor(env, q, s.hasBuffer)]
          && t.current == Some(|s.transfers|) && t.window.base == StartPosition(env.size, q.seek))
    case Waits => s.reader == ProbeEnd(q) && a == Reader(Says(false))
    case Covered =>
      || ((s.reader == ProbeEnd(q) || s.reader == Waiting(q)) && a == Reader(Says(true))
          && s.window.MayOffer(Min(q.seek + q.length, env.size)))
      || (s.reader == Waiting(q) && s.closed)
  }

  predicate StaysOrEnters(env: Env, stage: Stage, s: System, a: Action, t: System) {
    InStage(stage, t.reader) ==>
      (InStage(stage, s.reader) && t.reader.q == s.reader.q) || Enters(env, stage, t.reader.q, s, a, t)
  }

  lemma HandingOverEnters(env: Env, stage: Stage, s: System, c: Choice, t: System)
    requires s.window.Valid() && OwnerInv(env, s) && !s.crashed && ReaderStep(env, s, c, t) && HandsOver(s.reader)
    ensures StaysOrEnters(env, stage, s, Reader(c), t)
  {
    hide CloseStep, StartPosition;
    match s.reader
    case CallClose(_) =>
    case Closing(_, _) =>
    case Start(_) =>
    case _ =>
  }

  lemma ProbingEnters(env: Env, stage: Stage, s: System, c: Choice, t: System)
    requires s.window.Valid() && !s.crashed && ReaderStep(env, s, c, t) && !HandsOver(s.reader)
    ensures StaysOrEnters(env, stage, s, Reader(c), t)
  {
    match s.reader
    case ProbeSeek(_) =>
    case ProbeEnd(_) =>
    case Waiting(_) =>
    case _ =>
  }

  lemma StepEnters(env: Env, stage: Stage, s: System, a: Action, t: System)
    requires SystemInv(env, s) && OwnerInv(env, s) && SystemStep(env, s, a, t)
    ensures StaysOrEnters(env, stage, s, a, t)
  {
    hide ReaderStep, CloserStep, StartStep, CopyStep, TransferProtocol.Inv, ConnectionsInv, Enters;
    if a.Reader? {
      if HandsOver(s.reader) {
        HandingOverEnters(env, stage, s, a.choice, t);
      } else {
        ProbingEnters(env, stage, s, a.choice, t);
      }
    } else if a.Closer? {
      CloserTakesEdge(s, a.choice, t);
    } else {
      GoroutineTakesEdge(env, s, a, t);
    }
  }

  /** The read has been in this stage ever since. */
  ghost predicate Stays(stage: Stage, q: Query, ss: seq<System>, j: nat, k: nat) {
    k < |ss| && forall h | j <= h <= k :: InStage(stage, ss[h].reader) && ss[h].reader.q == q
  }

  ghost predicate EnteredAt(env: Env, stage: Stage, ss: seq<System>, acts: seq<Action>, j: nat, k: nat) {
    && j < k < |ss| && j < |acts| && InStage(stage, ss[k].reader)
    && Enters(env, stage, ss[k].reader.q, ss[j], acts[j], ss[j + 1])
    && Stays(stage, ss[k].reader.q, ss, j + 1, k)
  }

  /** Over every run, whatever else happens: a read is in a stage only if it has entered it as it must, and has stayed
      in it since.  So it reads the buffer only once the buffer could offer the end of the request, or the stream was
      closed while it waited; it waits only if told that the position is not there; it keeps its transfer only if the
      window has the seek position; and it starts another only if told that the window has not. */
  lemma {:induction false} StageEntered(env: Env, stage: Stage, ss: seq<System>, acts: seq<Action>, k: nat)
    requires IsSystemRun(env, ss, acts) && k <= |acts| && InStage(stage, ss[k].reader)
    ensures exists j: nat :: EnteredAt(env, stage, ss, acts, j, k)
  {
    hide SystemStep, SystemInv, OwnerInv, Enters, InStage;
    if k > 0 {
      var n := k - 1;
      OwnerOverRun(env, ss, acts, n);
      assert StepAt(env, ss, acts, n);
      StepEnters(env, stage, ss[n], acts[n], ss[k]);
      if InStage(stage, ss[n].reader) && ss[k].reader.q == ss[n].reader.q {
        StageEntered(env, stage, ss, acts, n);
        var j: nat :| EnteredAt(env, stage, ss, acts, j, n);
        assert EnteredAt(env, stage, ss, acts, j, k);
      } else {
        assert EnteredAt(env, stage, ss, acts, n, k);
      }
    }
  }

  /** Why a read comes back, and that it then adds exactly its own answer: the stream was closed or its buffer gone,
      the wait timed out, or the buffer was read. */
  lemma ReadEnds(env: Env, s: System, c: Choice, t: System)
    requires s.window.Valid() && !s.crashed && ReaderStep(env, s, c, t) && !s.reader.Idle?
    ensures t.reader.Idle? <==> t.answers != s.answers
    ensures t.reader.Idle? ==>
              && |t.answers| == |s.answers| + 1 && s.answers <= t.answers
              && t.answers[|s.answers|].query == s.reader.q
              && match s.reader {
                case TestClosed(_) => s.closed && t.answers[|s.answers|].bytes == []
                case RetestClosed(_) => s.closed && t.answers[|s.answers|].bytes == []
                case TestBuffer(_) => !s.hasBuffer && t.answers[|s.answers|].bytes == []
                case RetestBuffer(_) => !s.hasBuffer && t.answers[|s.answers|].bytes == []
                case Waiting(_) => c == Says(false) && !s.closed && t.answers[|s.answers|].bytes == []
                case Fetch(q) => c == Gets(t.answers[|s.answers|].bytes)
                                 && s.window.Read(q.seek, q.length, t.answers[|s.answers|].bytes, t.window)
                case _ => false
              }
  {
    hide CloseStep, StartPosition, RequestedPosition, Window.MayOffer;
    match s.reader
    case Fetch(_) =>
    case Waiting(_) =>
    case CallClose(_) =>
    case Closing(_, _) =>
    case _ =>
  }

  // ----- nobody gets stuck -----

  /** What the environment may answer to the reader's next action. */
  predicate MayAnswer(env: Env, s: System, c: Choice, w: Window)
    requires s.window.Valid()
  {
    match s.reader
    case Idle => c.Ask?
    case ProbeSeek(q) => c.Says? && (c.yes ==> s.window.MayOffer(q.seek))
    case ProbeEnd(q) => c.Says? && (c.yes ==> s.window.MayOffer(Min(q.seek + q.length, env.size)))
    case Waiting(q) => c.Says? && (c.yes ==> s.window.MayOffer(Min(q.seek + q.length, env.size)))
    case Fetch(q) => c.Gets? && s.window.Read(q.seek, q.length, c.bytes, w)
    case _ => c.Go?
  }

  /** Whatever it is answered, the reader goes on, unless it waits for a `start`. */
  lemma ReaderGoesOn(env: Env, s: System, c: Choice, w: Window)
    requires s.window.Valid() && FieldsInv(s) && MayAnswer(env, s, c, w) && !AwaitsStart(s)
    ensures exists t: System :: ReaderStep(env, s, c, t)
  {
    var t := s;
    match s.reader {
      case Idle => t := s.(reader := TestClosed(c.q));
      case TestClosed(q) => t := if s.closed then Answered(s, q, []) else s.(reader := TestBuffer(q));
      case TestBuffer(q) => t := if s.hasBuffer then s.(reader := ProbeSeek(q)) else Answered(s, q, []);
      case ProbeSeek(q) =>
        t := if !s.hasBuffer then Crashed(s) else s.(reader := if c.yes then ProbeEnd(q) else RetestClosed(q));
      case RetestClosed(q) => t := if s.closed then Answered(s, q, []) else s.(reader := RetestBuffer(q));
      case RetestBuffer(q) => t := if s.hasBuffer then s.(reader := TestTransfer(q)) else Answered(s, q, []);
      case ProbeEnd(q) =>
        t := if !s.hasBuffer then Crashed(s) else s.(reader := if c.yes then Fetch(q) else CallWait(q));
      case CallWait(q) => t := if s.hasBuffer then s.(reader := Waiting(q)) else Crashed(s);
      case Waiting(q) => t := if c.yes || s.closed then s.(reader := Fetch(q)) else Answered(s, q, []);
      case Fetch(q) => t := if !s.hasBuffer then Crashed(s) else Answered(s, q, c.bytes).(window := w);
      case _ => t := HandedOver(env, s);
    }
    assert ReaderStep(env, s, c, t);
  }

  // ----- a read that fits can be answered -----

  /** A system run followed by the producer alone. */
  lemma Joined(env: Env, i: nat, ss: seq<System>, acts: seq<Action>, ts: seq<System>, bcts: seq<Action>)
    returns (us: seq<System>, ccts: seq<Action>)
    requires IsSystemRun(env, ss, acts) && ProducerRun(env, i, ts, bcts) && ts[0] == ss[|acts|]
    ensures IsSystemRun(env, us, ccts) && us[|ccts|] == ts[|bcts|]
  {
    hide SystemStep;
    us, ccts := ss + ts[1..], acts + bcts;
    forall k: nat | k < |ccts| ensures StepAt(env, us, ccts, k) {
      if k < |acts| {
        assert StepAt(env, ss, acts, k);
      } else {
        assert StepAt(env, ts, bcts, k - |acts|);
        assert us[k] == ts[k - |acts|] && us[k + 1] == ts[k - |acts| + 1];
      }
    }
  }

  /** The producer brings what the waiting read needs. */
  lemma WaitIsFilled(env: Env, q: Query, s: System, i: nat) returns (ss: seq<System>, acts: seq<Action>, n: nat)
    requires JustSought(env, q, s, i) && WaitFits(env, q)
    ensures ProducerRun(env, i, ss, acts) && ss[0] == s && Offers(env, q, ss[|acts|])
    ensures var t := ss[|acts|];
            && t.reader == s.reader && t.hasBuffer && !t.crashed
            && t.closed == s.closed && t.answers == s.answers && |t.transfers| == |s.transfers|
            && RequestedPosition(env.size, q.seek, q.length) - s.window.base <= n <= |s.transfers[i].body|
            && t.window.base == t.window.low == s.window.base && t.window.data == s.transfers[i].body[..n]
  {
    var target := RequestedPosition(env.size, q.seek, q.length);
    var start := StartPosition(env.size, q.seek);
    WindowReachesSeek(env, q);
    var body := s.transfers[i].body;
    if target < env.size && target < start + BufferSize(env.size) {
      n := target - start + 1;
      ss, acts := FillTo(env, q, s, i, n);
    } else {
      n := |body|;
      ss, acts := FinishBody(env, q, s, i);
      assert body[..n] == body;
    }
  }

  /** The bytes a read asks for, as far as the file goes. */
  function Requested(env: Env, q: Query): seq<byte>
    requires 0 <= q.seek <= env.size == |env.remote|
  {
    env.remote[q.seek..Min(q.seek + q.length, env.size)]
  }

  lemma BodyHasRequested(env: Env, q: Query, n: nat)
    requires 0 <= q.seek <= env.size == |env.remote|
    requires var start := StartPosition(env.size, q.seek);
             RequestedPosition(env.size, q.seek, q.length) - start <= n <= |BodyFrom(env.remote, start)|
    ensures var start := StartPosition(env.size, q.seek);
            var m := |Requested(env, q)|;
            && start <= q.seek && q.seek - start + m <= n && m <= q.length
            && BodyFrom(env.remote, start)[..n][q.seek - start..q.seek - start + m] == Requested(env, q)
  {
    WindowReachesSeek(env, q);
  }

  /** The stream has its buffer, and the window all that the read asks for, from the read's own transfer. */
  predicate HasRequested(env: Env, q: Query, s: System)
    requires 0 <= q.seek <= env.size == |env.remote|
  {
    && s.window.Valid() && s.hasBuffer && !s.crashed && !s.closed && |s.transfers| == 1
    && Offers(env, q, s) && (q.length > 0 && q.seek < env.size ==> s.window.Holds(q.seek))
    && s.window.Read(q.seek, q.length, Requested(env, q), s.window)
  }

  lemma RunToFilled(env: Env, q: Query) returns (ss: seq<System>, acts: seq<Action>)
    requires env.size == |env.remote| && 0 <= q.seek <= env.size && WaitFits(env, q)
    ensures IsSystemRun(env, ss, acts)
    ensures var s := ss[|acts|]; HasRequested(env, q, s) && s.reader == Waiting(q) && s.answers == []
  {
    hide StepAt, WaitFits;
    ss, acts := RunToWaiting(env, q);
    var ts, bcts, n := WaitIsFilled(env, q, ss[|acts|], 0);
    ss, acts := Joined(env, 0, ss, acts, ts, bcts);
    InvOverSystemRun(env, ss, acts, |acts|);
    BodyHasRequested(env, q, n);
  }

  /** The wait is over, and the read is answered. */
  lemma WaitingReadAnswers(env: Env, q: Query, ss: seq<System>, acts: seq<Action>)
    returns (ts: seq<System>, bcts: seq<Action>)
    requires 0 <= q.seek <= env.size == |env.remote| && IsSystemRun(env, ss, acts)
    requires HasRequested(env, q, ss[|acts|]) && ss[|acts|].reader == Waiting(q)
    ensures IsSystemRun(env, ts, bcts) && ts[|bcts|] == Answered(ss[|acts|], q, Requested(env, q))
  {
    hide StepAt;
    var s := ss[|acts|].(reader := Fetch(q));
    ts, bcts := Then(env, ss, acts, Reader(Says(true)), s);
    ts, bcts := Then(env, ts, bcts, Reader(Gets(Requested(env, q))), Answered(s, q, Requested(env, q)));
  }

  /** Every read that fits in its window is, in some run, answered with all the bytes it asked for. */
  lemma FittingReadCanBeAnswered(env: Env, q: Query)
    requires env.size == |env.remote| && 0 <= q.seek <= env.size && WaitFits(env, q)
    ensures exists ss: seq<System>, acts: seq<Action> ::
              IsSystemRun(env, ss, acts) && ss[|acts|].answers == [Answer(q, Requested(env, q))]
  {
    hide StepAt, WaitFits, HasRequested;
    var ss, acts := RunToFilled(env, q);
    ss, acts := WaitingReadAnswers(env, q, ss, acts);
  }

  /** A read whose bytes the window has goes straight to them. */
  lemma KeptReadAnswers(env: Env, q: Query, ss: seq<System>, acts: seq<Action>)
    returns (ts: seq<System>, bcts: seq<Action>)
    requires 0 <= q.seek < env.size == |env.remote| && q.length > 0 && IsSystemRun(env, ss, acts)
    requires HasRequested(env, q, ss[|acts|]) && ss[|acts|].reader.Idle?
    ensures IsSystemRun(env, ts, bcts) && ts[|bcts|] == Answered(ss[|acts|], q, Requested(env, q))
  {
    hide StepAt, Requested;
    var s := ss[|acts|];
    ts, bcts := Then(env, ss, acts, Reader(Ask(q)), s.(reader := TestClosed(q)));
    ts, bcts := Then(env, ts, bcts, Reader(Go), s.(reader := TestBuffer(q)));
    ts, bcts := Then(env, ts, bcts, Reader(Go), s.(reader := ProbeSeek(q)));
    ts, bcts := Then(env, ts, bcts, Reader(Says(true)), s.(reader := ProbeEnd(q)));
    ts, bcts := Then(env, ts, bcts, Reader(Says(true)), s.(reader := Fetch(q)));
    ts, bcts := Then(env, ts, bcts, Reader(Gets(Requested(env, q))), Answered(s, q, Requested(env, q)));
  }

  /** And made again at once it can be answered the same, without a new transfer. */
  lemma KeptReadCanBeAnswered(env: Env, q: Query)
    requires env.size == |env.remote| && 0 <= q.seek < env.size && q.length > 0 && WaitFits(env, q)
    ensures exists ss: seq<System>, acts: seq<Action> ::
              && IsSystemRun(env, ss, acts) && |ss[|acts|].transfers| == 1
              && ss[|acts|].answers == [Answer(q, Requested(env, q)), Answer(q, Requested(env, q))]
  {
    hide StepAt, WaitFits, Requested;
    var ss, acts := RunToFilled(env, q);
    ss, acts := WaitingReadAnswers(env, q, ss, acts);
    ss, acts := KeptReadAnswers(env, q, ss, acts);
  }
}
