/** Whether the wait after a seek can ever end: the producer alone fills the fresh window. */
module StreamProgress {
  import opened Base
  import opened WindowContract
  import opened Placement
  import opened TransferProtocol
  import opened StreamSystem
  import opened StreamInvariant
  import opened StreamRuns

  /** The state newTransfer leaves, also once its read has come to wait: an empty window placed for `q` and a
      transfer not yet begun. */
  predicate JustSought(env: Env, q: Query, s: System, i: nat) {
    && !s.crashed
    && (s.reader == ProbeEnd(q) || s.reader == Waiting(q))
    && s.hasBuffer && !s.window.closed
    && i + 1 == |s.transfers|
    && s.owner == Some(i) == s.current
    && s.transfers[i] == TransferFor(env, q, true)
    && s.window == Fresh(BufferSize(env.size), StartPosition(env.size, q.seek))
    && env.size == |env.remote|
    && 0 <= q.seek <= env.size
  }

  /** It is what the reader's two last actions of newTransfer produce. */
  lemma SeekLeavesJustSought(env: Env, q: Query, s: System, t: System, u: System)
    requires SystemInv(env, s) && s.hasBuffer && !s.window.closed && !s.crashed
    requires s.reader == Reset(q) && env.size == |env.remote| && 0 <= q.seek <= env.size
    requires ReaderStep(env, s, Go, t) && ReaderStep(env, t, Go, u)
    ensures JustSought(env, q, u, |s.transfers|) && u.reader == ProbeEnd(q)
  {
    assert s.window.capacity == BufferSize(env.size);
  }

  /** Steps of transfer `i`'s two goroutines only: nobody reads, seeks or closes. */
  predicate Produces(a: Action, i: nat) { (a.Starter? || a.Copier?) && a.i == i }

  /** Reads fail only by reaching the end, and writes do not fail. */
  predicate FaultFree(a: Action) {
    (a.Starter? || a.Copier?) &&
    match a.e
    case ReadReturn(_, error) => error != Broken
    case ChunkWrite(_, failed) => !failed
    case _ => true
  }

  /** A run of the producer alone. */
  ghost predicate ProducerRun(env: Env, i: nat, ss: seq<System>, acts: seq<Action>) {
    && |ss| == |acts| + 1
    && forall k: nat | k < |acts| :: StepAt(env, ss, acts, k) && Produces(acts[k], i) && FaultFree(acts[k])
  }

  lemma Append(env: Env, i: nat, ss: seq<System>, acts: seq<Action>, a: Action, t: System)
    returns (ts: seq<System>, bcts: seq<Action>)
    requires ProducerRun(env, i, ss, acts) && ss[|acts|].window.Valid() && SystemStep(env, ss[|acts|], a, t)
    requires Produces(a, i) && FaultFree(a)
    ensures ts == ss + [t] && bcts == acts + [a] && ProducerRun(env, i, ts, bcts)
  {
    ts, bcts := ss + [t], acts + [a];
    forall k: nat | k < |bcts| ensures StepAt(env, ts, bcts, k) && Produces(bcts[k], i) && FaultFree(bcts[k]) {
      if k < |acts| {
        assert StepAt(env, ss, acts, k) && Produces(acts[k], i) && FaultFree(acts[k]);
      }
    }
  }

  // ----- filling the window -----

  /** `n` bytes of the body are in the window and `copyData` is about to do `pc`. */
  function Filled(s: System, i: nat, n: nat, pc: CopyPc): System
    requires i < |s.transfers| && n <= |s.transfers[i].body|
  {
    var x := s.transfers[i];
    SetTransfer(s, i, x.(startPc := Select, waiting := 1, copyPc := pc, position := n, written := x.body[..n]))
      .(window := s.window.(data := x.body[..n]))
  }

  lemma FirstSteps(env: Env, q: Query, s: System, i: nat) returns (ss: seq<System>, acts: seq<Action>)
    requires JustSought(env, q, s, i)
    ensures ProducerRun(env, i, ss, acts) && ss[0] == s
    ensures ss[|acts|] == Filled(s, i, 0, Head)
  {
    ss, acts := [s], [];
    var x := s.transfers[i].(startPc := Spawn, waiting := 1);
    ss, acts := Append(env, i, ss, acts, Starter(i, Silent), SetTransfer(s, i, x));
    var y := x.(startPc := Select, copyPc := Head);
    assert y == s.transfers[i].(startPc := Select, waiting := 1, copyPc := Head, position := 0, written := x.body[..0]);
    ss, acts := Append(env, i, ss, acts, Starter(i, Silent), Filled(s, i, 0, Head));
  }

  /** One turn of the copy loop: head, load and read call. */
  lemma ToReading(env: Env, q: Query, s: System, i: nat, n: nat, ss: seq<System>, acts: seq<Action>)
    returns (ts: seq<System>, bcts: seq<Action>)
    requires JustSought(env, q, s, i) && n <= |s.transfers[i].body| && n <= s.window.capacity
    requires ProducerRun(env, i, ss, acts) && ss[|acts|] == Filled(s, i, n, Head)
    ensures ProducerRun(env, i, ts, bcts) && ts[0] == ss[0] && ts[|bcts|] == Filled(s, i, n, Reading)
  {
    ts, bcts := Append(env, i, ss, acts, Copier(i, Silent), Filled(s, i, n, Load));
    ts, bcts := Append(env, i, ts, bcts, Copier(i, ReadCall), Filled(s, i, n, Reading));
  }

  lemma ReadAndWrite(env: Env, q: Query, s: System, i: nat, n: nat, m: nat, ss: seq<System>, acts: seq<Action>)
    returns (ts: seq<System>, bcts: seq<Action>)
    requires JustSought(env, q, s, i) && 0 < m <= CHUNK_SIZE && n + m <= |s.transfers[i].body|
             && n + m <= s.window.capacity
    requires ProducerRun(env, i, ss, acts) && ss[|acts|] == Filled(s, i, n, Reading)
    ensures ProducerRun(env, i, ts, bcts) && ts[0] == ss[0] && ts[|bcts|] == Filled(s, i, n + m, Head)
  {
    var u := Filled(s, i, n, Reading);
    var body := s.transfers[i].body;
    var chunk := body[n..n + m];
    var x := u.transfers[i].(position := n + m, copyPc := Writing(chunk, NoError));
    ts, bcts := Append(env, i, ss, acts, Copier(i, ReadReturn(m, NoError)), SetTransfer(u, i, x));
    NextOfBody(body, n, m);
    assert chunk[..m] == chunk;
    assert x.(written := x.written + chunk[..m], copyPc := Head) == Filled(s, i, n + m, Head).transfers[i];
    ts, bcts := Append(env, i, ts, bcts, Copier(i, ChunkWrite(m, false)), Filled(s, i, n + m, Head));
  }

  /** Turn by turn, any amount that the body has and the window takes. */
  lemma {:induction false} FillTo(env: Env, q: Query, s: System, i: nat, n: nat)
    returns (ss: seq<System>, acts: seq<Action>)
    requires JustSought(env, q, s, i) && n <= |s.transfers[i].body| && n <= s.window.capacity
    ensures ProducerRun(env, i, ss, acts) && ss[0] == s && ss[|acts|] == Filled(s, i, n, Head)
    decreases n
  {
    if n == 0 {
      ss, acts := FirstSteps(env, q, s, i);
    } else {
      var m := Min(n, CHUNK_SIZE);
      ss, acts := FillTo(env, q, s, i, n - m);
      ss, acts := ToReading(env, q, s, i, n - m, ss, acts);
      ss, acts := ReadAndWrite(env, q, s, i, n - m, m, ss, acts);
    }
  }

  /** `copyData` meets the end of the body and sends its result. */
  lemma MeetEnd(env: Env, q: Query, s: System, i: nat) returns (ss: seq<System>, acts: seq<Action>)
    requires JustSought(env, q, s, i) && |s.transfers[i].body| <= s.window.capacity
    ensures ProducerRun(env, i, ss, acts) && ss[0] == s
    ensures var u := Filled(s, i, |s.transfers[i].body|, Exit(Finished));
            ss[|acts|] == SetTransfer(u, i, u.transfers[i].(channel := Some(Finished), sent := 1))
  {
    var n := |s.transfers[i].body|;
    ss, acts := FillTo(env, q, s, i, n);
    ss, acts := ToReading(env, q, s, i, n, ss, acts);
    var u := Filled(s, i, n, Send(Finished));
    ss, acts := Append(env, i, ss, acts, Copier(i, ReadReturn(0, EndOfBody)), u);
    var x := u.transfers[i].(channel := Some(Finished), sent := 1, copyPc := Exit(Finished));
    ss, acts := Append(env, i, ss, acts, Copier(i, Silent), SetTransfer(u, i, x));
  }

  /** With the whole body in the window: the end of the body, the result, the end marker. */
  lemma FinishBody(env: Env, q: Query, s: System, i: nat) returns (ss: seq<System>, acts: seq<Action>)
    requires JustSought(env, q, s, i) && |s.transfers[i].body| <= s.window.capacity
    ensures ProducerRun(env, i, ss, acts) && ss[0] == s
    ensures var t := ss[|acts|];
            && t.window == s.window.(data := s.transfers[i].body, ended := true)
            && t.reader == s.reader && t.hasBuffer && !t.crashed && t.answers == s.answers
            && t.closed == s.closed && |t.transfers| == |s.transfers|
  {
    ss, acts := MeetEnd(env, q, s, i);
    var u := ss[|acts|];
    var x := u.transfers[i].(startPc := Mark(true), channel := None);
    ss, acts := Append(env, i, ss, acts, Starter(i, Silent), SetTransfer(u, i, x));
    x := x.(startPc := Leave(true), marks := 1);
    u := SetTransfer(u, i, x).(window := u.window.(ended := true));
    ss, acts := Append(env, i, ss, acts, Starter(i, MarkWrite), u);
  }

  // ----- what the producer alone can never do -----

  /** Nothing failed and nobody cancelled: the marker means the whole body is in the window. */
  ghost predicate Undisturbed(env: Env, s: System, i: nat) {
    && i < |s.transfers|
    && s.owner == Some(i)
    && WindowIsOwners(s)
    && s.window.base == s.window.low
    && s.transfers[i].closePc.CloseNone?
    && (match s.transfers[i].copyPc
        case Writing(_, error) => error != Broken
        case Send(result) => result == Finished
        case Exit(result) => result == Finished
        case _ => true)
    && (s.window.ended ==> s.transfers[i].copyPc.Exit?)
  }

  lemma ProducerStepKeepsUndisturbed(env: Env, s: System, a: Action, t: System, i: nat)
    requires TransfersInv(env, s) && Undisturbed(env, s, i) && SystemStep(env, s, a, t)
    requires Produces(a, i) && FaultFree(a)
    ensures TransfersInv(env, t) && Undisturbed(env, t, i)
  {
    GoroutineKeepsTransfers(env, s, a, t);
    var x, y := s.transfers[i], t.transfers[i];
    assert TransferProtocol.Inv(x);
    assert y.start == x.start && y.closePc == x.closePc;
  }

  lemma {:induction false} UndisturbedOverRun(env: Env, q: Query, i: nat, ss: seq<System>, acts: seq<Action>, k: nat)
    requires ProducerRun(env, i, ss, acts) && JustSought(env, q, ss[0], i) && SystemInv(env, ss[0]) && k <= |acts|
    ensures TransfersInv(env, ss[k]) && Undisturbed(env, ss[k], i)
    ensures ss[k].window.base == ss[0].window.base
    ensures ss[k].transfers[i].start == ss[0].transfers[i].start && ss[k].transfers[i].body == ss[0].transfers[i].body
  {
    if k > 0 {
      UndisturbedOverRun(env, q, i, ss, acts, k - 1);
      assert StepAt(env, ss, acts, k - 1) && Produces(acts[k - 1], i) && FaultFree(acts[k - 1]);
      ProducerStepKeepsUndisturbed(env, ss[k - 1], acts[k - 1], ss[k], i);
    }
  }

  /** The wait of a read that has just sought can be satisfied. */
  ghost predicate CanBecomeAvailable(env: Env, q: Query, s: System, i: nat) {
    exists ss: seq<System>, acts: seq<Action> ::
      ProducerRun(env, i, ss, acts) && ss[0] == s && Offers(env, q, ss[|acts|])
  }

  predicate Offers(env: Env, q: Query, s: System) {
    s.window.MayOffer(RequestedPosition(env.size, q.seek, q.length))
  }

  /** The window reaches past the requested position, or holds the file to its end. */
  predicate WaitFits(env: Env, q: Query) {
    var end := StartPosition(env.size, q.seek) + BufferSize(env.size);
    RequestedPosition(env.size, q.seek, q.length) < end || env.size <= end
  }

  lemma WaitEndsIfFits(env: Env, q: Query, s: System, i: nat)
    requires JustSought(env, q, s, i) && WaitFits(env, q)
    ensures CanBecomeAvailable(env, q, s, i)
  {
    var target := RequestedPosition(env.size, q.seek, q.length);
    var start := StartPosition(env.size, q.seek);
    WindowReachesSeek(env, q);
    var body := s.transfers[i].body;
    assert |body| == env.size - start;
    if target < env.size && target < start + BufferSize(env.size) {
      var ss, acts := FillTo(env, q, s, i, target - start + 1);
      assert ss[|acts|].window.data == body[..target - start + 1];
      assert Offers(env, q, ss[|acts|]);
    } else {
      var ss, acts := FinishBody(env, q, s, i);
      assert Offers(env, q, ss[|acts|]);
    }
  }

  lemma WindowReachesSeek(env: Env, q: Query)
    requires 0 <= q.seek <= env.size
    ensures StartPosition(env.size, q.seek) <= q.seek
    ensures StartPosition(env.size, q.seek) <= RequestedPosition(env.size, q.seek, q.length) <= env.size
  {
  }

  lemma WaitFitsIfEnds(env: Env, q: Query, s: System, i: nat, ss: seq<System>, acts: seq<Action>)
    requires JustSought(env, q, s, i) && SystemInv(env, s)
    requires ProducerRun(env, i, ss, acts) && ss[0] == s && Offers(env, q, ss[|acts|])
    ensures WaitFits(env, q)
  {
    UndisturbedOverRun(env, q, i, ss, acts, |acts|);
    WindowReachesSeek(env, q);
    var t := ss[|acts|];
    var x := t.transfers[i];
    assert TransferProtocol.Inv(x);
    if t.window.ended {
      assert x.written == x.body[..x.position] && x.position == |x.body|;
    }
  }

  /** Right after newTransfer, with nobody reading meanwhile and no error, the producer can make the
      requested position available before the window is full exactly when the window reaches past that
      position or the file ends inside the window.  Otherwise the wait can only time out. */
  lemma SeekWaitEndsIff(env: Env, q: Query, s: System, i: nat)
    requires SystemInv(env, s) && JustSought(env, q, s, i)
    ensures CanBecomeAvailable(env, q, s, i) <==> WaitFits(env, q)
  {
    if WaitFits(env, q) {
      WaitEndsIfFits(env, q, s, i);
    }
    if CanBecomeAvailable(env, q, s, i) {
      var ss, acts :| ProducerRun(env, i, ss, acts) && ss[0] == s && Offers(env, q, ss[|acts|]);
      WaitFitsIfEnds(env, q, s, i, ss, acts);
    }
  }

  /** The waits that fit: every request shorter than capacity less look-behind, and every request when
      the file is no longer than the window. */
  lemma WaitFitsWhen(env: Env, q: Query)
    requires 0 <= q.seek <= env.size && env.size > 0
    ensures q.length < GuaranteedLength(env.size) || env.size <= SMALL_VIDEO_BUFFER ==> WaitFits(env, q)
  {
  }
}
