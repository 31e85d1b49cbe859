/** Concrete runs of the stream system in which, without the schedule assumptions, a read goes wrong. */
module StreamWitnesses {
  import opened Base
  import opened WindowContract
  import opened Placement
  import opened TransferProtocol
  import opened StreamSystem
  import opened StreamRuns
  import opened StreamProgress
  import opened StreamSteps

  // ----- a wait that cannot end -----

  /** The first read of a stream comes to wait. */
  lemma RunToWaiting(env: Env, q: Query) returns (ss: seq<System>, acts: seq<Action>)
    requires env.size == |env.remote| && 0 <= q.seek <= env.size
    ensures IsSystemRun(env, ss, acts)
    ensures JustSought(env, q, ss[|acts|], 0) && ss[|acts|].reader == Waiting(q)
    ensures !ss[|acts|].closed && ss[|acts|].answers == []
  {
    hide StepAt;
    ss, acts := RunToProbeEnd(env, q);
    var s := ss[|acts|];
    ss, acts := Then(env, ss, acts, Reader(Says(false)), s.(reader := CallWait(q)));
    ss, acts := Then(env, ss, acts, Reader(Go), s.(reader := Waiting(q)));
  }

  /** Some run brings a read, just after its seek, to wait for what its producer can never bring. */
  ghost predicate Deadlocks(env: Env, q: Query) {
    exists ss: seq<System>, acts: seq<Action>, i: nat ::
      IsSystemRun(env, ss, acts) && WaitsInVain(env, q, ss[|acts|], i)
  }

  ghost predicate WaitsInVain(env: Env, q: Query, s: System, i: nat) {
    s.reader == Waiting(q) && JustSought(env, q, s, i) && !CanBecomeAvailable(env, q, s, i)
  }

  /** Exactly the requests that do not fit can come to wait in vain. */
  lemma DeadlocksIff(env: Env, q: Query)
    requires env.size == |env.remote| && 0 <= q.seek <= env.size
    ensures Deadlocks(env, q) <==> !WaitFits(env, q)
  {
    if Deadlocks(env, q) {
      var ss, acts, i: nat :| IsSystemRun(env, ss, acts) && WaitsInVain(env, q, ss[|acts|], i);
      InvOverSystemRun(env, ss, acts, |acts|);
      SeekWaitEndsIff(env, q, ss[|acts|], i);
    } else {
      var ss, acts := RunToWaiting(env, q);
      InvOverSystemRun(env, ss, acts, |acts|);
      SeekWaitEndsIff(env, q, ss[|acts|], 0);
      assert !WaitsInVain(env, q, ss[|acts|], 0);
    }
  }

  /** A request of capacity less look-behind is covered by the window (WindowCoversRequest), but the wait asks for
      the position after it: for every file over 64 MiB a read at 16 MiB can come to wait in vain. */
  lemma WaitDeadlocksAtGuaranteedLength(env: Env)
    requires env.size == |env.remote| > SMALL_VIDEO_BUFFER
    ensures Deadlocks(env, Query(MAX_PRELOAD_SIZE, GuaranteedLength(env.size)))
  {
    DeadlocksIff(env, Query(MAX_PRELOAD_SIZE, GuaranteedLength(env.size)));
  }

  // ----- a stale chunk reaches a reader -----

  const FILE: seq<byte> := [10, 11, 12, 13]
  const ENV := Env(FILE, 4)
  const FIRST := Query(0, 1)
  const SECOND := Query(3, 1)

  function FirstTransfer(): Transfer {
    NewTransfer(0, FILE, true).(startPc := Select, waiting := 1, position := 1, copyPc := Writing([10], NoError))
  }

  /** A read at 0 started a transfer and timed out; the transfer has the byte 10 in hand. */
  function AfterFirst(): System {
    NewSystem(ENV).(transfers := [FirstTransfer()], current := Some(0), owner := Some(0),
                    answers := [Answer(FIRST, [])])
  }

  lemma RunFirst() returns (ss: seq<System>, acts: seq<Action>)
    ensures IsSystemRun(ENV, ss, acts) && ss[|acts|] == AfterFirst()
  {
    var s := NewSystem(ENV);
    ss, acts := ReaderSeeks(ENV, [s], [], FIRST);
    ss, acts := Then(ENV, ss, acts, Reader(Go), s.(reader := Reset(FIRST)));
    ss, acts := Then(ENV, ss, acts, Reader(Go), s.(reader := Start(FIRST)));
    assert FILE[0..] == FILE;
    var t := s.(transfers := [NewTransfer(0, FILE, true)], current := Some(0), owner := Some(0),
                reader := ProbeEnd(FIRST));
    ss, acts := Then(ENV, ss, acts, Reader(Go), t);
    ss, acts := RunFirstTimesOut(ss, acts);
  }

  lemma RunFirstTimesOut(ss: seq<System>, acts: seq<Action>) returns (ts: seq<System>, bcts: seq<Action>)
    requires IsSystemRun(ENV, ss, acts)
    requires ss[|acts|] == NewSystem(ENV).(transfers := [NewTransfer(0, FILE, true)], current := Some(0),
                                           owner := Some(0), reader := ProbeEnd(FIRST))
    ensures IsSystemRun(ENV, ts, bcts) && ts[|bcts|] == AfterFirst()
  {
    hide StepAt;
    var t := ss[|acts|];
    ts, bcts := Then(ENV, ss, acts, Reader(Says(false)), t.(reader := CallWait(FIRST)));
    ts, bcts := Then(ENV, ts, bcts, Reader(Go), t.(reader := Waiting(FIRST)));
    t := Answered(t, FIRST, []);
    ts, bcts := Then(ENV, ts, bcts, Reader(Says(false)), t);
    ts, bcts := TransferComesUp(ENV, ts, bcts, 0);
    assert FILE[0..1] == [10];
    ts, bcts := Then(ENV, ts, bcts, Copier(0, ReadReturn(1, NoError)), SetTransfer(t, 0, FirstTransfer()));
  }

  /** The old transfer once its Close has returned, the chunk still in hand. */
  function ClosedFirst(): Transfer {
    FirstTransfer().(startPc := Left(false), waiting := 0, connectionClosed := true, hasConnection := false,
                     cancelled := true, closePc := CloseReturned, marks := 1)
  }

  function SecondTransfer(): Transfer { NewTransfer(1, [11, 12, 13], true) }

  /** A read at 3 has closed that transfer, moved the window to 1 and started the next one. */
  function AfterSeek(): System {
    AfterFirst().(transfers := [ClosedFirst(), SecondTransfer()], current := Some(1), owner := Some(1),
                  window := Fresh(4, 1), reader := ProbeEnd(SECOND))
  }

  lemma RunClose(ss: seq<System>, acts: seq<Action>) returns (ts: seq<System>, bcts: seq<Action>)
    requires IsSystemRun(ENV, ss, acts) && ss[|acts|] == AfterFirst()
    ensures IsSystemRun(ENV, ts, bcts)
    ensures ts[|bcts|] == WaitingForStart()
  {
    hide StepAt;
    ts, bcts := ReaderSeeks(ENV, ss, acts, SECOND);
    var s := AfterFirst().(reader := CallClose(SECOND));
    ts, bcts := Then(ENV, ts, bcts, Reader(Go), s);
    s := s.(reader := Closing(SECOND, 0));
    var x := FirstTransfer().(closePc := CloseConn);
    ts, bcts := Then(ENV, ts, bcts, Reader(Go), SetTransfer(s, 0, x));
    x := x.(closePc := CloseCancel, connectionClosed := true);
    ts, bcts := Then(ENV, ts, bcts, Reader(Go), SetTransfer(s, 0, x));
    x := x.(closePc := CloseWait, cancelled := true);
    ts, bcts := Then(ENV, ts, bcts, Reader(Go), SetTransfer(s, 0, x));
  }

  /** The state in which the reader waits for the old `start`. */
  function WaitingForStart(): System {
    SetTransfer(AfterFirst(), 0, FirstTransfer().(closePc := CloseWait, connectionClosed := true, cancelled := true))
      .(reader := Closing(SECOND, 0))
  }

  function MarkingFirst(): Transfer {
    FirstTransfer().(startPc := Mark(false), connectionClosed := true, hasConnection := false,
                     cancelled := true, closePc := CloseWait)
  }

  lemma RunStartDrops(ss: seq<System>, acts: seq<Action>) returns (ts: seq<System>, bcts: seq<Action>)
    requires IsSystemRun(ENV, ss, acts) && ss[|acts|] == WaitingForStart()
    ensures IsSystemRun(ENV, ts, bcts)
    ensures ts[|bcts|] == SetTransfer(WaitingForStart(), 0, MarkingFirst())
  {
    hide StepAt;
    var s := ss[|acts|];
    var x := s.transfers[0].(startPc := CloseConnection);
    ts, bcts := Then(ENV, ss, acts, Starter(0, Silent), SetTransfer(s, 0, x));
    x := x.(startPc := DropConnection);
    ts, bcts := Then(ENV, ts, bcts, Starter(0, Silent), SetTransfer(s, 0, x));
    x := x.(startPc := Mark(false), hasConnection := false);
    ts, bcts := Then(ENV, ts, bcts, Starter(0, Silent), SetTransfer(s, 0, x));
  }

  lemma RunHandover(ss: seq<System>, acts: seq<Action>) returns (ts: seq<System>, bcts: seq<Action>)
    requires IsSystemRun(ENV, ss, acts)
    requires ss[|acts|] == SetTransfer(WaitingForStart(), 0, ClosedFirst())
                              .(window := AfterFirst().window.(ended := true))
    ensures IsSystemRun(ENV, ts, bcts) && ts[|bcts|] == AfterSeek()
  {
    hide StepAt;
    var s := ss[|acts|].(reader := DropTransfer(SECOND));
    ts, bcts := Then(ENV, ss, acts, Reader(Go), s);
    s := s.(reader := Reset(SECOND), current := None);
    ts, bcts := Then(ENV, ts, bcts, Reader(Go), s);
    s := s.(reader := Start(SECOND), window := Fresh(4, 1), owner := None);
    ts, bcts := Then(ENV, ts, bcts, Reader(Go), s);
    assert FILE[1..] == [11, 12, 13];
    ts, bcts := Then(ENV, ts, bcts, Reader(Go), AfterSeek());
  }

  lemma RunSeek() returns (ss: seq<System>, acts: seq<Action>)
    ensures IsSystemRun(ENV, ss, acts) && ss[|acts|] == AfterSeek()
  {
    ss, acts := RunFirst();
    ss, acts := RunClose(ss, acts);
    ss, acts := RunStartDrops(ss, acts);
    ss, acts := StarterMarks(ENV, ss, acts, 0);
    ss, acts := StarterLeaves(ENV, ss, acts, 0, SECOND);
    ss, acts := RunHandover(ss, acts);
  }

  /** "Every read returns the remote file's bytes" is false without the no-stale-chunk assumption: the old
      transfer's byte lands in the new window and shifts what the reader gets. */
  lemma StaleChunkReachesReader()
    ensures exists ss: seq<System>, acts: seq<Action> ::
              IsSystemRun(ENV, ss, acts) && Answer(SECOND, [12]) in ss[|acts|].answers
    ensures !IsSliceAt(ENV.remote, SECOND.seek, [12])
  {
    var ss, acts := RunSeek();
    ss, acts := CopierWrites(ENV, ss, acts, 0, [10]);
    ss, acts := TransferComesUp(ENV, ss, acts, 1);
    ss, acts := RunShiftedFill(ss, acts);
    ss, acts := RunShiftedRead(ss, acts);
    assert FILE[3..4] == [13];
  }

  lemma RunShiftedFill(ss: seq<System>, acts: seq<Action>) returns (ts: seq<System>, bcts: seq<Action>)
    requires IsSystemRun(ENV, ss, acts)
    requires var s := ss[|acts|];
             && s.window == Fresh(4, 1).(data := [10]) && s.reader == ProbeEnd(SECOND) && s.hasBuffer && !s.crashed
             && |s.transfers| == 2
             && s.transfers[1] == SecondTransfer().(startPc := Select, waiting := 1, copyPc := Reading)
    ensures IsSystemRun(ENV, ts, bcts)
    ensures var t := ts[|bcts|];
            t.window == Fresh(4, 1).(data := [10, 11, 12, 13]) && t.reader == ProbeEnd(SECOND) && t.hasBuffer
            && !t.crashed
  {
    hide StepAt;
    var s := ss[|acts|];
    var body: seq<byte> := [11, 12, 13];
    assert body[0..3] == body;
    var x := s.transfers[1].(position := 3, copyPc := Writing(body, NoError));
    ts, bcts := Then(ENV, ss, acts, Copier(1, ReadReturn(3, NoError)), SetTransfer(s, 1, x));
    ts, bcts := CopierWrites(ENV, ts, bcts, 1, body);
  }

  lemma RunShiftedRead(ss: seq<System>, acts: seq<Action>) returns (ts: seq<System>, bcts: seq<Action>)
    requires IsSystemRun(ENV, ss, acts)
    requires var s := ss[|acts|];
             s.window == Fresh(4, 1).(data := [10, 11, 12, 13]) && s.reader == ProbeEnd(SECOND) && s.hasBuffer
             && !s.crashed
    ensures IsSystemRun(ENV, ts, bcts)
    ensures Answer(SECOND, [12]) in ts[|bcts|].answers
  {
    hide StepAt;
    var s := ss[|acts|].(reader := Fetch(SECOND));
    ts, bcts := Then(ENV, ss, acts, Reader(Says(true)), s);
    assert s.window.data[2..3] == [12];
    s := Answered(s, SECOND, [12]);
    ts, bcts := Then(ENV, ts, bcts, Reader(Gets([12])), s);
    assert s.answers[|s.answers| - 1] == Answer(SECOND, [12]);
  }
}
