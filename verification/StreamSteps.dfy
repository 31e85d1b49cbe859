/** Pieces from which runs of the stream system are put together. */
module StreamSteps {
  import opened Base
  import opened WindowContract
  import opened Placement
  import opened TransferProtocol
  import opened StreamSystem
  import opened StreamRuns

  /** The run extended by one step. */
  lemma Extend(env: Env, ss: seq<System>, acts: seq<Action>, a: Action, t: System)
    returns (ts: seq<System>, bcts: seq<Action>)
    requires IsSystemRun(env, ss, acts) && ss[|acts|].window.Valid() && SystemStep(env, ss[|acts|], a, t)
    ensures ts == ss + [t] && bcts == acts + [a] && IsSystemRun(env, ts, bcts)
  {
    ts, bcts := ss + [t], acts + [a];
    forall k: nat | k < |bcts| ensures StepAt(env, ts, bcts, k) {
      if k < |acts| {
        assert StepAt(env, ss, acts, k);
      }
    }
  }

  /** The same, for runs of which only the end matters. */
  lemma Then(env: Env, ss: seq<System>, acts: seq<Action>, a: Action, t: System)
    returns (ts: seq<System>, bcts: seq<Action>)
    requires IsSystemRun(env, ss, acts) && ss[|acts|].window.Valid() && SystemStep(env, ss[|acts|], a, t)
    ensures IsSystemRun(env, ts, bcts) && ts[|bcts|] == t
  {
    ts, bcts := Extend(env, ss, acts, a, t);
  }

  /** A read that does not find its position comes to look at the current transfer. */
  lemma ReaderSeeks(env: Env, ss: seq<System>, acts: seq<Action>, q: Query) returns (ts: seq<System>, bcts: seq<Action>)
    requires IsSystemRun(env, ss, acts)
    requires var s := ss[|acts|]; s.window.Valid() && s.reader.Idle? && s.hasBuffer && !s.closed && !s.crashed
    ensures IsSystemRun(env, ts, bcts) && ts[|bcts|] == ss[|acts|].(reader := TestTransfer(q))
  {
    hide StepAt;
    var s := ss[|acts|];
    ts, bcts := Then(env, ss, acts, Reader(Ask(q)), s.(reader := TestClosed(q)));
    ts, bcts := Then(env, ts, bcts, Reader(Go), s.(reader := TestBuffer(q)));
    ts, bcts := Then(env, ts, bcts, Reader(Go), s.(reader := ProbeSeek(q)));
    ts, bcts := Then(env, ts, bcts, Reader(Says(false)), s.(reader := RetestClosed(q)));
    ts, bcts := Then(env, ts, bcts, Reader(Go), s.(reader := RetestBuffer(q)));
    ts, bcts := Then(env, ts, bcts, Reader(Go), s.(reader := TestTransfer(q)));
  }

  /** `start` of transfer `i` begins and starts `copyData`. */
  lemma StarterComesUp(env: Env, ss: seq<System>, acts: seq<Action>, i: nat)
    returns (ts: seq<System>, bcts: seq<Action>)
    requires IsSystemRun(env, ss, acts)
    requires var s := ss[|acts|];
             && s.window.Valid() && !s.crashed && i < |s.transfers|
             && s.transfers[i] == NewTransfer(s.transfers[i].start, s.transfers[i].body, s.transfers[i].hasBuffer)
    ensures IsSystemRun(env, ts, bcts)
    ensures var x := ss[|acts|].transfers[i].(startPc := Select, waiting := 1, copyPc := Head);
            ts[|bcts|] == SetTransfer(ss[|acts|], i, x)
  {
    hide StepAt;
    var s := ss[|acts|];
    var x := s.transfers[i].(startPc := Spawn, waiting := 1);
    ts, bcts := Then(env, ss, acts, Starter(i, Silent), SetTransfer(s, i, x));
    x := x.(startPc := Select, copyPc := Head);
    ts, bcts := Then(env, ts, bcts, Starter(i, Silent), SetTransfer(s, i, x));
  }

  /** The goroutines of transfer `i` come up, and `copyData` enters its first read. */
  lemma TransferComesUp(env: Env, ss: seq<System>, acts: seq<Action>, i: nat)
    returns (ts: seq<System>, bcts: seq<Action>)
    requires IsSystemRun(env, ss, acts)
    requires var s := ss[|acts|];
             && s.window.Valid() && !s.crashed && i < |s.transfers|
             && s.transfers[i] == NewTransfer(s.transfers[i].start, s.transfers[i].body, s.transfers[i].hasBuffer)
    ensures IsSystemRun(env, ts, bcts)
    ensures var x := ss[|acts|].transfers[i].(startPc := Select, waiting := 1, copyPc := Reading);
            ts[|bcts|] == SetTransfer(ss[|acts|], i, x)
  {
    hide StepAt;
    ts, bcts := StarterComesUp(env, ss, acts, i);
    var s := ss[|acts|];
    var x := s.transfers[i].(startPc := Select, waiting := 1, copyPc := Load);
    ts, bcts := Then(env, ts, bcts, Copier(i, Silent), SetTransfer(s, i, x));
    x := x.(copyPc := Reading);
    ts, bcts := Then(env, ts, bcts, Copier(i, ReadCall), SetTransfer(s, i, x));
  }

  /** The next action of `start`, once its context is cancelled. */
  function NextOfStart(x: Transfer): Transfer {
    match x.startPc
    case Begin => x.(startPc := Spawn, waiting := x.waiting + 1)
    case Spawn => x.(startPc := Select, copyPc := Head)
    case Select => x.(startPc := CloseConnection)
    case CloseConnection =>
      if x.hasConnection then x.(startPc := DropConnection, connectionClosed := true) else x.(startPc := Mark(false))
    case DropConnection => x.(startPc := Mark(false), hasConnection := false)
    case Mark(byResult) => x.(startPc := Leave(byResult), marks := x.marks + 1)
    case Leave(byResult) => x.(startPc := Left(byResult), waiting := if x.waiting > 0 then x.waiting - 1 else 0)
    case Left(_) => x
  }

  /** The reader waits for the `start` of the transfer it is closing. */
  predicate AwaitsStart(s: System) {
    && s.reader.Closing? && s.reader.i < |s.transfers|
    && s.transfers[s.reader.i].closePc.CloseWait? && s.transfers[s.reader.i].waiting > 0
  }

  /** One action on in the Close of transfer `i`. */
  function ClosedOn(s: System, i: nat): System
    requires i < |s.transfers|
  {
    var x := s.transfers[i];
    match x.closePc
    case CloseNone => SetTransfer(s, i, x.(closePc := CloseConn))
    case CloseConn =>
      SetTransfer(s, i, x.(closePc := CloseCancel, connectionClosed := x.connectionClosed || x.hasConnection))
    case CloseCancel => SetTransfer(s, i, x.(closePc := CloseWait, cancelled := true))
    case CloseWait => SetTransfer(s, i, x.(closePc := CloseReturned))
    case CloseReturned => s
  }

  /** The next state of a reader on its way to a new transfer. */
  function HandedOver(env: Env, s: System): System
    requires s.reader.Closing? ==> s.reader.i < |s.transfers|
  {
    match s.reader
    case TestTransfer(q) => s.(reader := if s.current.Some? then CallClose(q) else Reset(q))
    case CallClose(q) =>
      if s.current.None? || s.current.value >= |s.transfers| then Crashed(s)
      else
        var i := s.current.value;
        if s.transfers[i].closePc.CloseNone? then
          SetTransfer(s, i, s.transfers[i].(closePc := CloseConn)).(reader := Closing(q, i))
        else s.(reader := DropTransfer(q))
    case Closing(q, i) =>
      if s.transfers[i].closePc.CloseReturned? then s.(reader := DropTransfer(q)) else ClosedOn(s, i)
    case DropTransfer(q) => s.(current := None, reader := Reset(q))
    case Reset(q) =>
      if !s.hasBuffer then Crashed(s)
      else s.(window := s.window.Reset(StartPosition(env.size, q.seek)), owner := None, reader := Start(q))
    case Start(q) =>
      s.(transfers := s.transfers + [TransferFor(env, q, s.hasBuffer)],
         current := Some(|s.transfers|), owner := Some(|s.transfers|), reader := ProbeEnd(q))
    case _ => s
  }

  /** `start` of transfer `i` writes its end marker. */
  lemma StarterMarks(env: Env, ss: seq<System>, acts: seq<Action>, i: nat) returns (ts: seq<System>, bcts: seq<Action>)
    requires IsSystemRun(env, ss, acts)
    requires var s := ss[|acts|];
             && s.window.Valid() && !s.window.closed && !s.crashed && i < |s.transfers|
             && s.transfers[i].startPc == Mark(false) && s.transfers[i].hasBuffer && !s.transfers[i].crashed
    ensures IsSystemRun(env, ts, bcts)
    ensures var s := ss[|acts|];
            ts[|bcts|] == SetTransfer(s, i, s.transfers[i].(startPc := Leave(false), marks := s.transfers[i].marks + 1))
                            .(window := s.window.(ended := true))
  {
    hide StepAt;
    var s := ss[|acts|];
    var x := s.transfers[i].(startPc := Leave(false), marks := s.transfers[i].marks + 1);
    ts, bcts := Then(env, ss, acts, Starter(i, MarkWrite), SetTransfer(s, i, x).(window := s.window.(ended := true)));
  }

  /** `start` of transfer `i` leaves, and the reader's Close of it returns. */
  lemma StarterLeaves(env: Env, ss: seq<System>, acts: seq<Action>, i: nat, q: Query)
    returns (ts: seq<System>, bcts: seq<Action>)
    requires IsSystemRun(env, ss, acts)
    requires var s := ss[|acts|];
             && s.window.Valid() && !s.crashed && i < |s.transfers| && s.reader == Closing(q, i)
             && var x := s.transfers[i];
                x.startPc == Leave(false) && x.waiting == 1 && x.closePc.CloseWait? && !x.crashed
    ensures IsSystemRun(env, ts, bcts)
    ensures var s := ss[|acts|];
            var x := s.transfers[i].(startPc := Left(false), waiting := 0, closePc := CloseReturned);
            ts[|bcts|] == SetTransfer(s, i, x)
  {
    hide StepAt;
    var s := ss[|acts|];
    var x := s.transfers[i].(startPc := Left(false), waiting := 0);
    ts, bcts := Then(env, ss, acts, Starter(i, Silent), SetTransfer(s, i, x));
    x := x.(closePc := CloseReturned);
    ts, bcts := Then(env, ts, bcts, Reader(Go), SetTransfer(s, i, x));
  }

  /** `copyData` of transfer `i` writes the chunk it has in hand. */
  lemma CopierWrites(env: Env, ss: seq<System>, acts: seq<Action>, i: nat, chunk: seq<byte>)
    returns (ts: seq<System>, bcts: seq<Action>)
    requires IsSystemRun(env, ss, acts)
    requires var s := ss[|acts|];
             && s.window.Valid() && !s.window.closed && !s.crashed && i < |s.transfers|
             && s.window.High() + |chunk| - s.window.low <= s.window.capacity
             && var x := s.transfers[i];
                x.copyPc == Writing(chunk, NoError) && x.hasBuffer && !x.crashed
    ensures IsSystemRun(env, ts, bcts)
    ensures var s := ss[|acts|];
            var x := s.transfers[i].(written := s.transfers[i].written + chunk, copyPc := Head);
            ts[|bcts|] == SetTransfer(s, i, x).(window := s.window.(data := s.window.data + chunk))
  {
    hide StepAt;
    var s := ss[|acts|];
    assert chunk[..|chunk|] == chunk;
    var x := s.transfers[i].(written := s.transfers[i].written + chunk, copyPc := Head);
    ts, bcts := Then(env, ss, acts, Copier(i, ChunkWrite(|chunk|, false)),
                     SetTransfer(s, i, x).(window := s.window.(data := s.window.data + chunk)));
  }

  /** The first read of a stream gets to the start of its transfer. */
  lemma RunToStart(env: Env, q: Query) returns (ss: seq<System>, acts: seq<Action>)
    ensures IsSystemRun(env, ss, acts)
    ensures ss[|acts|] == NewSystem(env).(reader := Start(q),
                                          window := Fresh(BufferSize(env.size), StartPosition(env.size, q.seek)))
  {
    var s := NewSystem(env);
    ss, acts := ReaderSeeks(env, [s], [], q);
    ss, acts := Then(env, ss, acts, Reader(Go), s.(reader := Reset(q)));
    var w := Fresh(BufferSize(env.size), StartPosition(env.size, q.seek));
    ss, acts := Then(env, ss, acts, Reader(Go), s.(reader := Start(q), window := w));
  }

  /** ... and on to the test of the position it needs. */
  lemma RunToProbeEnd(env: Env, q: Query) returns (ss: seq<System>, acts: seq<Action>)
    ensures IsSystemRun(env, ss, acts)
    ensures ss[|acts|] == NewSystem(env).(reader := ProbeEnd(q),
                                          window := Fresh(BufferSize(env.size), StartPosition(env.size, q.seek)),
                                          transfers := [TransferFor(env, q, true)], current := Some(0),
                                          owner := Some(0))
  {
    hide StepAt;
    ss, acts := RunToStart(env, q);
    var s := ss[|acts|];
    var t := s.(transfers := [TransferFor(env, q, true)], current := Some(0), owner := Some(0), reader := ProbeEnd(q));
    ss, acts := Then(env, ss, acts, Reader(Go), t);
  }

  /** Close gets as far as having nilled the buffer. */
  lemma CloserDropsBuffer(env: Env, ss: seq<System>, acts: seq<Action>) returns (ts: seq<System>, bcts: seq<Action>)
    requires IsSystemRun(env, ss, acts)
    requires var s := ss[|acts|]; s.window.Valid() && s.closer.NotClosing? && s.hasBuffer && !s.crashed
    ensures IsSystemRun(env, ts, bcts)
    ensures var s := ss[|acts|];
            ts[|bcts|] == s.(closed := true, hasBuffer := false, window := s.window.(closed := true),
                           closer := LookAtTransfer)
  {
    hide StepAt;
    var s := ss[|acts|].(closed := true, closer := CancelContext);
    ts, bcts := Then(env, ss, acts, Closer(Go), s);
    ts, bcts := Then(env, ts, bcts, Closer(Go), s.(closer := LookAtBuffer));
    ts, bcts := Then(env, ts, bcts, Closer(Go), s.(closer := CloseBuffer));
    s := s.(window := s.window.(closed := true), closer := DropBuffer);
    ts, bcts := Then(env, ts, bcts, Closer(Says(true)), s);
    ts, bcts := Then(env, ts, bcts, Closer(Go), s.(hasBuffer := false, closer := LookAtTransfer));
  }
}
