/**
 A stream as a system of concurrent processes, one atomic action a step (stream/main.go): the
 reader that holds the mutex inside ReadAt, the winning call of Close, which takes no mutex, and the
 goroutines of every transfer the stream ever started (TransferProtocol).  Each load of a field
 that another process may set to nil is an action of its own, and a nil load crashes.
 */
module StreamSystem {
  import opened Base
  import opened WindowContract
  import opened Placement
  import opened TransferProtocol

  /** The remote file and the size the stream was told. */
  datatype Env = Env(remote: seq<byte>, size: nat)

  datatype Query = Query(seek: int, length: nat)

  datatype Answer = Answer(query: Query, bytes: seq<byte>)

  /** ReadAt, with newTransfer and Transfer.Close called in it. */
  datatype ReaderPc =
    | Idle
    | TestClosed(q: Query)        // stream.isClosed()
    | TestBuffer(q: Query)        // stream.buffer == nil
    | ProbeSeek(q: Query)         // buffer.IsPositionAvailable(seekPosition)
    | RetestClosed(q: Query)      // newTransfer: stream.isClosed()
    | RetestBuffer(q: Query)      // newTransfer: stream.buffer == nil
    | TestTransfer(q: Query)      // stream.transfer != nil
    | CallClose(q: Query)         // stream.transfer.Close(): load the field, compare and swap
    | Closing(q: Query, i: nat)   // the winning Close of transfer i
    | DropTransfer(q: Query)      // stream.transfer = nil
    | Reset(q: Query)             // buffer.ResetToPosition(streamStartPosition)
    | Start(q: Query)             // NewTransfer(stream.buffer, connection)
    | ProbeEnd(q: Query)          // buffer.IsPositionAvailable(requestedPosition)
    | CallWait(q: Query)          // load stream.buffer for WaitForPosition
    | Waiting(q: Query)
    | Fetch(q: Query)             // buffer.ReadAt(p, seekPosition)

  /** Stream.Close. */
  datatype CloserPc =
    | NotClosing
    | CancelContext               // stream.cancel()
    | LookAtBuffer                // stream.buffer != nil
    | CloseBuffer                 // stream.buffer.Close()
    | DropBuffer                  // stream.buffer = nil
    | LookAtTransfer              // stream.transfer != nil
    | CallTransferClose           // load the field, compare and swap
    | ClosingTransfer(i: nat)     // the winning Close of transfer i
    | ForgetTransfer              // stream.transfer = nil
    | Done(bufferClosed: bool)

  datatype System = System(
    window: Window,               // the buffer object
    hasBuffer: bool,              // stream.buffer is not nil
    closed: bool,
    transfers: seq<Transfer>,     // every transfer ever started
    current: Option<nat>,         // stream.transfer
    owner: Option<nat>,           // the transfer started for the window's present base
    reader: ReaderPc,
    closer: CloserPc,
    answers: seq<Answer>,         // what the calls of ReadAt returned so far
    crashed: bool)

  /** What the environment decides in a step of the reader or the closer. */
  datatype Choice = Go | Ask(q: Query) | Says(yes: bool) | Gets(bytes: seq<byte>)

  datatype Action =
    | Reader(choice: Choice)
    | Closer(choice: Choice)
    | Starter(i: nat, e: Event)   // the `start` goroutine of transfer i
    | Copier(i: nat, e: Event)    // its `copyData` goroutine

  function NewSystem(env: Env): System {
    System(Fresh(BufferSize(env.size), 0), true, false, [], None, None, Idle, NotClosing, [], false)
  }

  function Crashed(s: System): System { s.(crashed := true) }

  function Answered(s: System, q: Query, bytes: seq<byte>): System {
    s.(reader := Idle, answers := s.answers + [Answer(q, bytes)])
  }

  function SetTransfer(s: System, i: nat, x: Transfer): System
    requires i < |s.transfers|
  {
    s.(transfers := s.transfers[i := x])
  }

  function TransferFor(env: Env, q: Query, hasBuffer: bool): Transfer {
    var start := StartPosition(env.size, q.seek);
    NewTransfer(start, BodyFrom(env.remote, start), hasBuffer)
  }

  /** One action of a winning Close of transfer `i`, taken by the reader or by the closer; the caller
      goes on to `next` once it has returned. */
  predicate CloseOneStep(s: System, i: nat, t: System, next: System) {
    i < |s.transfers| &&
    if s.transfers[i].closePc.CloseReturned? then t == next
    else
      && |t.transfers| == |s.transfers|
      && CloseStep(s.transfers[i], t.transfers[i])
      && t == SetTransfer(s, i, t.transfers[i])
  }

  predicate ReaderStep(env: Env, s: System, c: Choice, t: System)
    requires s.window.Valid()
  {
    match s.reader
    case Idle => c.Ask? && t == s.(reader := TestClosed(c.q))
    case TestClosed(q) => t == if s.closed then Answered(s, q, []) else s.(reader := TestBuffer(q))
    case TestBuffer(q) => t == if s.hasBuffer then s.(reader := ProbeSeek(q)) else Answered(s, q, [])
    case ProbeSeek(q) =>
      if !s.hasBuffer then t == Crashed(s)
      else
        && c.Says?
        && (c.yes ==> s.window.MayOffer(q.seek))
        && t == s.(reader := if c.yes then ProbeEnd(q) else RetestClosed(q))
    case RetestClosed(q) => t == if s.closed then Answered(s, q, []) else s.(reader := RetestBuffer(q))
    case RetestBuffer(q) => t == if s.hasBuffer then s.(reader := TestTransfer(q)) else Answered(s, q, [])
    case TestTransfer(q) => t == s.(reader := if s.current.Some? then CallClose(q) else Reset(q))
    case CallClose(q) =>
      if s.current.None? || s.current.value >= |s.transfers| then t == Crashed(s)
      else
        var i := s.current.value;
        if s.transfers[i].closePc.CloseNone? then
          t == SetTransfer(s, i, s.transfers[i].(closePc := CloseConn)).(reader := Closing(q, i))
        else
          t == s.(reader := DropTransfer(q))
    case Closing(q, i) => CloseOneStep(s, i, t, s.(reader := DropTransfer(q)))
    case DropTransfer(q) => t == s.(current := None, reader := Reset(q))
    case Reset(q) =>
      t == if !s.hasBuffer then Crashed(s)
           else s.(window := s.window.Reset(StartPosition(env.size, q.seek)), owner := None, reader := Start(q))
    case Start(q) =>
      t == s.(transfers := s.transfers + [TransferFor(env, q, s.hasBuffer)],
              current := Some(|s.transfers|), owner := Some(|s.transfers|), reader := ProbeEnd(q))
    case ProbeEnd(q) =>
      if !s.hasBuffer then t == Crashed(s)
      else
        && c.Says?
        && (c.yes ==> s.window.MayOffer(RequestedPosition(env.size, q.seek, q.length)))
        && t == s.(reader := if c.yes then Fetch(q) else CallWait(q))
    case CallWait(q) => t == if s.hasBuffer then s.(reader := Waiting(q)) else Crashed(s)
    case Waiting(q) =>
      // false: the timeout, or the cancelled context
      && c.Says?
      && (c.yes ==> s.window.MayOffer(RequestedPosition(env.size, q.seek, q.length)))
      && t == if c.yes || s.closed then s.(reader := Fetch(q)) else Answered(s, q, [])
    case Fetch(q) =>
      if !s.hasBuffer then t == Crashed(s)
      else
        && c.Gets?
        && s.window.Read(q.seek, q.length, c.bytes, t.window)
        && t == Answered(s, q, c.bytes).(window := t.window)
  }

  predicate CloserStep(s: System, c: Choice, t: System) {
    match s.closer
    case NotClosing => t == s.(closed := true, closer := CancelContext)
    case CancelContext => t == s.(closer := LookAtBuffer)
    case LookAtBuffer => t == s.(closer := if s.hasBuffer then CloseBuffer else LookAtTransfer)
    case CloseBuffer =>
      && c.Says?
      && t == if c.yes then s.(window := s.window.(closed := true), closer := DropBuffer)
              else s.(closer := Done(false))
    case DropBuffer => t == s.(hasBuffer := false, closer := LookAtTransfer)
    case LookAtTransfer => t == s.(closer := if s.current.Some? then CallTransferClose else Done(true))
    case CallTransferClose =>
      if s.current.None? || s.current.value >= |s.transfers| then t == Crashed(s)
      else
        var i := s.current.value;
        if s.transfers[i].closePc.CloseNone? then
          t == SetTransfer(s, i, s.transfers[i].(closePc := CloseConn)).(closer := ClosingTransfer(i))
        else
          t == s.(closer := ForgetTransfer)
    case ClosingTransfer(i) => CloseOneStep(s, i, t, s.(closer := ForgetTransfer))
    case ForgetTransfer => t == s.(current := None, closer := Done(true))
    case Done(_) => false
  }

  /** The buffer's part in a transfer's action. */
  predicate WindowStep(w: Window, x: Transfer, e: Event, v: Window) {
    match e
    case ChunkWrite(n, failed) => x.copyPc.Writing? && w.Written(x.copyPc.chunk, n, failed, v)
    case MarkWrite => w.Marked(v)
    case _ => v == w
  }

  predicate SystemStep(env: Env, s: System, a: Action, t: System)
    requires s.window.Valid()
  {
    !s.crashed &&
    match a
    case Reader(c) => ReaderStep(env, s, c, t)
    case Closer(c) => CloserStep(s, c, t)
    case Starter(i, e) =>
      && i < |s.transfers| == |t.transfers|
      && !s.transfers[i].crashed
      && StartStep(s.transfers[i], e, t.transfers[i])
      && WindowStep(s.window, s.transfers[i], e, t.window)
      && t == SetTransfer(s, i, t.transfers[i]).(window := t.window, crashed := e.Crash?)
    case Copier(i, e) =>
      && i < |s.transfers| == |t.transfers|
      && !s.transfers[i].crashed
      && CopyStep(s.transfers[i], e, t.transfers[i])
      && WindowStep(s.window, s.transfers[i], e, t.window)
      && t == SetTransfer(s, i, t.transfers[i]).(window := t.window, crashed := e.Crash?)
  }

  // ----- window and transfers -----

  ghost predicate TransfersInv(env: Env, s: System) {
    && s.window.Valid()
    && s.window.capacity == BufferSize(env.size)
    && forall i | 0 <= i < |s.transfers| ::
         TransferProtocol.Inv(s.transfers[i]) && s.transfers[i].body == BodyFrom(env.remote, s.transfers[i].start)
  }

  /** At most one connection is open: it can only be the last transfer's, and while the stream has
      its buffer it is the one `stream.transfer` holds. */
  predicate LastOpen(s: System) {
    forall i | 0 <= i < |s.transfers| ::
      !s.transfers[i].connectionClosed ==> i == |s.transfers| - 1 && (s.hasBuffer ==> s.current == Some(i))
  }

  predicate AllClosed(s: System) {
    forall i | 0 <= i < |s.transfers| :: s.transfers[i].connectionClosed
  }

  predicate PastBuffer(pc: CloserPc) {
    pc.LookAtTransfer? || pc.CallTransferClose? || pc.ClosingTransfer? || pc.ForgetTransfer? || pc == Done(true)
  }

  predicate FieldsInv(s: System) {
    && (s.closer.NotClosing? <==> !s.closed)
    && (s.hasBuffer <==> !PastBuffer(s.closer))
    && (s.current.Some? ==> s.current == s.owner && s.current.value == |s.transfers| - 1)
    && (s.reader.Reset? || s.reader.Start? ==> s.current.None?)
    && (s.reader.Closing? ==> s.reader.i == |s.transfers| - 1 && !s.transfers[s.reader.i].closePc.CloseNone?
                              && (s.hasBuffer ==> s.current == Some(s.reader.i)))
    && (s.closer.ClosingTransfer? ==> s.closer.i < |s.transfers| && !s.transfers[s.closer.i].closePc.CloseNone?)
  }

  predicate ConnectionsInv(s: System) {
    && LastOpen(s)
    && (s.reader.Start? ==> AllClosed(s))
    && (s.reader.DropTransfer? && s.hasBuffer ==> AllClosed(s))
    && (s.transfers != [] && s.hasBuffer ==>
          var x := s.transfers[|s.transfers| - 1];
          x.closePc.CloseNone? || x.connectionClosed || s.reader.Closing?)
  }

  ghost predicate SystemInv(env: Env, s: System) {
    TransfersInv(env, s) && FieldsInv(s) && ConnectionsInv(s)
  }

  lemma NewSystemInv(env: Env)
    ensures SystemInv(env, NewSystem(env))
  {
  }
}
