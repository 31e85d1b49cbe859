/**
 One transfer as three concurrent processes, one atomic action a step: the goroutine running
 `start`, the goroutine running `copyData`, and the caller that wins `Close`
 (stream/transfer/main.go:64-144).  Program counters name the next action of each.

 `copyData` loads the field `transfer.connection` anew on every turn while `start` may set it to
 nil, so a load of nil is modelled: it crashes.
 */
module TransferProtocol {
  import opened Base

  const CHUNK_SIZE := 64 * 1024

  /** What `copyData` sends on its channel: context.Canceled, nil, a read error or a write error. */
  datatype Result = Canceled | Finished | ReadFailed | WriteFailed

  /** `start`.  `byResult` records which branch of the select was taken. */
  datatype StartPc =
    | Begin                   // wg.Add(1)
    | Spawn                   // go copyData(done)
    | Select                  // context cancelled, or a result received
    | CloseConnection         // transfer.connection.Close()
    | DropConnection          // transfer.connection = nil
    | Mark(byResult: bool)    // transfer.buffer.Write(EOFMarker)
    | Leave(byResult: bool)   // wg.Done()
    | Left(byResult: bool)

  /** `copyData`. */
  datatype CopyPc =
    | Unborn
    | Head                    // is the context cancelled?
    | Load                    // load transfer.connection, then ask whether it is closed
    | Reading                 // inside connection.Read
    | Writing(chunk: seq<byte>, error: ReadError)
    | Send(result: Result)
    | Exit(result: Result)

  /** The winning `Close`; CloseNone until some caller's compare-and-swap succeeds. */
  datatype ClosePc = CloseNone | CloseConn | CloseCancel | CloseWait | CloseReturned

  datatype Transfer = Transfer(
    start: nat,               // the connection's start position
    body: seq<byte>,          // what the connection will deliver
    position: nat,            // how much of it has been read
    written: seq<byte>,       // what the buffer took from this transfer, in order
    marks: nat,               // end markers written
    hasBuffer: bool,          // transfer.buffer is not nil
    hasConnection: bool,      // transfer.connection is not nil
    connectionClosed: bool,
    cancelled: bool,
    waiting: nat,             // the wait group's counter
    channel: Option<Result>,  // `done`, of capacity 1
    sent: nat,                // results sent
    startPc: StartPc,
    copyPc: CopyPc,
    closePc: ClosePc,
    crashed: bool)

  function NewTransfer(start: nat, body: seq<byte>, hasBuffer: bool): Transfer {
    Transfer(start, body, 0, [], 0, hasBuffer, true, false, false, 0, None, 0, Begin, Unborn, CloseNone, false)
  }

  datatype Event =
    | Silent
    | ReadCall
    | ReadReturn(n: nat, error: ReadError)
    | ChunkWrite(n: nat, failed: bool)
    | MarkWrite
    | Crash

  function CrashOf(x: Transfer): Transfer { x.(crashed := true) }

  // ----- the three processes -----

  predicate StartStep(x: Transfer, e: Event, y: Transfer) {
    match x.startPc
    case Begin => e == Silent && y == x.(startPc := Spawn, waiting := x.waiting + 1)
    case Spawn => e == Silent && y == x.(startPc := Select, copyPc := Head)
    case Select =>
      && e == Silent
      && (|| (x.cancelled && y == x.(startPc := CloseConnection))
          || (x.channel.Some? && y == x.(startPc := Mark(true), channel := None)))
    case CloseConnection =>
      && e == Silent
      && y == if x.hasConnection then x.(startPc := DropConnection, connectionClosed := true)
              else x.(startPc := Mark(false))
    case DropConnection => e == Silent && y == x.(startPc := Mark(false), hasConnection := false)
    case Mark(byResult) =>
      if x.hasBuffer then e == MarkWrite && y == x.(startPc := Leave(byResult), marks := x.marks + 1)
      else e == Crash && y == CrashOf(x)
    case Leave(byResult) => e == Silent && x.waiting > 0 && y == x.(startPc := Left(byResult), waiting := x.waiting - 1)
    case Left(_) => false
  }

  /** Where the loop goes once a read's bytes, if any, are written. */
  function AfterRead(error: ReadError): CopyPc {
    match error
    case NoError => Head
    case EndOfBody => Send(Finished)
    case Broken => Send(ReadFailed)
  }

  /** What a read may return: the next bytes of the body, and the end only at the body's end. */
  predicate Delivers(x: Transfer, n: nat, error: ReadError) {
    && n <= CHUNK_SIZE
    && x.position + n <= |x.body|
    && (error == EndOfBody ==> x.position + n == |x.body|)
  }

  predicate CopyStep(x: Transfer, e: Event, y: Transfer) {
    match x.copyPc
    case Unborn => false
    case Head => e == Silent && y == x.(copyPc := if x.cancelled then Send(Canceled) else Load)
    case Load =>
      if !x.hasConnection then e == Crash && y == CrashOf(x)
      else e == ReadCall && y == x.(copyPc := if x.connectionClosed then Head else Reading)
    case Reading =>
      && e.ReadReturn?
      && Delivers(x, e.n, e.error)
      && y == x.(position := x.position + e.n,
                 copyPc := if e.n > 0 then Writing(x.body[x.position..x.position + e.n], e.error)
                           else AfterRead(e.error))
    case Writing(chunk, error) =>
      if !x.hasBuffer then e == Crash && y == CrashOf(x)
      else
        && e.ChunkWrite?
        && e.n <= |chunk|
        && (e.n < |chunk| ==> e.failed)
        && y == x.(written := x.written + chunk[..e.n],
                   copyPc := if e.failed then Send(WriteFailed) else AfterRead(error))
    case Send(result) =>
      // A full channel would block here.
      e == Silent && x.channel.None? && y == x.(channel := Some(result), sent := x.sent + 1, copyPc := Exit(result))
    case Exit(_) => false
  }

  /** One action of the `Close` call that won the compare-and-swap. */
  predicate CloseStep(x: Transfer, y: Transfer) {
    match x.closePc
    case CloseNone => y == x.(closePc := CloseConn)
    case CloseConn =>
      y == x.(closePc := CloseCancel, connectionClosed := x.connectionClosed || x.hasConnection)
    case CloseCancel => y == x.(closePc := CloseWait, cancelled := true)
    case CloseWait => x.waiting == 0 && y == x.(closePc := CloseReturned)
    case CloseReturned => false
  }

  predicate Step(x: Transfer, e: Event, y: Transfer) {
    && !x.crashed
    && (StartStep(x, e, y) || CopyStep(x, e, y) || (e == Silent && CloseStep(x, y)))
  }

  // ----- what every step keeps -----

  predicate PastDrop(pc: StartPc) { (pc.Mark? || pc.Leave? || pc.Left?) && !pc.byResult }

  predicate ByResult(pc: StartPc) { (pc.Mark? || pc.Leave? || pc.Left?) && pc.byResult }

  /** The goroutines' control: wait group, channel, flags. */
  predicate ControlInv(x: Transfer) {
    && x.waiting == (if x.startPc.Begin? || x.startPc.Left? then 0 else 1)
    && (x.copyPc.Unborn? <==> x.startPc.Begin? || x.startPc.Spawn?)
    && x.sent == (if x.copyPc.Exit? then 1 else 0)
    && (x.channel.Some? ==> x.copyPc == Exit(x.channel.value))
    && (ByResult(x.startPc) ==> x.copyPc.Exit? && x.channel.None?)
    && (x.copyPc.Exit? && x.channel.None? ==> ByResult(x.startPc))
    && (x.startPc.CloseConnection? || x.startPc.DropConnection? || PastDrop(x.startPc) ==> x.cancelled)
    && (x.startPc.DropConnection? || PastDrop(x.startPc) ==> x.connectionClosed)
    && (x.hasConnection <==> !PastDrop(x.startPc))
    && (x.cancelled <==> x.closePc.CloseWait? || x.closePc.CloseReturned?)
    && (x.closePc.CloseCancel? || x.cancelled ==> x.connectionClosed)
    && (x.connectionClosed ==> !x.closePc.CloseNone? && !x.closePc.CloseConn?)
    && x.marks == (if x.startPc.Leave? || x.startPc.Left? then 1 else 0)
  }

  /** After the winning Close has returned, either `start` is over or `copyData` writes no chunk. */
  predicate ReturnInv(x: Transfer) {
    x.closePc.CloseReturned? ==>
      x.startPc.Left? || x.copyPc.Unborn? || x.copyPc.Head? || x.copyPc.Send? || x.copyPc.Exit?
  }

  /** Nothing read is lost, repeated or reordered on its way into the buffer. */
  ghost predicate DataInv(x: Transfer) {
    && x.position <= |x.body|
    && match x.copyPc {
      case Writing(chunk, error) =>
        && 0 < |chunk| <= CHUNK_SIZE
        && x.written + chunk == x.body[..x.position]
        && (error == EndOfBody ==> x.position == |x.body|)
      case Send(result) => SettledInv(x, result)
      case Exit(result) => SettledInv(x, result)
      case _ => x.written == x.body[..x.position]
    }
  }

  ghost predicate SettledInv(x: Transfer, result: Result)
    requires x.position <= |x.body|
  {
    if result == WriteFailed then x.written <= x.body[..x.position]
    else
      && x.written == x.body[..x.position]
      && (result == Finished ==> x.position == |x.body|)
      && (result == Canceled ==> x.cancelled)
  }

  ghost predicate Inv(x: Transfer) {
    ControlInv(x) && ReturnInv(x) && DataInv(x)
  }

  lemma NewTransferInv(start: nat, body: seq<byte>, hasBuffer: bool)
    ensures Inv(NewTransfer(start, body, hasBuffer))
  {
  }

  lemma PartOfChunk(written: seq<byte>, chunk: seq<byte>, n: nat)
    requires n <= |chunk|
    ensures written + chunk[..n] <= written + chunk
    ensures n == |chunk| ==> written + chunk[..n] == written + chunk
  {
    if n == |chunk| {
      assert chunk[..n] == chunk;
    }
  }

  lemma ReadingKeepsData(x: Transfer, e: Event, y: Transfer)
    requires DataInv(x) && x.copyPc.Reading? && CopyStep(x, e, y)
    ensures DataInv(y)
  {
    NextOfBody(x.body, x.position, e.n);
    if e.n == 0 {
      assert y.position == x.position;
    } else {
      assert y.copyPc.chunk == x.body[x.position..x.position + e.n];
    }
  }

  lemma WritingKeepsData(x: Transfer, e: Event, y: Transfer)
    requires DataInv(x) && x.copyPc.Writing? && CopyStep(x, e, y)
    ensures DataInv(y)
  {
    if x.hasBuffer {
      PartOfChunk(x.written, x.copyPc.chunk, e.n);
    }
  }

  lemma CopyStepKeepsData(x: Transfer, e: Event, y: Transfer)
    requires DataInv(x) && CopyStep(x, e, y)
    ensures DataInv(y)
  {
    if x.copyPc.Reading? {
      ReadingKeepsData(x, e, y);
    } else if x.copyPc.Writing? {
      WritingKeepsData(x, e, y);
    }
  }

  predicate Waits(pc: StartPc) { pc.Begin? || pc.Spawn? || pc.Select? }

  lemma WaitingStartKeepsControl(x: Transfer, e: Event, y: Transfer)
    requires ControlInv(x) && StartStep(x, e, y) && Waits(x.startPc)
    ensures ControlInv(y)
  {
    match x.startPc
    case Begin =>
    case Spawn =>
    case Select =>
  }

  lemma LeavingStartKeepsControl(x: Transfer, e: Event, y: Transfer)
    requires ControlInv(x) && StartStep(x, e, y) && !Waits(x.startPc)
    ensures ControlInv(y)
  {
    match x.startPc
    case CloseConnection =>
    case Mark(_) =>
    case _ =>
  }

  lemma StartStepKeepsControl(x: Transfer, e: Event, y: Transfer)
    requires ControlInv(x) && StartStep(x, e, y)
    ensures ControlInv(y)
  {
    hide StartStep, ControlInv;
    if Waits(x.startPc) {
      WaitingStartKeepsControl(x, e, y);
    } else {
      LeavingStartKeepsControl(x, e, y);
    }
  }

  /** `start` reads and writes no data, and moves `copyData` only by starting it. */
  lemma StartStepFrame(x: Transfer, e: Event, y: Transfer)
    requires StartStep(x, e, y)
    ensures y.position == x.position && y.written == x.written && y.body == x.body
    ensures y.copyPc == if x.startPc.Spawn? then Head else x.copyPc
    ensures y.closePc == x.closePc && y.cancelled == x.cancelled && !x.startPc.Left?
    ensures y.hasConnection ==> x.hasConnection
  {
    match x.startPc
    case Select =>
    case CloseConnection =>
    case Mark(_) =>
    case _ =>
  }

  lemma StartStepKeepsReturn(x: Transfer, e: Event, y: Transfer)
    requires ReturnInv(x) && StartStep(x, e, y)
    ensures ReturnInv(y)
  {
    hide StartStep;
    StartStepFrame(x, e, y);
  }

  lemma StartStepKeepsData(x: Transfer, e: Event, y: Transfer)
    requires DataInv(x) && (x.copyPc.Unborn? || !x.startPc.Spawn?) && StartStep(x, e, y)
    ensures DataInv(y)
  {
    hide StartStep;
    StartStepFrame(x, e, y);
  }

  /** What an action of `copyData` other than its send leaves alone. */
  lemma CopyStepFrame(x: Transfer, e: Event, y: Transfer)
    requires CopyStep(x, e, y) && !x.copyPc.Send?
    ensures y.startPc == x.startPc && y.closePc == x.closePc && y.waiting == x.waiting && y.marks == x.marks
    ensures y.channel == x.channel && y.sent == x.sent && y.cancelled == x.cancelled
    ensures y.hasConnection == x.hasConnection && y.connectionClosed == x.connectionClosed
  {
    hide Delivers, AfterRead;
    match x.copyPc
    case Reading =>
    case Writing(_, _) =>
    case _ =>
  }

  /** Where it goes. */
  lemma CopyStepGoes(x: Transfer, e: Event, y: Transfer)
    requires CopyStep(x, e, y) && !x.copyPc.Send?
    ensures !x.copyPc.Unborn? && !x.copyPc.Exit? && !y.copyPc.Unborn? && !y.copyPc.Exit?
    ensures y.copyPc.Load? ==> !x.cancelled || x.copyPc.Load?
    ensures y.copyPc.Reading? || y.copyPc.Writing? ==> x.copyPc.Load? || x.copyPc.Reading? || x.copyPc.Writing?
  {
  }

  lemma CopyStepKeepsControl(x: Transfer, e: Event, y: Transfer)
    requires ControlInv(x) && ReturnInv(x) && CopyStep(x, e, y)
    ensures ControlInv(y) && ReturnInv(y)
  {
    hide DataInv;
    if !x.copyPc.Send? {
      CopyStepFrame(x, e, y);
      CopyStepGoes(x, e, y);
    }
  }

  lemma StartStepKeepsInv(x: Transfer, e: Event, y: Transfer)
    requires Inv(x) && !x.crashed && StartStep(x, e, y)
    ensures Inv(y)
  {
    StartStepKeepsControl(x, e, y);
    StartStepKeepsReturn(x, e, y);
    StartStepKeepsData(x, e, y);
  }

  lemma CopyStepKeepsInv(x: Transfer, e: Event, y: Transfer)
    requires Inv(x) && !x.crashed && CopyStep(x, e, y)
    ensures Inv(y)
  {
    CopyStepKeepsControl(x, e, y);
    CopyStepKeepsData(x, e, y);
  }

  lemma CloseStepKeepsInv(x: Transfer, y: Transfer)
    requires Inv(x) && CloseStep(x, y)
    ensures Inv(y)
  {
  }

  lemma StepKeepsInv(x: Transfer, e: Event, y: Transfer)
    requires Inv(x) && Step(x, e, y)
    ensures Inv(y)
  {
    if StartStep(x, e, y) {
      StartStepKeepsInv(x, e, y);
    } else if CopyStep(x, e, y) {
      CopyStepKeepsInv(x, e, y);
    } else {
      CloseStepKeepsInv(x, y);
    }
  }
}
