/** Every step of the stream system keeps its invariant, with no assumption on the schedule. */
module StreamInvariant {
  import opened Base
  import opened WindowContract
  import opened Placement
  import opened TransferProtocol
  import opened StreamSystem

  // ----- the transfers' own protocol -----

  lemma GoroutineKeepsTransfers(env: Env, s: System, a: Action, t: System)
    requires TransfersInv(env, s) && SystemStep(env, s, a, t) && (a.Starter? || a.Copier?)
    ensures TransfersInv(env, t)
  {
    hide StartStep, CopyStep, TransferProtocol.Inv;
    var x, y := s.transfers[a.i], t.transfers[a.i];
    if a.Starter? {
      StartStepKeepsInv(x, a.e, y);
      StarterOnlyCloses(x, a.e, y);
    } else {
      CopyStepKeepsInv(x, a.e, y);
      CopierOnlyReads(x, a.e, y);
    }
  }

  /** What a step of the reader or the closer may do to the transfers: nothing, one action of a Close,
      or a new transfer. */
  datatype Move = Stay | Close(i: nat) | Add(q: Query)

  predicate Moves(env: Env, s: System, m: Move, t: System) {
    match m
    case Stay => t.transfers == s.transfers
    case Close(i) =>
      && i < |s.transfers| == |t.transfers|
      && CloseStep(s.transfers[i], t.transfers[i])
      && t.transfers == s.transfers[i := t.transfers[i]]
    case Add(q) => t.transfers == s.transfers + [TransferFor(env, q, s.hasBuffer)]
  }

  function CloseMove(s: System, i: nat): Move {
    if i < |s.transfers| && !s.transfers[i].closePc.CloseReturned? then Close(i) else Stay
  }

  function CallMove(s: System): Move {
    if s.current.Some? && s.current.value < |s.transfers| && s.transfers[s.current.value].closePc.CloseNone?
    then Close(s.current.value) else Stay
  }

  function ReaderMove(s: System): Move {
    match s.reader
    case CallClose(_) => CallMove(s)
    case Closing(_, i) => CloseMove(s, i)
    case Start(q) => Add(q)
    case _ => Stay
  }

  function CloserMove(s: System): Move {
    match s.closer
    case CallTransferClose => CallMove(s)
    case ClosingTransfer(i) => CloseMove(s, i)
    case _ => Stay
  }

  lemma ReaderMoves(env: Env, s: System, c: Choice, t: System)
    requires s.window.Valid() && ReaderStep(env, s, c, t)
    ensures Moves(env, s, ReaderMove(s), t)
  {
  }

  lemma ReaderKeepsWindowValid(env: Env, s: System, c: Choice, t: System)
    requires s.window.Valid() && ReaderStep(env, s, c, t)
    ensures t.window.Valid() && t.window.capacity == s.window.capacity
  {
  }

  lemma CloserMoves(env: Env, s: System, c: Choice, t: System)
    requires s.window.Valid() && CloserStep(s, c, t)
    ensures Moves(env, s, CloserMove(s), t)
    ensures t.window == s.window || t.window == s.window.(closed := true)
  {
    match s.closer
    case CallTransferClose =>
    case ClosingTransfer(_) =>
    case _ =>
  }

  // ----- control flow -----

  /** The actions of ReadAt that load `stream.buffer` and use it. */
  predicate LoadsBuffer(pc: ReaderPc) {
    pc.ProbeSeek? || pc.Reset? || pc.ProbeEnd? || pc.CallWait? || pc.Fetch?
  }

  /** Where the reader goes, and what becomes of the fields it may set. */
  predicate ReaderGoes(s: System, t: System) {
    && t.current == (if s.reader.DropTransfer? then None
                     else if s.reader.Start? then Some(|s.transfers|)
                     else s.current)
    && t.owner == (if s.reader.Reset? then None else if s.reader.Start? then Some(|s.transfers|) else s.owner)
    && (LoadsBuffer(s.reader) ==> s.hasBuffer)
    && match s.reader {
      case Idle => t.reader.TestClosed?
      case TestClosed(q) => t.reader == if s.closed then Idle else TestBuffer(q)
      case TestBuffer(q) => t.reader == if s.hasBuffer then ProbeSeek(q) else Idle
      case ProbeSeek(q) => t.reader == ProbeEnd(q) || t.reader == RetestClosed(q)
      case RetestClosed(q) => t.reader == if s.closed then Idle else RetestBuffer(q)
      case RetestBuffer(q) => t.reader == if s.hasBuffer then TestTransfer(q) else Idle
      case TestTransfer(q) => t.reader == if s.current.Some? then CallClose(q) else Reset(q)
      case CallClose(q) =>
        && s.current.Some? && s.current.value < |s.transfers|
        && t.reader == if s.transfers[s.current.value].closePc.CloseNone? then Closing(q, s.current.value)
            else DropTransfer(q)
      case Closing(q, i) =>
        i < |s.transfers| && t.reader == if s.transfers[i].closePc.CloseReturned? then DropTransfer(q) else s.reader
      case DropTransfer(q) => t.reader == Reset(q)
      case Reset(q) => t.reader == Start(q)
      case Start(q) => t.reader == ProbeEnd(q)
      case ProbeEnd(q) => t.reader == Fetch(q) || t.reader == CallWait(q)
      case CallWait(q) => t.reader == Waiting(q)
      case Waiting(q) => t.reader == Fetch(q) || (t.reader.Idle? && !s.closed)
      case Fetch(_) => t.reader.Idle?
    }
  }

  /** A crash of the reader, and nothing else, leaves it where it is. */
  predicate ReaderCrashes(s: System, t: System) {
    && t == Crashed(s)
    && if s.reader.CallClose? then s.current.None? || s.current.value >= |s.transfers|
       else LoadsBuffer(s.reader) && !s.hasBuffer
  }

  predicate ReaderEdge(s: System, t: System) {
    && t.hasBuffer == s.hasBuffer && t.closed == s.closed && t.closer == s.closer
    && if t.crashed then ReaderCrashes(s, t) else ReaderGoes(s, t)
  }

  predicate HandsOver(pc: ReaderPc) {
    pc.CallClose? || pc.Closing? || pc.DropTransfer? || pc.Reset? || pc.Start?
  }

  lemma HandingOverTakesEdge(env: Env, s: System, c: Choice, t: System)
    requires s.window.Valid() && !s.crashed && ReaderStep(env, s, c, t) && HandsOver(s.reader)
    ensures ReaderEdge(s, t)
  {
    hide StartPosition, CloseStep;
    match s.reader
    case Closing(_, _) =>
    case CallClose(_) =>
    case _ =>
  }

  lemma ProbingTakesEdge(env: Env, s: System, c: Choice, t: System)
    requires s.window.Valid() && !s.crashed && ReaderStep(env, s, c, t) && !HandsOver(s.reader)
    ensures ReaderEdge(s, t)
  {
    hide RequestedPosition, Window.MayOffer, Window.Read;
    match s.reader
    case Waiting(_) =>
    case Fetch(_) =>
    case _ =>
  }

  lemma ReaderTakesEdge(env: Env, s: System, c: Choice, t: System)
    requires s.window.Valid() && !s.crashed && ReaderStep(env, s, c, t)
    ensures ReaderEdge(s, t)
  {
    hide ReaderStep, ReaderEdge;
    if HandsOver(s.reader) {
      HandingOverTakesEdge(env, s, c, t);
    } else {
      ProbingTakesEdge(env, s, c, t);
    }
  }

  /** Where the closer goes; it alone nils `stream.buffer`. */
  predicate CloserGoes(s: System, t: System) {
    && t.current == (if s.closer.ForgetTransfer? then None else s.current)
    && t.hasBuffer == (s.hasBuffer && !s.closer.DropBuffer?)
    && t.closed
    && match s.closer {
      case NotClosing => t.closer.CancelContext?
      case CancelContext => t.closer.LookAtBuffer?
      case LookAtBuffer => t.closer == if s.hasBuffer then CloseBuffer else LookAtTransfer
      case CloseBuffer => t.closer == DropBuffer || t.closer == Done(false)
      case DropBuffer => t.closer.LookAtTransfer?
      case LookAtTransfer => t.closer == if s.current.Some? then CallTransferClose else Done(true)
      case CallTransferClose =>
        && s.current.Some? && s.current.value < |s.transfers|
        && t.closer == if s.transfers[s.current.value].closePc.CloseNone? then ClosingTransfer(s.current.value)
            else ForgetTransfer
      case ClosingTransfer(i) =>
        i < |s.transfers| && t.closer == if s.transfers[i].closePc.CloseReturned? then ForgetTransfer else s.closer
      case ForgetTransfer => t.closer == Done(true)
      case Done(_) => false
    }
  }

  predicate CloserCrashes(s: System, t: System) {
    && t == Crashed(s)
    && s.closer.CallTransferClose? && (s.current.None? || s.current.value >= |s.transfers|)
  }

  predicate CloserEdge(s: System, t: System) {
    && t.owner == s.owner && t.reader == s.reader
    && if t.crashed then CloserCrashes(s, t) else CloserGoes(s, t)
  }

  lemma CloserTakesEdge(s: System, c: Choice, t: System)
    requires !s.crashed && CloserStep(s, c, t) && (s.closer.NotClosing? <==> !s.closed)
    ensures CloserEdge(s, t)
  {
    hide CloseStep;
    match s.closer
    case CallTransferClose =>
    case ClosingTransfer(_) =>
    case _ =>
  }

  lemma MoveKeepsTransfers(env: Env, s: System, m: Move, t: System)
    requires TransfersInv(env, s) && Moves(env, s, m, t)
    requires t.window.Valid() && t.window.capacity == s.window.capacity
    ensures TransfersInv(env, t)
  {
    match m
    case Stay =>
    case Close(i) => CloseStepKeepsInv(s.transfers[i], t.transfers[i]);
    case Add(q) =>
      var start := StartPosition(env.size, q.seek);
      NewTransferInv(start, BodyFrom(env.remote, start), s.hasBuffer);
  }

  // ----- fields and connections -----

  /** What a goroutine's action or a Close action may do to a transfer, as far as connections go. */
  predicate OnlyCloses(x: Transfer, y: Transfer) {
    && (x.connectionClosed ==> y.connectionClosed)
    && (x.closePc.CloseNone? <==> y.closePc.CloseNone?)
  }

  lemma GoroutineOnlyCloses(x: Transfer, e: Event, y: Transfer)
    requires StartStep(x, e, y) || CopyStep(x, e, y)
    ensures OnlyCloses(x, y)
  {
    if CopyStep(x, e, y) {
      CopierOnlyReads(x, e, y);
    } else {
      StarterOnlyCloses(x, e, y);
    }
  }

  lemma CopierOnlyReads(x: Transfer, e: Event, y: Transfer)
    requires CopyStep(x, e, y)
    ensures y.connectionClosed == x.connectionClosed && y.closePc == x.closePc
    ensures y.start == x.start && y.body == x.body && (!e.ChunkWrite? ==> y.written == x.written)
  {
    hide Delivers, AfterRead;
    match x.copyPc
    case Reading =>
    case Writing(_, _) =>
    case _ =>
  }

  lemma StarterOnlyCloses(x: Transfer, e: Event, y: Transfer)
    requires StartStep(x, e, y)
    ensures (x.connectionClosed ==> y.connectionClosed) && y.closePc == x.closePc
    ensures y.start == x.start && y.body == x.body && !e.ChunkWrite? && y.written == x.written
  {
    match x.startPc
    case Select =>
    case CloseConnection =>
    case Mark(_) =>
    case _ =>
  }

  lemma GoroutineKeepsConnections(env: Env, s: System, a: Action, t: System)
    requires FieldsInv(s) && ConnectionsInv(s) && s.window.Valid() && SystemStep(env, s, a, t)
    requires a.Starter? || a.Copier?
    ensures FieldsInv(t) && ConnectionsInv(t)
  {
    GoroutineOnlyCloses(s.transfers[a.i], a.e, t.transfers[a.i]);
  }

  lemma ReaderKeepsFields(env: Env, s: System, t: System)
    requires FieldsInv(s) && ReaderEdge(s, t) && Moves(env, s, ReaderMove(s), t)
    ensures FieldsInv(t)
  {
    match s.reader
    case Closing(_, _) =>
    case CallClose(_) =>
    case Start(_) =>
    case _ =>
  }

  ghost predicate ReturnedIsClosed(s: System) {
    forall i | 0 <= i < |s.transfers| :: s.transfers[i].closePc.CloseReturned? ==> s.transfers[i].connectionClosed
  }

  lemma ReaderClosingKeepsConnections(env: Env, s: System, c: Choice, t: System)
    requires s.window.Valid() && FieldsInv(s) && ConnectionsInv(s) && ReturnedIsClosed(s) && ReaderStep(env, s, c, t)
    requires s.reader.CallClose? || s.reader.Closing?
    ensures ConnectionsInv(t)
  {
  }

  lemma ReaderStartingKeepsConnections(env: Env, s: System, c: Choice, t: System)
    requires s.window.Valid() && FieldsInv(s) && ConnectionsInv(s) && ReaderStep(env, s, c, t)
    requires s.reader.Start?
    ensures ConnectionsInv(t)
  {
  }

  lemma ReaderHandingOverKeepsConnections(env: Env, s: System, c: Choice, t: System)
    requires s.window.Valid() && FieldsInv(s) && ConnectionsInv(s) && ReaderStep(env, s, c, t)
    requires s.reader.DropTransfer? || s.reader.Reset?
    ensures ConnectionsInv(t)
  {
  }

  /** A step that touches nothing ConnectionsInv speaks of. */
  predicate SameConnections(s: System, t: System) {
    && t.transfers == s.transfers && t.current == s.current && (t.hasBuffer ==> s.hasBuffer)
    && (t.reader.Start? ==> s.reader.Start?)
    && (t.reader.DropTransfer? ==> s.reader.DropTransfer?)
    && (s.reader.Closing? ==> t.reader.Closing?)
  }

  lemma SameKeepsConnections(s: System, t: System)
    requires ConnectionsInv(s) && SameConnections(s, t)
    ensures ConnectionsInv(t)
  {
  }

  lemma ReaderIsSame(env: Env, s: System, c: Choice, t: System)
    requires s.window.Valid() && ReaderStep(env, s, c, t)
    requires !(s.reader.CallClose? || s.reader.Closing? || s.reader.Start? || s.reader.DropTransfer? || s.reader.Reset?)
    ensures SameConnections(s, t)
  {
  }

  lemma CloserKeepsFields(env: Env, s: System, t: System)
    requires FieldsInv(s) && CloserEdge(s, t) && Moves(env, s, CloserMove(s), t)
    ensures FieldsInv(t)
  {
  }

  lemma CloserClosingKeepsConnections(s: System, c: Choice, t: System)
    requires FieldsInv(s) && ConnectionsInv(s) && CloserStep(s, c, t)
    requires s.closer.CallTransferClose? || s.closer.ClosingTransfer? || s.closer.ForgetTransfer?
    ensures ConnectionsInv(t)
  {
  }

  lemma CloserIsSame(s: System, c: Choice, t: System)
    requires CloserStep(s, c, t)
    requires !(s.closer.CallTransferClose? || s.closer.ClosingTransfer? || s.closer.ForgetTransfer?)
    ensures SameConnections(s, t)
  {
  }

  lemma ReaderKeepsInv(env: Env, s: System, c: Choice, t: System)
    requires SystemInv(env, s) && !s.crashed && ReaderStep(env, s, c, t)
    ensures SystemInv(env, t)
  {
    ReaderTakesEdge(env, s, c, t);
    ReaderMoves(env, s, c, t);
    ReaderKeepsWindowValid(env, s, c, t);
    MoveKeepsTransfers(env, s, ReaderMove(s), t);
    assert ReturnedIsClosed(s);
    ReaderKeepsFields(env, s, t);
    if s.reader.CallClose? || s.reader.Closing? {
      ReaderClosingKeepsConnections(env, s, c, t);
    } else if s.reader.Start? {
      ReaderStartingKeepsConnections(env, s, c, t);
    } else if s.reader.DropTransfer? || s.reader.Reset? {
      ReaderHandingOverKeepsConnections(env, s, c, t);
    } else {
      ReaderIsSame(env, s, c, t);
      SameKeepsConnections(s, t);
    }
  }

  lemma CloserKeepsInv(env: Env, s: System, c: Choice, t: System)
    requires SystemInv(env, s) && !s.crashed && CloserStep(s, c, t)
    ensures SystemInv(env, t)
  {
    CloserTakesEdge(s, c, t);
    CloserMoves(env, s, c, t);
    MoveKeepsTransfers(env, s, CloserMove(s), t);
    CloserKeepsFields(env, s, t);
    if s.closer.CallTransferClose? || s.closer.ClosingTransfer? || s.closer.ForgetTransfer? {
      CloserClosingKeepsConnections(s, c, t);
    } else {
      CloserIsSame(s, c, t);
      SameKeepsConnections(s, t);
    }
  }

  lemma SystemStepKeepsInv(env: Env, s: System, a: Action, t: System)
    requires SystemInv(env, s) && SystemStep(env, s, a, t)
    ensures SystemInv(env, t)
  {
    if a.Reader? {
      ReaderKeepsInv(env, s, a.choice, t);
    } else if a.Closer? {
      CloserKeepsInv(env, s, a.choice, t);
    } else {
      GoroutineKeepsTransfers(env, s, a, t);
      GoroutineKeepsConnections(env, s, a, t);
    }
  }
}
