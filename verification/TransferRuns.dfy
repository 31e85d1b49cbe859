/** What holds over whole runs of one transfer, for every interleaving of its three processes. */
module TransferRuns {
  import opened Base
  import opened TransferProtocol

  ghost predicate IsRun(xs: seq<Transfer>, es: seq<Event>) {
    && |xs| == |es| + 1
    && forall k | 0 <= k < |es| :: Step(xs[k], es[k], xs[k + 1])
  }

  /** A run that starts where `go transfer.start()` does. */
  ghost predicate IsFullRun(xs: seq<Transfer>, es: seq<Event>) {
    && IsRun(xs, es)
    && xs[0] == NewTransfer(xs[0].start, xs[0].body, xs[0].hasBuffer)
  }

  function Chunks(es: seq<Event>): nat {
    if es == [] then 0 else (if es[0].ChunkWrite? then 1 else 0) + Chunks(es[1..])
  }

  function Marks(es: seq<Event>): nat {
    if es == [] then 0 else (if es[0].MarkWrite? then 1 else 0) + Marks(es[1..])
  }

  function ReadCalls(es: seq<Event>): nat {
    if es == [] then 0 else (if es[0].ReadCall? then 1 else 0) + ReadCalls(es[1..])
  }

  lemma {:induction false} InvOverRun(xs: seq<Transfer>, es: seq<Event>, k: nat)
    requires IsFullRun(xs, es) && k < |xs|
    ensures Inv(xs[k])
  {
    if k == 0 {
      NewTransferInv(xs[0].start, xs[0].body, xs[0].hasBuffer);
    } else {
      InvOverRun(xs, es, k - 1);
      StepKeepsInv(xs[k - 1], es[k - 1], xs[k]);
    }
  }

  lemma TailIsRun(xs: seq<Transfer>, es: seq<Event>, k: nat)
    requires IsRun(xs, es) && k <= |es|
    ensures IsRun(xs[k..], es[k..])
  {
    forall j | 0 <= j < |es[k..]| ensures Step(xs[k..][j], es[k..][j], xs[k..][j + 1]) {
      assert Step(xs[k + j], es[k + j], xs[k + j + 1]);
    }
  }

  // ----- after cancellation -----

  /** Writes `copyData` can still make once the context is cancelled. */
  function ChunkBudget(x: Transfer): nat {
    if x.copyPc.Load? || x.copyPc.Reading? || x.copyPc.Writing? then 1 else 0
  }

  function ReadBudget(x: Transfer): nat {
    if x.copyPc.Load? then 1 else 0
  }

  function MarkBudget(x: Transfer): nat {
    if x.startPc.Leave? || x.startPc.Left? then 0 else 1
  }

  lemma StarterSpends(x: Transfer, e: Event, y: Transfer)
    requires x.cancelled && StartStep(x, e, y)
    ensures y.cancelled && y.closePc == x.closePc && !e.ChunkWrite? && !e.ReadCall?
    ensures ChunkBudget(y) <= ChunkBudget(x) && ReadBudget(y) <= ReadBudget(x)
    ensures (if e.MarkWrite? then 1 else 0) + MarkBudget(y) == MarkBudget(x)
  {
    match x.startPc
    case Spawn =>
    case Select =>
    case CloseConnection =>
    case Mark(_) =>
    case _ =>
  }

  lemma CopierSpends(x: Transfer, e: Event, y: Transfer)
    requires x.cancelled && CopyStep(x, e, y)
    ensures y.cancelled && y.closePc == x.closePc && !e.MarkWrite? && MarkBudget(y) == MarkBudget(x)
    ensures (if e.ChunkWrite? then 1 else 0) + ChunkBudget(y) <= ChunkBudget(x)
    ensures (if e.ReadCall? then 1 else 0) + ReadBudget(y) <= ReadBudget(x)
  {
    hide Delivers;
  }

  lemma CancelledStepSpends(x: Transfer, e: Event, y: Transfer)
    requires x.cancelled && Step(x, e, y)
    ensures y.cancelled
    ensures Chunks([e]) + ChunkBudget(y) <= ChunkBudget(x)
    ensures ReadCalls([e]) + ReadBudget(y) <= ReadBudget(x)
  {
    hide StartStep, CopyStep;
    assert [e][1..] == [];
    if StartStep(x, e, y) {
      StarterSpends(x, e, y);
    } else if CopyStep(x, e, y) {
      CopierSpends(x, e, y);
    }
  }

  lemma StepSpendsMark(x: Transfer, e: Event, y: Transfer)
    requires Step(x, e, y)
    ensures Marks([e]) + MarkBudget(y) == MarkBudget(x)
  {
    assert [e][1..] == [];
    if !StartStep(x, e, y) {
      if CopyStep(x, e, y) {
        CopierKeepsStart(x, e, y);
      } else {
        CloserKeepsStart(x, y);
      }
    }
  }

  lemma CopierKeepsStart(x: Transfer, e: Event, y: Transfer)
    requires CopyStep(x, e, y)
    ensures y.startPc == x.startPc && !e.MarkWrite?
  {
  }

  lemma CloserKeepsStart(x: Transfer, y: Transfer)
    requires CloseStep(x, y)
    ensures y.startPc == x.startPc
  {
  }

  lemma {:induction false} CancelledRunSpends(xs: seq<Transfer>, es: seq<Event>)
    requires IsRun(xs, es) && Inv(xs[0]) && xs[0].cancelled
    ensures Chunks(es) <= ChunkBudget(xs[0])
    ensures ReadCalls(es) <= ReadBudget(xs[0])
    decreases |es|
  {
    if es != [] {
      assert Step(xs[0], es[0], xs[1]);
      assert [es[0]][1..] == [];
      CancelledStepSpends(xs[0], es[0], xs[1]);
      StepKeepsInv(xs[0], es[0], xs[1]);
      TailIsRun(xs, es, 1);
      CancelledRunSpends(xs[1..], es[1..]);
    }
  }

  lemma {:induction false} RunSpendsMarks(xs: seq<Transfer>, es: seq<Event>)
    requires IsRun(xs, es)
    ensures Marks(es) + MarkBudget(xs[|es|]) == MarkBudget(xs[0])
    decreases |es|
  {
    if es != [] {
      assert Step(xs[0], es[0], xs[1]);
      assert [es[0]][1..] == [];
      StepSpendsMark(xs[0], es[0], xs[1]);
      TailIsRun(xs, es, 1);
      RunSpendsMarks(xs[1..], es[1..]);
    }
  }

  /** Once the context is cancelled `copyData` makes at most one more call to Read and at most one more
      write, although a closed connection answers (0, nil) for ever. */
  lemma AtMostOneMoreTurn(xs: seq<Transfer>, es: seq<Event>, k: nat)
    requires IsFullRun(xs, es) && k <= |es| && xs[k].cancelled
    ensures ReadCalls(es[k..]) <= 1
    ensures Chunks(es[k..]) <= 1
  {
    InvOverRun(xs, es, k);
    TailIsRun(xs, es, k);
    CancelledRunSpends(xs[k..], es[k..]);
  }

  /** After the winning Close has returned the transfer makes at most one more buffer write, over any
      interleaving: a chunk or the end marker, never both. */
  lemma AtMostOneLateWrite(xs: seq<Transfer>, es: seq<Event>, k: nat)
    requires IsFullRun(xs, es) && k <= |es| && xs[k].closePc.CloseReturned?
    ensures Chunks(es[k..]) + Marks(es[k..]) <= 1
  {
    InvOverRun(xs, es, k);
    TailIsRun(xs, es, k);
    CancelledRunSpends(xs[k..], es[k..]);
    RunSpendsMarks(xs[k..], es[k..]);
  }

  /** A step that lets the winning Close return: the wait has found the counter at zero. */
  lemma ReturningStep(x: Transfer, e: Event, y: Transfer)
    requires Inv(x) && Step(x, e, y) && x.closePc.CloseWait? && y.closePc.CloseReturned?
    ensures y.startPc == x.startPc && (x.startPc.Begin? || x.startPc.Left?)
  {
    hide DataInv, Delivers;
  }

  predicate HasMarked(x: Transfer) { x.startPc.Leave? || x.startPc.Left? }

  /** The end marker comes after the winning Close has returned exactly when `start` had not begun at that
      moment, so that the wait missed it, and has since got as far as its marker. */
  lemma LateMarkIffNotBegun(xs: seq<Transfer>, es: seq<Event>, k: nat)
    requires IsFullRun(xs, es) && k < |es| && xs[k].closePc.CloseWait? && xs[k + 1].closePc.CloseReturned?
    ensures Marks(es[k + 1..]) == if xs[k].startPc.Begin? && HasMarked(xs[|es|]) then 1 else 0
  {
    InvOverRun(xs, es, k);
    ReturningStep(xs[k], es[k], xs[k + 1]);
    TailIsRun(xs, es, k + 1);
    RunSpendsMarks(xs[k + 1..], es[k + 1..]);
  }

  // ----- completion -----

  /** `copyData` can always act: in particular its one send never finds the channel full. */
  lemma CopyNeverBlocks(x: Transfer)
    requires Inv(x) && !x.crashed && !x.copyPc.Unborn? && !x.copyPc.Exit?
    ensures exists e: Event, y: Transfer :: CopyStep(x, e, y)
  {
    var e, y;
    match x.copyPc {
      case Head =>
        e := Silent;
        y := x.(copyPc := if x.cancelled then Send(Canceled) else Load);
      case Load =>
        e := if x.hasConnection then ReadCall else Crash;
        y := if !x.hasConnection then CrashOf(x) else x.(copyPc := if x.connectionClosed then Head else Reading);
      case Reading =>
        e := ReadReturn(0, Broken);
        y := x.(position := x.position + 0, copyPc := AfterRead(Broken));
      case Writing(chunk, error) =>
        e := if x.hasBuffer then ChunkWrite(0, true) else Crash;
        y := if x.hasBuffer then x.(written := x.written + chunk[..0], copyPc := Send(WriteFailed)) else CrashOf(x);
      case Send(result) =>
        e := Silent;
        y := x.(channel := Some(result), sent := x.sent + 1, copyPc := Exit(result));
    }
    assert CopyStep(x, e, y);
  }

  /** And takes whatever a read or a write comes to: the bytes read go to the buffer first, and only then is the
      read's error acted on, unless the write failed. */
  lemma ReadIsWrittenThenJudged(x: Transfer, n: nat, error: ReadError, m: nat, failed: bool)
    requires x.copyPc.Reading? && x.hasBuffer && Delivers(x, n, error) && m <= n && (m < n ==> failed)
    ensures n == 0 ==>
              exists y: Transfer :: CopyStep(x, ReadReturn(0, error), y) && JudgedAs(y, false, error)
                  && y.written == x.written
    ensures n > 0 ==>
              exists y: Transfer, z: Transfer ::
                CopyStep(x, ReadReturn(n, error), y) && CopyStep(y, ChunkWrite(m, failed), z)
                    && JudgedAs(z, failed, error)
                && z.written == x.written + x.body[x.position..x.position + m] && z.position == x.position + n
  {
    var next := match error { case NoError => Head case EndOfBody => Send(Finished) case Broken => Send(ReadFailed) };
    if n == 0 {
      var y := x.(position := x.position + 0, copyPc := next);
      assert CopyStep(x, ReadReturn(0, error), y) && JudgedAs(y, false, error);
    } else {
      var chunk := x.body[x.position..x.position + n];
      var y := x.(position := x.position + n, copyPc := Writing(chunk, error));
      assert chunk[..m] == x.body[x.position..x.position + m];
      var z := y.(written := x.written + chunk[..m], copyPc := if failed then Send(WriteFailed) else next);
      assert CopyStep(x, ReadReturn(n, error), y) && CopyStep(y, ChunkWrite(m, failed), z)
          && JudgedAs(z, failed, error);
    }
  }

  /** Where the loop goes after a read with this error, its bytes written or their write failed. */
  predicate JudgedAs(x: Transfer, failed: bool, error: ReadError) {
    if failed then x.copyPc == Send(WriteFailed)
    else
      match error
      case NoError => x.copyPc == Head
      case EndOfBody => x.copyPc == Send(Finished)
      case Broken => x.copyPc == Send(ReadFailed)
  }

  /** In no other way. */
  lemma JudgedNoOtherWay(x: Transfer, e: Event, y: Transfer, f: Event, z: Transfer)
    requires x.copyPc.Reading? && x.hasBuffer && CopyStep(x, e, y)
    requires e.ReadReturn? && e.n > 0 ==> CopyStep(y, f, z)
    ensures e.ReadReturn? && Delivers(x, e.n, e.error)
    ensures e.n == 0 ==> JudgedAs(y, false, e.error) && y.written == x.written
    ensures e.n > 0 ==>
              && f.ChunkWrite? && f.n <= e.n && JudgedAs(z, f.failed, e.error)
              && z.written == x.written + x.body[x.position..x.position + e.n][..f.n]
  {
  }

  /** `start` goes on as soon as its context is cancelled or a result is there, and takes either. */
  lemma StartGoesOn(x: Transfer)
    requires Inv(x) && !x.startPc.Left?
    ensures x.startPc.Select? && x.cancelled ==>
              exists y: Transfer :: StartStep(x, Silent, y) && y.startPc.CloseConnection?
    ensures x.startPc.Select? && x.channel.Some? ==>
              exists y: Transfer :: StartStep(x, Silent, y) && y.startPc == Mark(true) && y.channel.None?
    ensures !x.startPc.Select? ==> exists e: Event, y: Transfer :: StartStep(x, e, y)
  {
    if x.startPc.Select? {
      assert x.cancelled ==> StartStep(x, Silent, x.(startPc := CloseConnection));
      assert x.channel.Some? ==> StartStep(x, Silent, x.(startPc := Mark(true), channel := None));
    } else {
      var e, y;
      match x.startPc {
        case Begin => e, y := Silent, x.(startPc := Spawn, waiting := x.waiting + 1);
        case Spawn => e, y := Silent, x.(startPc := Select, copyPc := Head);
        case CloseConnection =>
          e := Silent;
          y := if x.hasConnection then x.(startPc := DropConnection, connectionClosed := true)
               else x.(startPc := Mark(false));
        case DropConnection => e, y := Silent, x.(startPc := Mark(false), hasConnection := false);
        case Mark(byResult) =>
          e := if x.hasBuffer then MarkWrite else Crash;
          y := if x.hasBuffer then x.(startPc := Leave(byResult), marks := x.marks + 1) else CrashOf(x);
        case Leave(byResult) => e, y := Silent, x.(startPc := Left(byResult), waiting := x.waiting - 1);
      }
      assert StartStep(x, e, y);
    }
  }

  /** Exactly one result is sent by the time `copyData` returns, and exactly one end marker is written
      by the time `start` does; a `Finished` result means the buffer took the whole body. */
  lemma CompletesOnce(xs: seq<Transfer>, es: seq<Event>)
    requires IsFullRun(xs, es)
    ensures xs[|es|].sent <= 1 && Marks(es) <= 1
    ensures xs[|es|].copyPc.Exit? ==> xs[|es|].sent == 1
    ensures xs[|es|].startPc.Left? ==> Marks(es) == 1
    ensures xs[|es|].copyPc == Exit(Finished) ==> xs[|es|].written == xs[|es|].body
  {
    InvOverRun(xs, es, |es|);
    RunSpendsMarks(xs, es);
    if xs[|es|].copyPc == Exit(Finished) {
      var x := xs[|es|];
      assert x.body[..x.position] == x.body;
    }
  }

  lemma ReceivedStaysReceived(x: Transfer, e: Event, y: Transfer)
    requires Inv(x) && ByResult(x.startPc) && Step(x, e, y)
    ensures ByResult(y.startPc) && !e.ChunkWrite?
  {
  }

  lemma {:induction false} NoChunkOnceReceived(xs: seq<Transfer>, es: seq<Event>)
    requires IsRun(xs, es) && Inv(xs[0]) && ByResult(xs[0].startPc)
    ensures Chunks(es) == 0
    decreases |es|
  {
    if es != [] {
      assert Step(xs[0], es[0], xs[1]);
      ReceivedStaysReceived(xs[0], es[0], xs[1]);
      StepKeepsInv(xs[0], es[0], xs[1]);
      TailIsRun(xs, es, 1);
      NoChunkOnceReceived(xs[1..], es[1..]);
    }
  }

  /** If `start` left its select through the result branch, its end marker is the transfer's last write. */
  lemma MarkerIsLast(xs: seq<Transfer>, es: seq<Event>, k: nat)
    requires IsFullRun(xs, es) && k < |es| && es[k].MarkWrite? && ByResult(xs[k + 1].startPc)
    ensures Chunks(es[k + 1..]) + Marks(es[k + 1..]) == 0
  {
    InvOverRun(xs, es, k + 1);
    assert Step(xs[k], es[k], xs[k + 1]);
    TailIsRun(xs, es, k + 1);
    NoChunkOnceReceived(xs[k + 1..], es[k + 1..]);
    RunSpendsMarks(xs[k + 1..], es[k + 1..]);
  }

  // ----- the nil connection -----

  /** `start` sets `transfer.connection` to nil while `copyData` stands between its loop head and its
      load of the field. */
  ghost predicate DropsUnderReader(xs: seq<Transfer>, j: nat) {
    j + 1 < |xs| && xs[j].copyPc.Load? && xs[j].hasConnection && !xs[j + 1].hasConnection
  }

  lemma StepIntoLoad(x: Transfer, e: Event, y: Transfer)
    requires Inv(x) && Step(x, e, y)
    ensures !y.cancelled ==> !x.cancelled
    ensures !x.hasConnection ==> !y.hasConnection
    ensures y.copyPc.Load? && !x.copyPc.Load? ==> !y.cancelled
  {
    hide StartStep, CopyStep;
    if StartStep(x, e, y) {
      StartStepFrame(x, e, y);
    } else if CopyStep(x, e, y) {
      CopierIntoLoad(x, e, y);
    }
  }

  lemma CopierIntoLoad(x: Transfer, e: Event, y: Transfer)
    requires CopyStep(x, e, y)
    ensures y.cancelled == x.cancelled && y.hasConnection == x.hasConnection
    ensures y.copyPc.Load? && !x.copyPc.Load? ==> !y.cancelled
  {
    hide Delivers;
    match x.copyPc
    case Reading =>
    case Writing(_, _) =>
    case _ =>
  }

  lemma RunIntoLoad(xs: seq<Transfer>, es: seq<Event>, k: nat)
    requires IsFullRun(xs, es) && k < |es|
    ensures !xs[k + 1].cancelled ==> !xs[k].cancelled
    ensures !xs[k].hasConnection ==> !xs[k + 1].hasConnection
    ensures xs[k + 1].copyPc.Load? && !xs[k].copyPc.Load? ==> !xs[k + 1].cancelled
  {
    InvOverRun(xs, es, k);
    assert Step(xs[k], es[k], xs[k + 1]);
    StepIntoLoad(xs[k], es[k], xs[k + 1]);
  }

  lemma {:induction false} NoDropBeforeCancel(xs: seq<Transfer>, es: seq<Event>, k: nat)
    requires IsFullRun(xs, es) && k <= |es| && !xs[k].cancelled
    ensures forall j :: 0 <= j <= k ==> xs[j].hasConnection
  {
    UncancelledHasConnection(xs, es, k);
    if k > 0 {
      RunIntoLoad(xs, es, k - 1);
      NoDropBeforeCancel(xs, es, k - 1);
    }
  }

  lemma UncancelledHasConnection(xs: seq<Transfer>, es: seq<Event>, k: nat)
    requires IsFullRun(xs, es) && k <= |es| && !xs[k].cancelled
    ensures xs[k].hasConnection
  {
    InvOverRun(xs, es, k);
  }

  /** Exactly those drops let `copyData` dereference nil: whenever its next action is a load of the
      field, the field is nil if and only if it was dropped on the present turn of the loop. */
  lemma {:induction false} NilLoadIffDroppedUnderReader(xs: seq<Transfer>, es: seq<Event>, k: nat)
    requires IsFullRun(xs, es) && k <= |es| && xs[k].copyPc.Load?
    ensures !xs[k].hasConnection <==> exists j: nat :: j < k && DropsUnderReader(xs, j)
    ensures forall j: nat, i: nat :: j < k && DropsUnderReader(xs, j) && j <= i <= k ==> xs[i].copyPc.Load?
  {
    if k > 0 {
      RunIntoLoad(xs, es, k - 1);
      if xs[k - 1].copyPc.Load? {
        NilLoadIffDroppedUnderReader(xs, es, k - 1);
        if !xs[k].hasConnection && xs[k - 1].hasConnection {
          assert DropsUnderReader(xs, k - 1);
        }
      } else {
        NoDropBeforeCancel(xs, es, k);
      }
    }
  }
}
