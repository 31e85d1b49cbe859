/** Runs of the stream system: what the reads answer, and what stays open. */
module StreamRuns {
  import opened Base
  import opened WindowContract
  import opened Placement
  import opened TransferProtocol
  import opened StreamSystem
  import opened StreamInvariant

  ghost predicate StepAt(env: Env, ss: seq<System>, acts: seq<Action>, k: nat) {
    && k < |acts| && k + 1 < |ss|
    && ss[k].window.Valid()
    && SystemStep(env, ss[k], acts[k], ss[k + 1])
  }

  ghost predicate IsSystemRun(env: Env, ss: seq<System>, acts: seq<Action>) {
    && |ss| == |acts| + 1
    && ss[0] == NewSystem(env)
    && forall k: nat | k < |acts| :: StepAt(env, ss, acts, k)
  }

  lemma {:induction false} InvOverSystemRun(env: Env, ss: seq<System>, acts: seq<Action>, k: nat)
    requires IsSystemRun(env, ss, acts) && k < |ss|
    ensures SystemInv(env, ss[k])
  {
    if k == 0 {
      NewSystemInv(env);
    } else {
      InvOverSystemRun(env, ss, acts, k - 1);
      assert StepAt(env, ss, acts, k - 1);
      SystemStepKeepsInv(env, ss[k - 1], acts[k - 1], ss[k]);
    }
  }

  /** In every reachable state, whatever the schedule, at most one connection is open; and while the
      stream has its buffer that connection is held by the current transfer. */
  lemma AtMostOneOpenConnection(env: Env, ss: seq<System>, acts: seq<Action>, k: nat, i: nat, j: nat)
    requires IsSystemRun(env, ss, acts) && k < |ss|
    requires i < |ss[k].transfers| && !ss[k].transfers[i].connectionClosed
    ensures ss[k].hasBuffer ==> ss[k].current == Some(i)
    ensures j < |ss[k].transfers| && !ss[k].transfers[j].connectionClosed ==> i == j
  {
    InvOverSystemRun(env, ss, acts, k);
  }

  // ----- agreement with the remote file -----

  /** Bytes written by a transfer that the window no longer belongs to. */
  predicate StaleChunk(s: System, a: Action) {
    a.Copier? && a.e.ChunkWrite? && a.e.n > 0 && s.owner != Some(a.i)
  }

  predicate WindowIsOwners(s: System) {
    match s.owner
    case None => s.window.data == []
    case Some(i) =>
      && i < |s.transfers|
      && s.window.base == s.transfers[i].start
      && s.window.data == s.transfers[i].written
  }

  ghost predicate AnswersFaithful(env: Env, s: System) {
    forall k | 0 <= k < |s.answers| :: IsSliceAt(env.remote, s.answers[k].query.seek, s.answers[k].bytes)
  }

  predicate WindowPlaced(env: Env, s: System) {
    && WindowIsOwners(s)
    && (s.reader.Start? ==> s.owner.None? && s.window.base == StartPosition(env.size, s.reader.q.seek))
  }

  ghost predicate Agrees(env: Env, s: System) {
    WindowPlaced(env, s) && AnswersFaithful(env, s)
  }

  /** What a transfer wrote is the remote file from the connection's start on. */
  lemma WrittenIsSlice(remote: seq<byte>, x: Transfer)
    requires TransferProtocol.Inv(x) && x.body == BodyFrom(remote, x.start)
    ensures IsSliceAt(remote, x.start, x.written)
  {
    var n := |x.written|;
    assert x.written <= x.body[..x.position];
    assert x.written == x.body[..n];
    if n > 0 {
      assert remote[x.start..][..n] == remote[x.start..x.start + n];
    }
  }

  lemma AgreementMirrors(env: Env, s: System)
    requires TransfersInv(env, s) && WindowIsOwners(s)
    ensures Mirrors(s.window, env.remote)
  {
    if s.owner.Some? {
      WrittenIsSlice(env.remote, s.transfers[s.owner.value]);
    }
  }

  predicate SameWindowBytes(s: System, t: System) {
    t.window.base == s.window.base && t.window.data == s.window.data && t.owner == s.owner
  }

  lemma MoveKeepsOwner(env: Env, s: System, m: Move, t: System)
    requires WindowIsOwners(s) && Moves(env, s, m, t) && SameWindowBytes(s, t)
    ensures WindowIsOwners(t)
  {
  }

  lemma HandingOverKeepsBytes(env: Env, s: System, c: Choice, t: System)
    requires s.window.Valid() && ReaderStep(env, s, c, t) && HandsOver(s.reader) && !s.reader.Reset? && !s.reader.Start?
    ensures SameWindowBytes(s, t) && t.window.ended == s.window.ended && !t.reader.Start?
  {
    hide CloseStep;
    match s.reader
    case CallClose(_) =>
    case Closing(_, _) =>
    case _ =>
  }

  lemma ProbingKeepsBytes(env: Env, s: System, c: Choice, t: System)
    requires s.window.Valid() && ReaderStep(env, s, c, t) && !HandsOver(s.reader)
    ensures SameWindowBytes(s, t) && t.window.ended == s.window.ended && !t.reader.Start?
  {
    hide RequestedPosition, Window.MayOffer;
    match s.reader
    case Fetch(_) =>
    case _ =>
  }

  lemma ReaderKeepsBytes(env: Env, s: System, c: Choice, t: System)
    requires s.window.Valid() && ReaderStep(env, s, c, t) && !s.reader.Reset? && !s.reader.Start?
    ensures SameWindowBytes(s, t) && t.window.ended == s.window.ended && !t.reader.Start?
  {
    hide ReaderStep;
    if HandsOver(s.reader) {
      HandingOverKeepsBytes(env, s, c, t);
    } else {
      ProbingKeepsBytes(env, s, c, t);
    }
  }

  lemma CloserKeepsBytes(s: System, c: Choice, t: System)
    requires CloserStep(s, c, t)
    ensures SameWindowBytes(s, t) && t.reader == s.reader && t.answers == s.answers
  {
  }

  lemma ReaderKeepsPlace(env: Env, s: System, c: Choice, t: System)
    requires s.window.Valid() && WindowPlaced(env, s) && ReaderStep(env, s, c, t)
    ensures WindowPlaced(env, t)
  {
    if !s.reader.Reset? && !s.reader.Start? {
      ReaderMoves(env, s, c, t);
      ReaderKeepsBytes(env, s, c, t);
      MoveKeepsOwner(env, s, ReaderMove(s), t);
    }
  }

  lemma CloserKeepsPlace(env: Env, s: System, c: Choice, t: System)
    requires s.window.Valid() && WindowPlaced(env, s) && CloserStep(s, c, t)
    ensures WindowPlaced(env, t) && t.answers == s.answers
  {
    CloserMoves(env, s, c, t);
    CloserKeepsBytes(s, c, t);
    MoveKeepsOwner(env, s, CloserMove(s), t);
  }

  lemma GoroutineKeepsPlace(env: Env, s: System, a: Action, t: System)
    requires s.window.Valid() && WindowPlaced(env, s) && SystemStep(env, s, a, t) && (a.Starter? || a.Copier?)
    requires !StaleChunk(s, a)
    ensures WindowPlaced(env, t) && t.answers == s.answers
  {
    if a.Copier? {
      CopierOnlyReads(s.transfers[a.i], a.e, t.transfers[a.i]);
    } else {
      StarterOnlyCloses(s.transfers[a.i], a.e, t.transfers[a.i]);
    }
    assert !a.e.ChunkWrite? || a.e.n == 0 ==> t.window.data == s.window.data;
  }

  /** A reader's step appends no answer, an empty one, or bytes the window held at the asked position. */
  lemma ReaderAnswers(env: Env, s: System, c: Choice, t: System)
    requires s.window.Valid() && ReaderStep(env, s, c, t)
    ensures t.answers == s.answers ||
            (|t.answers| == |s.answers| + 1 && t.answers[..|s.answers|] == s.answers &&
             var a := t.answers[|s.answers|];
             a.bytes == [] || s.window.Read(a.query.seek, a.query.length, a.bytes, t.window))
  {
    hide CloseStep, RequestedPosition, StartPosition, Window.MayOffer;
    match s.reader
    case Fetch(_) =>
    case Waiting(_) =>
    case CallClose(_) =>
    case Closing(_, _) =>
    case _ =>
  }

  lemma ReaderKeepsAnswers(env: Env, s: System, c: Choice, t: System)
    requires TransfersInv(env, s) && Agrees(env, s) && ReaderStep(env, s, c, t)
    ensures AnswersFaithful(env, t)
  {
    hide ReaderStep, TransferProtocol.Inv;
    ReaderAnswers(env, s, c, t);
    var n := |s.answers|;
    if t.answers != s.answers && t.answers[n].bytes != [] {
      AgreementMirrors(env, s);
      var a := t.answers[n];
      ReadOfMirror(s.window, env.remote, a.query.seek, a.query.length, a.bytes, t.window);
    }
    forall k | 0 <= k < |t.answers| ensures IsSliceAt(env.remote, t.answers[k].query.seek, t.answers[k].bytes) {
      assert k < n ==> t.answers[k] == t.answers[..n][k];
    }
  }

  lemma StepKeepsAgreement(env: Env, s: System, a: Action, t: System)
    requires SystemInv(env, s) && Agrees(env, s) && SystemStep(env, s, a, t) && !StaleChunk(s, a)
    ensures Agrees(env, t)
  {
    if a.Reader? {
      ReaderKeepsPlace(env, s, a.choice, t);
      ReaderKeepsAnswers(env, s, a.choice, t);
    } else if a.Closer? {
      CloserKeepsPlace(env, s, a.choice, t);
    } else {
      GoroutineKeepsPlace(env, s, a, t);
    }
  }

  /** No transfer writes a chunk once the window has been reset for its successor. */
  ghost predicate NoStaleChunk(ss: seq<System>, acts: seq<Action>) {
    |ss| == |acts| + 1 && forall k | 0 <= k < |acts| :: !StaleChunk(ss[k], acts[k])
  }

  lemma {:induction false} AgreementOverRun(env: Env, ss: seq<System>, acts: seq<Action>, k: nat)
    requires IsSystemRun(env, ss, acts) && NoStaleChunk(ss, acts) && k < |ss|
    ensures Agrees(env, ss[k])
  {
    if k > 0 {
      AgreementOverRun(env, ss, acts, k - 1);
      InvOverSystemRun(env, ss, acts, k - 1);
      assert StepAt(env, ss, acts, k - 1);
      StepKeepsAgreement(env, ss[k - 1], acts[k - 1], ss[k]);
    }
  }

  /** On every interleaving without a stale chunk: each byte the window holds is the remote file's byte
      at that position, the window starts where the current connection does, and every read that
      returned bytes returned the remote file's bytes at its offset. */
  lemma ReadsAgreeWithRemote(env: Env, ss: seq<System>, acts: seq<Action>, k: nat)
    requires IsSystemRun(env, ss, acts) && NoStaleChunk(ss, acts) && k < |ss|
    ensures ss[k].window.Valid()
    ensures forall p: nat | ss[k].window.Holds(p) ::
              p < |env.remote| && ss[k].window.data[p - ss[k].window.base] == env.remote[p]
    ensures ss[k].current.Some? ==> ss[k].current.value < |ss[k].transfers|
                                    && ss[k].window.base == ss[k].transfers[ss[k].current.value].start
    ensures AnswersFaithful(env, ss[k])
  {
    InvOverSystemRun(env, ss, acts, k);
    AgreementOverRun(env, ss, acts, k);
    AgreementMirrors(env, ss[k]);
    var w := ss[k].window;
    forall p: nat | w.Holds(p) ensures p < |env.remote| && w.data[p - w.base] == env.remote[p] {
      assert env.remote[w.base..w.base + |w.data|][p - w.base] == env.remote[p];
    }
  }

  /** Whatever two streams of one file went through, their answers to the same request agree: one is a
      prefix of the other. */
  lemma HistoryIndependence(env: Env, other: Env, ss: seq<System>, acts: seq<Action>,
                            ts: seq<System>, bcts: seq<Action>, a: Answer, b: Answer)
    requires IsSystemRun(env, ss, acts) && NoStaleChunk(ss, acts)
    requires IsSystemRun(other, ts, bcts) && NoStaleChunk(ts, bcts)
    requires env.remote == other.remote
    requires a in ss[|acts|].answers && b in ts[|bcts|].answers && a.query == b.query
    ensures a.bytes <= b.bytes || b.bytes <= a.bytes
  {
    AgreementOverRun(env, ss, acts, |acts|);
    AgreementOverRun(other, ts, bcts, |bcts|);
    if a.bytes != [] && b.bytes != [] {
      var p, n, m := a.query.seek, |a.bytes|, |b.bytes|;
      if n <= m {
        assert env.remote[p..p + m][..n] == env.remote[p..p + n];
      } else {
        assert env.remote[p..p + n][..m] == env.remote[p..p + m];
      }
    }
  }
}
