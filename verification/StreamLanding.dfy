/** What stale chunks do to the window they land in, for as long as that window stands. */
module StreamLanding {
  import opened Base
  import opened WindowContract
  import opened Placement
  import opened TransferProtocol
  import opened StreamSystem
  import opened StreamInvariant
  import opened StreamRuns
  import opened StreamReturns
  import opened StreamStale

  lemma SliceExtends(remote: seq<byte>, base: nat, data: seq<byte>, more: seq<byte>)
    requires IsSliceAt(remote, base, data)
    ensures IsSliceAt(remote, base, data + more) <==> IsSliceAt(remote, base + |data|, more)
  {
    var mid, end := base + |data|, base + |data| + |more|;
    if more == [] {
      assert data + more == data;
    } else if end <= |remote| {
      assert remote[base..end] == remote[base..mid] + remote[mid..end];
      if remote[base..end] == data + more {
        assert remote[mid..end] == remote[base..end][|data|..];
        assert (data + more)[|data|..] == more;
      }
    }
  }

  lemma SlicePrefix(remote: seq<byte>, base: nat, data: seq<byte>, more: seq<byte>)
    requires IsSliceAt(remote, base, data + more)
    ensures IsSliceAt(remote, base, data)
  {
    if data != [] {
      assert data == (data + more)[..|data|];
      SliceOfSlice(remote, base, base + |data + more|, 0, |data|);
    }
  }

  // ----- chunk by chunk -----

  predicate IsReset(s: System, a: Action) { a.Reader? && s.reader.Reset? }

  /** What a step other than a reset appends to the window: the chunk it writes, or nothing. */
  function Appended(s: System, a: Action): seq<byte> {
    if a.Copier? && a.e.ChunkWrite? && a.i < |s.transfers| && s.transfers[a.i].copyPc.Writing?
       && a.e.n <= |s.transfers[a.i].copyPc.chunk|
    then s.transfers[a.i].copyPc.chunk[..a.e.n] else []
  }

  /** These bytes are the ones the file has at the window's high end. */
  ghost predicate LandsRight(env: Env, s: System, a: Action) {
    IsSliceAt(env.remote, s.window.High(), Appended(s, a))
  }

  lemma GoroutineAppends(env: Env, s: System, a: Action, t: System)
    requires s.window.Valid() && SystemStep(env, s, a, t) && (a.Starter? || a.Copier?)
    ensures t.window.base == s.window.base && t.window.data == s.window.data + Appended(s, a)
  {
    if a.Starter? {
      StarterOnlyCloses(s.transfers[a.i], a.e, t.transfers[a.i]);
    }
  }

  lemma StepAppends(env: Env, s: System, a: Action, t: System)
    requires s.window.Valid() && SystemStep(env, s, a, t) && !IsReset(s, a)
    ensures t.window.base == s.window.base && t.window.data == s.window.data + Appended(s, a)
  {
    hide StartStep, CopyStep, CloserStep;
    if a.Reader? {
      if s.reader.Start? {
        assert t.window == s.window;
      } else {
        ReaderKeepsBytes(env, s, a.choice, t);
      }
    } else if a.Closer? {
      CloserKeepsBytes(s, a.choice, t);
    } else {
      GoroutineAppends(env, s, a, t);
    }
  }

  lemma StepMirrors(env: Env, s: System, a: Action, t: System)
    requires s.window.Valid() && SystemStep(env, s, a, t) && !IsReset(s, a)
    ensures Mirrors(t.window, env.remote) <==> Mirrors(s.window, env.remote) && LandsRight(env, s, a)
  {
    hide SystemStep;
    StepAppends(env, s, a, t);
    var more := Appended(s, a);
    if IsSliceAt(env.remote, s.window.base, s.window.data) {
      SliceExtends(env.remote, s.window.base, s.window.data, more);
    } else if IsSliceAt(env.remote, s.window.base, s.window.data + more) {
      SlicePrefix(env.remote, s.window.base, s.window.data, more);
    }
  }

  ghost predicate NoReset(ss: seq<System>, acts: seq<Action>, j: nat, k: nat) {
    k <= |acts| && k <= |ss| && forall h | j <= h < k :: !IsReset(ss[h], acts[h])
  }

  ghost predicate AllLandRight(env: Env, ss: seq<System>, acts: seq<Action>, j: nat, k: nat) {
    k <= |acts| && k <= |ss| && forall h | j <= h < k :: LandsRight(env, ss[h], acts[h])
  }

  /** As long as a window stands, whoever writes into it: it mirrors the file if and only if every chunk so far
      landed on the file's own bytes. */
  lemma {:induction false} MirrorsIffChunksLandRight(env: Env, ss: seq<System>, acts: seq<Action>, j: nat, k: nat)
    requires IsSystemRun(env, ss, acts) && j <= k <= |acts| && NoReset(ss, acts, j, k)
    requires Mirrors(ss[j].window, env.remote)
    ensures Mirrors(ss[k].window, env.remote) <==> AllLandRight(env, ss, acts, j, k)
  {
    hide SystemStep, LandsRight, Mirrors;
    if j < k {
      MirrorsIffChunksLandRight(env, ss, acts, j, k - 1);
      assert StepAt(env, ss, acts, k - 1);
      StepMirrors(env, ss[k - 1], acts[k - 1], ss[k]);
    }
  }

  /** A window that has stopped mirroring the file does not recover before the next reset. */
  lemma BrokenStaysBroken(env: Env, ss: seq<System>, acts: seq<Action>, j: nat, h: nat, k: nat)
    requires IsSystemRun(env, ss, acts) && j <= h <= k <= |acts| && NoReset(ss, acts, j, k)
    requires Mirrors(ss[j].window, env.remote) && Mirrors(ss[k].window, env.remote)
    ensures Mirrors(ss[h].window, env.remote)
  {
    MirrorsIffChunksLandRight(env, ss, acts, j, k);
    MirrorsIffChunksLandRight(env, ss, acts, j, h);
  }

  // ----- one stale chunk -----

  function OwnerWritten(s: System): seq<byte> {
    if s.owner.Some? && s.owner.value < |s.transfers| then s.transfers[s.owner.value].written else []
  }

  lemma ReaderKeepsOwnerWritten(env: Env, s: System, c: Choice, t: System)
    requires SystemInv(env, s) && OwnerInv(env, s) && !s.crashed && ReaderStep(env, s, c, t) && !s.reader.Reset?
    ensures OwnerWritten(t) == OwnerWritten(s)
  {
    hide ReaderStep, TransferProtocol.Inv, ConnectionsInv;
    ReaderMoves(env, s, c, t);
    ReaderTakesEdge(env, s, c, t);
  }

  /** A step that is neither a reset nor a stale chunk appends to the window what it appends to its owner's bytes. */
  lemma StepAppendsOwners(env: Env, s: System, a: Action, t: System)
    requires SystemInv(env, s) && OwnerInv(env, s) && SystemStep(env, s, a, t) && !IsReset(s, a) && !StaleChunk(s, a)
    ensures OwnerWritten(t) == OwnerWritten(s) + Appended(s, a)
  {
    hide ReaderStep, CloserStep, StartStep, ConnectionsInv, TransferProtocol.Inv;
    if a.Reader? {
      ReaderKeepsOwnerWritten(env, s, a.choice, t);
    } else if a.Closer? {
      CloserMoves(env, s, a.choice, t);
      CloserKeepsBytes(s, a.choice, t);
    } else if a.Starter? {
      StarterOnlyCloses(s.transfers[a.i], a.e, t.transfers[a.i]);
    } else {
      CopierOnlyReads(s.transfers[a.i], a.e, t.transfers[a.i]);
    }
  }

  lemma {:induction false} OwnerOverRun(env: Env, ss: seq<System>, acts: seq<Action>, k: nat)
    requires IsSystemRun(env, ss, acts) && k <= |acts|
    ensures SystemInv(env, ss[k]) && OwnerInv(env, ss[k])
  {
    hide SystemStep, SystemInv, OwnerInv;
    InvOverSystemRun(env, ss, acts, k);
    if k == 0 {
      NewIsQuiet(env);
    } else {
      OwnerOverRun(env, ss, acts, k - 1);
      assert StepAt(env, ss, acts, k - 1);
      StepKeepsOwner(env, ss[k - 1], acts[k - 1], ss[k]);
    }
  }

  ghost predicate NoStaleChunkIn(ss: seq<System>, acts: seq<Action>, j: nat, k: nat) {
    k <= |acts| && k <= |ss| && forall h | j <= h < k :: !StaleChunk(ss[h], acts[h])
  }

  /** With neither reset nor stale chunk the window grows by exactly what its owner writes. */
  lemma {:induction false} WindowGrowsByOwner(env: Env, ss: seq<System>, acts: seq<Action>, j: nat, k: nat)
    requires IsSystemRun(env, ss, acts) && j <= k <= |acts| && NoReset(ss, acts, j, k) && NoStaleChunkIn(ss, acts, j, k)
    ensures OwnerWritten(ss[j]) <= OwnerWritten(ss[k]) && ss[k].window.base == ss[j].window.base
    ensures ss[k].window.data == ss[j].window.data + OwnerWritten(ss[k])[|OwnerWritten(ss[j])|..]
  {
    hide SystemStep, SystemInv, OwnerInv, OwnerWritten, Appended, StaleChunk;
    if j < k {
      var n := k - 1;
      WindowGrowsByOwner(env, ss, acts, j, n);
      assert StepAt(env, ss, acts, n);
      OwnerOverRun(env, ss, acts, n);
      StepAppends(env, ss[n], acts[n], ss[k]);
      StepAppendsOwners(env, ss[n], acts[n], ss[k]);
      var before, more := OwnerWritten(ss[n]), Appended(ss[n], acts[n]);
      var d := |OwnerWritten(ss[j])|;
      assert (before + more)[d..] == before[d..] + more;
    }
  }

  /** What the owner has written is the body of its connection, from the window's base on. */
  lemma OwnerWritesBody(env: Env, s: System)
    requires SystemInv(env, s) && OwnerInv(env, s)
    ensures OwnerWritten(s) <= BodyFrom(env.remote, s.window.base)
  {
    if s.owner.Some? && s.owner.value < |s.transfers| {
      var x := s.transfers[s.owner.value];
      assert TransferProtocol.Inv(x);
      assert x.written <= x.body[..x.position];
    }
  }

  /** The window after a stale chunk. */
  lemma ShiftedData(env: Env, ss: seq<System>, acts: seq<Action>, j: nat, k: nat)
    requires IsSystemRun(env, ss, acts) && j < k <= |acts| && NoReset(ss, acts, j, k)
             && NoStaleChunkIn(ss, acts, j + 1, k)
    requires StaleChunk(ss[j], acts[j]) && WindowIsOwners(ss[j])
    ensures var d := |ss[j].window.data|;
            && d <= |OwnerWritten(ss[k])| && ss[k].window.base == ss[j].window.base
            && ss[k].window.data == ss[j].window.data + (Appended(ss[j], acts[j]) + OwnerWritten(ss[k])[d..])
  {
    assert StepAt(env, ss, acts, j);
    StepAppends(env, ss[j], acts[j], ss[j + 1]);
    StaleLeavesOwner(env, ss[j], acts[j], ss[j + 1]);
    WindowGrowsByOwner(env, ss, acts, j + 1, k);
  }

  lemma StaleLeavesOwner(env: Env, s: System, a: Action, t: System)
    requires s.window.Valid() && SystemStep(env, s, a, t) && StaleChunk(s, a) && WindowIsOwners(s)
    ensures OwnerWritten(t) == OwnerWritten(s) == s.window.data
  {
  }

  /** Exactly when a stale chunk does no lasting harm.  With d bytes of the owner in the window before it and m
      bytes written by the owner so far, the window has mirrored the file ever since if and only if the stale bytes
      followed by the owner's bytes from d to m are the file's bytes at the position the chunk landed on. */
  lemma StaleChunkLastsIff(env: Env, ss: seq<System>, acts: seq<Action>, j: nat, k: nat)
    requires IsSystemRun(env, ss, acts) && j < k <= |acts| && NoReset(ss, acts, j, k)
             && NoStaleChunkIn(ss, acts, j + 1, k)
    requires StaleChunk(ss[j], acts[j]) && WindowIsOwners(ss[j])
    ensures var body := BodyFrom(env.remote, ss[j].window.base);
            var d, m := |ss[j].window.data|, |OwnerWritten(ss[k])|;
            && d <= m <= |body|
            && (Mirrors(ss[k].window, env.remote)
                <==> IsSliceAt(env.remote, ss[j].window.High(), Appended(ss[j], acts[j]) + body[d..m]))
  {
    hide StepAt, SystemInv, OwnerInv, OwnerWritten, Appended, StaleChunk, TransfersInv, WindowIsOwners;
    InvOverSystemRun(env, ss, acts, j);
    OwnerOverRun(env, ss, acts, k);
    ShiftedData(env, ss, acts, j, k);
    OwnerWritesBody(env, ss[k]);
    StaleStartsMirrored(env, ss[j]);
    var body := BodyFrom(env.remote, ss[j].window.base);
    var d, m := |ss[j].window.data|, |OwnerWritten(ss[k])|;
    assert OwnerWritten(ss[k])[d..] == body[d..m];
    SliceExtends(env.remote, ss[j].window.base, ss[j].window.data, Appended(ss[j], acts[j]) + body[d..m]);
  }

  lemma StaleStartsMirrored(env: Env, s: System)
    requires SystemInv(env, s) && WindowIsOwners(s)
    ensures IsSliceAt(env.remote, s.window.base, s.window.data)
  {
    AgreementMirrors(env, s);
  }
}
