/**
 Whole runs over one registry: requests to any of its nodes, lookups and creations that add nodes, and
 CloseNodes, in any order.  As in Serving the dispatch stands for the FUSE library.
 */
module TreeRuns {
  import opened Base
  import opened Listing
  import opened UrlCache
  import opened Streamables
  import opened FileNodes
  import opened Tree
  import opened Serving
  import opened Shutdown

  datatype Operation =
    | OnNode(k: nat, request: Request)
    | LookupIn(k: nat, reply: RemoteReply, size: Option<nat>, factories: bool)
    | CreateIn(k: nat, created: bool, looked: RemoteReply, size: Option<nat>, logger: bool)
    | CloseAll

  // ----- the clock -----

  /** The request's clock readings do not go back before `now`. */
  predicate Timely(request: Request, now: int) {
    && (request.OpenNode? ==> now <= request.c.testedAt <= request.c.storedAt)
    && (request.ReadHandle? ==> request.size <= MAX_READ)
  }

  function After(request: Request, now: int): int {
    if request.OpenNode? then request.c.storedAt else now
  }

  /** A directory adds to this registry, and no call on an open streamable node's factory is later than `now`. */
  ghost predicate InTime(r: Registry, n: Node, now: int)
    requires n.Valid()
    reads n.Anchor(), n.Repr()
  {
    match n
    case DirectoryOf(d) => d.registry == r
    case FileOf(_) => true
    case StreamableOf(s) => s.closed || forall i | 0 <= i < |s.factory.calls| :: s.factory.calls[i].storedAt <= now
  }

  ghost predicate AllInTime(r: Registry, now: int)
    requires r.Valid()
    reads r, r.Anchors(), r.Footprint()
  {
    forall i | 0 <= i < |r.added| :: InTime(r, r.added[i], now)
  }

  lemma StaysInTime(r: Registry, n: Node, request: Request, now: int)
    requires n.Valid() && InTime(r, n, now) && Timely(request, now)
    ensures InTime(r, n, After(request, now))
  {
  }

  // ----- one request to one node -----

  method OnDirectory(d: DirectoryNode, request: Request)
    requires d.Valid()
    modifies d.Repr
    ensures d.Valid() && fresh(d.Repr - old(d.Repr)) && (old(d.closed) ==> d.closed)
    ensures request.OpenNode? ==> |d.handles| == |old(d.handles)| + if d.closed || !request.logger then 0 else 1
    ensures request.ReleaseHandle? && request.i < |d.handles| ==> d.handles[request.i].closed
    ensures request.CloseNode? ==> d.closed
  {
    match request
    case OpenNode(_, logger) =>
      var _, _ := d.Open(logger);
    case ReadHandle(_, _, _) =>
    case ReleaseHandle(i) =>
      if i < |d.handles| {
        d.handles[i].Close();
      }
    case CloseNode =>
      d.Close();
  }

  method OnFile(f: FileNode, request: Request)
    requires f.Valid()
    modifies f.Repr
    ensures f.Valid() && fresh(f.Repr - old(f.Repr)) && (old(f.closed) ==> f.closed)
    ensures request.OpenNode? ==> |f.handles| == |old(f.handles)| + if f.closed || !request.logger then 0 else 1
    ensures request.ReleaseHandle? && request.i < |f.handles| ==> f.handles[request.i].closed
    ensures request.CloseNode? ==> f.closed
  {
    match request
    case OpenNode(_, logger) =>
      var _, _ := f.Open(logger);
    case ReadHandle(_, _, _) =>
    case ReleaseHandle(i) =>
      if i < |f.handles| {
        f.handles[i].Close();
      }
    case CloseNode =>
      f.Close();
  }

  /** A request keeps its node valid, reaches no old object outside it and does not reopen it. */
  method OnOne(ghost r: Registry, n: Node, request: Request, ghost now: int)
    requires n.Valid() && InTime(r, n, now) && Timely(request, now)
    modifies n.Repr()
    ensures n.Valid() && fresh(n.Repr() - old(n.Repr())) && (old(n.IsClosed()) ==> n.IsClosed())
    ensures request.CloseNode? ==> n.IsClosed()
    ensures InTime(r, n, After(request, now))
  {
    match n
    case DirectoryOf(d) => OnDirectory(d, request);
    case FileOf(f) => OnFile(f, request);
    case StreamableOf(s) => var _ := ServeOne(s, request);
  }

  // ----- one operation on the registry -----

  /** The places of the registry's closed nodes. */
  ghost function Closed(r: Registry): set<nat>
    reads r, r.Anchors()
  {
    set i: nat | i < |r.added| && r.added[i].IsClosed()
  }

  /** Closed nodes stay closed, added nodes stay added, and what is new is newly made. */
  twostate predicate Grows(r: Registry)
    requires old(r.Valid()) && r.Valid()
    reads r, r.Anchors(), r.Footprint()
  {
    old(r.added) <= r.added && old(Closed(r)) <= Closed(r) && fresh(r.Footprint() - old(r.Footprint()))
  }

  /** If all nodes were closed and none was added, all are closed. */
  twostate lemma StillAllClosed(r: Registry)
    requires old(r.Valid()) && r.Valid() && old(AllNodesClosed(r)) && Grows(r) && r.added == old(r.added)
    ensures AllNodesClosed(r)
  {
    hide Node.Valid, Node.IsClosed, Registry.Valid;
    forall i: nat | i < |r.added| ensures r.added[i].IsClosed() {
      assert i in old(Closed(r));
    }
  }

  /** A request to the k-th node of the registry. */
  method OnAdded(r: Registry, ghost k: nat, n: Node, request: Request, ghost now: int)
    requires r.Valid() && AllInTime(r, now) && k < |r.added| && r.added[k] == n && Timely(request, now)
    modifies n.Repr()
    ensures r.Valid() && Grows(r) && r.added == old(r.added) && r.nodes == old(r.nodes)
    ensures AllInTime(r, After(request, now))
    ensures request.CloseNode? ==> n.IsClosed()
  {
    hide Node.Valid, InTime, Timely, After;
    assert InTime(r, n, now);
    OnOne(r, n, request, now);
    r.NodeOperationKeepsRegistry(k);
    forall i | 0 <= i < |r.added| ensures InTime(r, r.added[i], After(request, now)) {
      if i != k {
        assert old(InTime(r, r.added[i], now));
        StaysInTime(r, r.added[i], request, now);
      }
    }
  }

  /** Only the registry itself changed, `at.0`: it has grown, and what was in time at `at.1` stays so. */
  twostate lemma Adding(at: (Registry, int))
    requires old(at.0.Valid()) && at.0.Valid() && old(at.0.added) <= at.0.added && old(AllInTime(at.0, at.1))
    requires forall o | o in old(at.0.Footprint()) :: unchanged(o)
    requires forall i | |old(at.0.added)| <= i < |at.0.added| ::
               fresh(at.0.added[i].Repr()) && InTime(at.0, at.0.added[i], at.1)
    ensures Grows(at.0) && AllInTime(at.0, at.1)
  {
    hide Node.Valid, Node.IsClosed;
    var (r, now) := at;
    forall i | 0 <= i < |old(r.added)|
      ensures r.added[i].Repr() == old(r.added[i].Repr()) && r.added[i].IsClosed() == old(r.added[i].IsClosed())
      ensures InTime(r, r.added[i], now)
    {
      assert old(InTime(r, r.added[i], now));
      assert forall o | o in old(r.added[i].Repr()) :: o in old(r.Footprint());
      Untouched(r.added[i]);
    }
  }

  lemma DirectoryIsReady(r: Registry, k: nat, d: DirectoryNode, now: int)
    requires r.Valid() && AllInTime(r, now) && k < |r.added| && r.added[k] == DirectoryOf(d)
    ensures d.Valid() && d.registry == r && r !in d.Repr
  {
    assert InTime(r, r.added[k], now);
  }

  /** A lookup in a directory of the registry; `found` is the node it made, if any. */
  method InDirectory(r: Registry, ghost k: nat, d: DirectoryNode, reply: RemoteReply, size: Option<nat>,
                     factories: bool, ghost now: int)
    returns (found: seq<Node>)
    requires r.Valid() && AllInTime(r, now) && k < |r.added| && r.added[k] == DirectoryOf(d)
    modifies r
    ensures r.Valid() && Grows(r) && AllInTime(r, now)
    ensures r.added == old(r.added) + found
    ensures old(d.closed) ==> r.added == old(r.added)
  {
    hide Node.Valid;
    DirectoryIsReady(r, k, d, now);
    var result := d.Lookup(reply, size, factories);
    Adding((r, now));
    found := if result.NodeFound? then [result.n] else [];
  }

  method CreateInDirectory(r: Registry, ghost k: nat, d: DirectoryNode, created: bool, looked: RemoteReply,
                           size: Option<nat>, logger: bool, ghost now: int)
    returns (found: seq<Node>)
    requires r.Valid() && AllInTime(r, now) && k < |r.added| && r.added[k] == DirectoryOf(d)
    modifies r
    ensures r.Valid() && Grows(r) && AllInTime(r, now)
    ensures forall n | n in found :: n in r.added
    ensures old(d.closed) ==> r.added == old(r.added)
  {
    hide Node.Valid;
    DirectoryIsReady(r, k, d, now);
    var node, _, _ := d.Create(created, looked, size, logger);
    assert forall i | |old(r.added)| <= i < |r.added| :: r.added[i] in r.added[|old(r.added)|..];
    Adding((r, now));
    found := if node.Some? then [node.value] else [];
  }

  method CloseNodesOf(r: Registry, ghost now: int)
    requires r.Valid() && AllInTime(r, now)
    modifies r, r.Footprint()
    ensures r.Valid() && Grows(r) && AllInTime(r, now) && r.added == old(r.added) && AllNodesClosed(r)
  {
    r.CloseNodes();
    forall i | 0 <= i < |r.added| ensures InTime(r, r.added[i], now) {
      assert old(InTime(r, r.added[i], now));
      assert r.added[i].IsClosed();
    }
  }

  /** One operation; `known` are the nodes the library has been given, `found` the one it gets now. */
  method Operate(r: Registry, known: seq<Node>, op: Operation, ghost now: int) returns (found: seq<Node>)
    requires r.Valid() && AllInTime(r, now) && (forall n | n in known :: n in r.added)
    requires op.OnNode? ==> Timely(op.request, now)
    modifies r, r.Footprint()
    ensures r.Valid() && Grows(r) && AllInTime(r, Later(op, now))
    ensures forall n | n in found :: n in r.added
    ensures op.CloseAll? ==> AllNodesClosed(r)
    ensures op.OnNode? && op.request.CloseNode? && op.k < |known| ==> known[op.k].IsClosed()
    ensures old(AllNodesClosed(r)) ==> r.added == old(r.added) && AllNodesClosed(r)
  {
    found := [];
    if op.CloseAll? {
      CloseNodesOf(r, now);
      return;
    }
    if op.k < |known| {
      found := OperateOn(r, known[op.k], op, now);
    }
  }

  /** An operation on one node. */
  method OperateOn(r: Registry, n: Node, op: Operation, ghost now: int) returns (found: seq<Node>)
    requires r.Valid() && AllInTime(r, now) && n in r.added && !op.CloseAll?
    requires op.OnNode? ==> Timely(op.request, now)
    modifies r, r.Footprint()
    ensures r.Valid() && Grows(r) && AllInTime(r, Later(op, now))
    ensures forall n | n in found :: n in r.added
    ensures op.OnNode? && op.request.CloseNode? ==> n.IsClosed()
    ensures old(AllNodesClosed(r)) ==> r.added == old(r.added) && AllNodesClosed(r)
  {
    hide Node.Valid, Registry.Valid, AllInTime, InTime, Closed, Timely, After;
    found := [];
    ghost var k :| 0 <= k < |r.added| && r.added[k] == n;
    assert AllNodesClosed(r) ==> r.added[k].IsClosed();
    match op {
      case OnNode(_, request) =>
        OnAdded(r, k, n, request, now);
      case LookupIn(_, reply, size, factories) =>
        if n.DirectoryOf? {
          found := InDirectory(r, k, n.d, reply, size, factories, now);
        }
      case CreateIn(_, created, looked, size, logger) =>
        if n.DirectoryOf? {
          found := CreateInDirectory(r, k, n.d, created, looked, size, logger, now);
        }
    }
    if old(AllNodesClosed(r)) {
      StillAllClosed(r);
    }
  }

  function Later(op: Operation, now: int): int {
    if op.OnNode? then After(op.request, now) else now
  }

  // ----- runs -----

  predicate AllTimely(ops: seq<Operation>, now: int) {
    ops != [] ==> (ops[0].OnNode? ==> Timely(ops[0].request, now)) && AllTimely(ops[1..], Later(ops[0], now))
  }

  lemma ClosedIsShutDown(r: Registry)
    requires r.Valid() && AllNodesClosed(r)
    ensures forall i | 0 <= i < |r.added| :: r.added[i].IsClosed() && ShutDown(r.added[i])
  {
    AllShutDown(r);
  }

  /** The i-th operation of a run. */
  method Next(r: Registry, known: seq<Node>, ops: seq<Operation>, i: nat, ghost now: int)
    returns (all: seq<Node>, ghost later: int)
    requires r.Valid() && AllInTime(r, now) && i < |ops| && AllTimely(ops[i..], now)
             && (forall n | n in known :: n in r.added)
    modifies r, r.Footprint()
    ensures r.Valid() && Grows(r) && AllInTime(r, later) && AllTimely(ops[i + 1..], later)
    ensures known <= all && forall n | n in all :: n in r.added
    ensures ops[i].CloseAll? ==> AllNodesClosed(r)
    ensures old(AllNodesClosed(r)) ==> r.added == old(r.added) && AllNodesClosed(r)
  {
    hide Node.Valid, Node.IsClosed, Registry.Valid, AllInTime, Timely, After, Closed, AllNodesClosed;
    assert ops[i..][0] == ops[i] && ops[i..][1..] == ops[i + 1..];
    var found := Operate(r, known, ops[i], now);
    all, later := known + found, Later(ops[i], now);
  }

  /** Any run keeps the registry, and so every node in it, valid, and closed nodes stay closed.  A run in which
      CloseNodes was called leaves every node ever added shut down, whatever requests followed it; once all nodes
      are closed no run adds another. */
  method Run(r: Registry, known: seq<Node>, ops: seq<Operation>, ghost start: int)
    returns (all: seq<Node>, ghost end: int)
    requires r.Valid() && AllInTime(r, start) && (forall n | n in known :: n in r.added) && AllTimely(ops, start)
    modifies r, r.Footprint()
    ensures r.Valid() && Grows(r) && AllInTime(r, end)
    ensures known <= all && forall n | n in all :: n in r.added
    ensures CloseAll in ops ==> forall i | 0 <= i < |r.added| :: r.added[i].IsClosed() && ShutDown(r.added[i])
    ensures old(AllNodesClosed(r)) ==> r.added == old(r.added) && AllNodesClosed(r)
  {
    hide Node.Valid, Node.IsClosed, Registry.Valid, AllInTime, AllTimely, ShutDown, Closed, AllNodesClosed;
    all, end := known, start;
    for i := 0 to |ops|
      invariant r.Valid() && Grows(r) && AllInTime(r, end) && AllTimely(ops[i..], end)
      invariant known <= all && forall n | n in all :: n in r.added
      invariant old(AllNodesClosed(r)) ==> r.added == old(r.added) && AllNodesClosed(r)
      invariant CloseAll in ops[..i] ==> AllNodesClosed(r)
    {
      all, end := Next(r, all, ops, i, end);
      assert ops[..i + 1] == ops[..i] + [ops[i]];
    }
    assert ops[..|ops|] == ops;
    if CloseAll in ops {
      ClosedIsShutDown(r);
    }
  }
}
