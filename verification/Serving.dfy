/**
 Whole runs over one streamable node: the FUSE library calls the node and its handles in any order.  The
 dispatch stands for that library; what it shows is that every such run keeps the node valid.
 */
module Serving {
  import opened Base
  import opened UrlCache
  import opened Streams
  import opened Streamables

  /** Every open stream the node's service created is held by exactly one handle, which is open and listed. */
  lemma OpenStreamsAreOwnedOnce(node: StreamableNode, i: nat)
    requires node.Valid() && i < |node.streams| && !node.streams[i].closed
    ensures i < |node.handles| && node.handles[i] != null
    ensures !node.handles[i].closed && node.handles[i].stream == node.streams[i]
    ensures forall j | 0 <= j < |node.handles| ::
              node.handles[j] != null && (node.handles[j].stream == node.streams[i] ==> j == i)
  {
    assert node.HandleValid(i);
    node.OthersApart(i);
    forall j | 0 <= j < |node.handles| && node.handles[j].stream == node.streams[i] ensures j == i {
      assert node.HandleValid(j);
    }
  }

  /** A closed node has only closed handles and closed streams, and nothing nil in its list. */
  lemma ClosedNodeHasNothingOpen(node: StreamableNode, i: nat)
    requires node.Valid() && node.closed && i < |node.handles|
    ensures node.handles[i] != null && node.handles[i].closed && node.streams[i].closed
    ensures !node.streams[i].ring.refused ==>
              node.streams[i].transfer == null && forall c | c in node.streams[i].connections :: c.closed
  {
    assert node.HandleValid(i);
    assert node.streams[i].Valid();
  }

  /** Every URL the node's factory ever handed out was served for this very node. */
  lemma UrlsAreTheNodesOwn(node: StreamableNode, k: nat)
    requires node.Valid() && k < |node.factory.calls| && Returned(node.factory.calls, k).Some?
    ensures ServedFor(node.factory.calls, node.identifier, Returned(node.factory.calls, k))
  {
    OneNodeGetsItsOwnUrl(node.factory.calls, k);
  }

  /** What one call leaves alone. */
  twostate predicate SameLists(node: StreamableNode)
    reads node
  {
    && node.handles == old(node.handles) && node.streams == old(node.streams)
    && node.factory == old(node.factory) && node.closed == old(node.closed)
  }

  method ServeRead(node: StreamableNode, i: nat, offset: int, size: nat) returns (reply: Reply)
    requires node.Valid() && i < |node.handles| && size <= MAX_READ
    modifies node.Repr
    ensures node.Valid() && fresh(node.Repr - old(node.Repr))
    ensures SameLists(node) && node.factory.calls == old(node.factory.calls)
    ensures forall j | 0 <= j < |node.handles| && old(node.handles[j].Dead()) :: node.handles[j].Dead()
    ensures old(node.handles[i].Dead()) <==> reply == Enoent
    ensures !old(node.handles[i].Dead()) ==>
              reply == node.handles[i].ReplyTo(node.streams[i], offset, size)
              && |node.streams[i].served| == |old(node.streams[i].served)| + 1
    ensures reply.Data? ==> |reply.bytes| <= size && IsSliceAt(node.streams[i].remote, offset, reply.bytes)
    ensures reply == Failed ==> node.handles[i].Dead() && node.streams[i].closed
  {
    hide Stream.Valid;
    assert node.HandleValid(i);
    node.OthersApart(i);
    reply := node.handles[i].Read(offset, size);
    forall j: nat | j < |node.handles| ensures node.HandleValid(j) {
      assert old(node.HandleValid(j));
    }
    forall j: nat, k: nat | j < k < |node.handles| ensures node.Apart(j, k) {
      assert old(node.Apart(j, k));
    }
  }

  method ServeRelease(node: StreamableNode, i: nat)
    requires node.Valid() && i < |node.handles|
    modifies node.Repr
    ensures node.Valid() && node.Repr == old(node.Repr)
    ensures SameLists(node) && node.factory.calls == old(node.factory.calls)
    ensures forall j | 0 <= j < |node.handles| && old(node.handles[j].Dead()) :: node.handles[j].Dead()
    ensures node.handles[i].closed && node.streams[i].closed
  {
    assert node.HandleValid(i);
    node.CloseHandle(i, node.handles[i]);
  }

  method ServeOpen(node: StreamableNode, c: Call, logger: bool)
    requires node.Valid() && (node.closed || node.factory.InTime(c))
    modifies node.Repr
    ensures node.Valid() && fresh(node.Repr - old(node.Repr))
    ensures node.factory == old(node.factory) && node.closed == old(node.closed)
    ensures if node.closed then node.factory.calls == old(node.factory.calls) else node.NewCall(c, logger)
    ensures old(node.handles) <= node.handles && old(node.streams) <= node.streams
    ensures |node.handles| == |old(node.handles)| + if node.closed || node.NoHandle(logger) then 0 else 1
    ensures forall j | 0 <= j < |old(node.handles)| && old(node.handles[j].Dead()) :: node.handles[j].Dead()
  {
    hide Stream.Valid, StreamableNode.ServiceValid, StreamableNode.HandlesValid;
    var _, _ := node.Open(c, logger);
  }

  datatype Request =
    | OpenNode(c: Call, logger: bool)
    | ReadHandle(i: nat, offset: int, size: nat)
    | ReleaseHandle(i: nat)
    | CloseNode

  /** The clock of the calls does not run backwards, and reads are no longer than the pool's buffers. */
  ghost predicate WellFormed(requests: seq<Request>) {
    && (forall j, k | 0 <= j < k < |requests| && requests[j].OpenNode? && requests[k].OpenNode? ::
          requests[j].c.storedAt <= requests[k].c.testedAt)
    && (forall k | 0 <= k < |requests| && requests[k].ReadHandle? :: requests[k].size <= MAX_READ)
  }

  /** The requests from the n-th on come after these calls. */
  ghost predicate InTimeFrom(calls: seq<Call>, requests: seq<Request>, n: nat) {
    forall k | n <= k < |requests| && requests[k].OpenNode? :: ComesAfter(calls, requests[k].c)
  }

  lemma StillInTime(calls: seq<Call>, more: seq<Call>, requests: seq<Request>, n: nat, id: nat)
    requires WellFormed(requests) && n < |requests| && InTimeFrom(calls, requests, n)
    requires more == calls || (requests[n].OpenNode? && more == calls + [requests[n].c.(id := id)])
    ensures InTimeFrom(more, requests, n + 1)
  {
  }

  /** Handles that can never return data again. */
  ghost function DeadHandles(node: StreamableNode): set<nat>
    requires node.Valid()
    reads node, node.Repr
  {
    set j: nat | j < |node.handles| && node.handles[j].Dead()
  }

  /** Reads whose handle was dead at the start answer ENOENT, and so does every read after a failed one. */
  ghost predicate Absorbing(dead: set<nat>, requests: seq<Request>, replies: seq<Reply>) {
    && |replies| <= |requests|
    && (forall k | 0 <= k < |replies| && requests[k].ReadHandle? && requests[k].i in dead :: replies[k] == Enoent)
    && (forall j, k | 0 <= j < k < |replies| && requests[j].ReadHandle? && requests[k].ReadHandle? ::
          requests[j].i == requests[k].i && replies[j] == Failed ==> replies[k] == Enoent)
  }

  /** The handles whose reads have failed so far. */
  function FailedHandles(requests: seq<Request>, replies: seq<Reply>): set<nat>
    requires |replies| <= |requests|
  {
    set k | 0 <= k < |replies| && requests[k].ReadHandle? && replies[k] == Failed :: requests[k].i
  }

  lemma AbsorbingExtends(dead: set<nat>, requests: seq<Request>, replies: seq<Reply>, reply: Reply)
    requires Absorbing(dead, requests, replies) && |replies| < |requests|
    requires var r := requests[|replies|];
             r.ReadHandle? && (r.i in dead || r.i in FailedHandles(requests, replies)) ==> reply == Enoent
    ensures Absorbing(dead, requests, replies + [reply])
    ensures FailedHandles(requests, replies + [reply]) <=
              FailedHandles(requests, replies)
              + if requests[|replies|].ReadHandle? && reply == Failed then {requests[|replies|].i} else {}
  {
    var all := replies + [reply];
    var n := |replies|;
    forall j, k | 0 <= j < k < |all| && requests[j].ReadHandle? && requests[k].ReadHandle?
                  && requests[j].i == requests[k].i && all[j] == Failed
      ensures all[k] == Enoent
    {
      assert replies[j] == Failed;
      if k == n {
        assert requests[j].i in FailedHandles(requests, replies);
      } else {
        assert replies[k] == Enoent;
      }
    }
  }

  /** Every reply with data holds the bytes, at the offset asked for, of the file behind the handle. */
  ghost predicate RepliesAgree(streams: seq<Stream>, requests: seq<Request>, replies: seq<Reply>) {
    && |replies| <= |requests|
    && forall k | 0 <= k < |replies| && requests[k].ReadHandle? && replies[k].Data? ::
         requests[k].i < |streams| && IsSliceAt(streams[requests[k].i].remote, requests[k].offset, replies[k].bytes)
  }

  lemma AgreementExtends(streams: seq<Stream>, more: seq<Stream>, requests: seq<Request>, replies: seq<Reply>,
                          reply: Reply)
    requires RepliesAgree(streams, requests, replies) && streams <= more && |replies| < |requests|
    requires var r := requests[|replies|];
             r.ReadHandle? && reply.Data? ==> r.i < |more| && IsSliceAt(more[r.i].remote, r.offset, reply.bytes)
    ensures RepliesAgree(more, requests, replies + [reply])
  {
  }

  /** Any run keeps the node valid, and read failure is absorbing: a handle that was dead at the start, or
      whose read once failed, answers every later read with ENOENT. */
  method Serve(node: StreamableNode, requests: seq<Request>) returns (replies: seq<Reply>)
    requires node.Valid() && WellFormed(requests) && InTimeFrom(node.factory.calls, requests, 0)
    modifies node.Repr
    ensures node.Valid() && fresh(node.Repr - old(node.Repr))
    ensures |replies| == |requests| && old(node.handles) <= node.handles
    ensures Absorbing(old(DeadHandles(node)), requests, replies)
    ensures RepliesAgree(node.streams, requests, replies)
  {
    ghost var dead := DeadHandles(node);
    replies := [];
    for n := 0 to |requests|
      invariant node.Valid() && fresh(node.Repr - old(node.Repr)) && old(node.handles) <= node.handles
      invariant |replies| == n && node.factory == old(node.factory) && InTimeFrom(node.factory.calls, requests, n)
      invariant Absorbing(dead, requests, replies) && RepliesAgree(node.streams, requests, replies)
      invariant dead + FailedHandles(requests, replies) <= DeadHandles(node)
    {
      ghost var streams := node.streams;
      var reply := ServeNext(node, requests, n);
      AbsorbingExtends(dead, requests, replies, reply);
      AgreementExtends(streams, node.streams, requests, replies, reply);
      replies := replies + [reply];
    }
  }

  /** The n-th request of a run. */
  method ServeNext(node: StreamableNode, requests: seq<Request>, n: nat) returns (reply: Reply)
    requires node.Valid() && WellFormed(requests) && n < |requests| && InTimeFrom(node.factory.calls, requests, n)
    modifies node.Repr
    ensures node.Valid() && fresh(node.Repr - old(node.Repr)) && old(node.handles) <= node.handles
    ensures node.factory == old(node.factory) && InTimeFrom(node.factory.calls, requests, n + 1)
    ensures old(node.streams) <= node.streams
    ensures requests[n].ReadHandle? && reply.Data? ==>
              requests[n].i < |node.streams|
              && IsSliceAt(node.streams[requests[n].i].remote, requests[n].offset, reply.bytes)
    ensures old(DeadHandles(node)) <= DeadHandles(node)
    ensures requests[n].ReadHandle? && requests[n].i in old(DeadHandles(node)) ==> reply == Enoent
    ensures requests[n].ReadHandle? && reply == Failed ==> requests[n].i in DeadHandles(node)
  {
    ghost var calls := node.factory.calls;
    reply := ServeOne(node, requests[n]);
    StillInTime(calls, node.factory.calls, requests, n, node.identifier);
  }

  /** A request does what it asks for, where the node and the handle allow it. */
  twostate predicate TakesEffect(node: StreamableNode, request: Request, reply: Reply)
    requires node.Valid() && old(node.Valid())
    reads node, node.Repr
  {
    match request
    case OpenNode(_, logger) =>
      |node.handles| == |old(node.handles)| + if node.closed || node.NoHandle(logger) then 0 else 1
    case ReadHandle(i, _, _) =>
      i < |old(node.handles)| && i !in old(DeadHandles(node)) ==> reply != Enoent
    case ReleaseHandle(i) =>
      i < |node.handles| ==> node.handles[i].closed
    case CloseNode =>
      node.closed
  }

  method ServeOne(node: StreamableNode, request: Request) returns (reply: Reply)
    requires node.Valid() && (request.OpenNode? ==> node.closed || node.factory.InTime(request.c))
    requires request.ReadHandle? ==> request.size <= MAX_READ
    modifies node.Repr
    ensures node.Valid() && fresh(node.Repr - old(node.Repr)) && old(node.handles) <= node.handles
    ensures node.factory == old(node.factory) && (old(node.closed) ==> node.closed)
    ensures node.factory.calls == old(node.factory.calls)
            || (request.OpenNode?
                && node.factory.calls == old(node.factory.calls) + [request.c.(id := node.identifier)])
    ensures old(node.streams) <= node.streams
    ensures request.ReadHandle? && reply.Data? ==>
              request.i < |node.streams| && IsSliceAt(node.streams[request.i].remote, request.offset, reply.bytes)
    ensures old(DeadHandles(node)) <= DeadHandles(node)
    ensures request.ReadHandle? && request.i in old(DeadHandles(node)) ==> reply == Enoent
    ensures request.ReadHandle? && reply == Failed ==> request.i in DeadHandles(node)
    ensures TakesEffect(node, request, reply)
  {
    hide Stream.Valid, StreamableNode.ServiceValid, StreamableNode.HandlesValid;
    reply := Enoent;
    match request
    case OpenNode(c, logger) =>
      ServeOpen(node, c, logger);
    case ReadHandle(i, offset, size) =>
      if i < |node.handles| {
        reply := ServeRead(node, i, offset, size);
      }
    case ReleaseHandle(i) =>
      if i < |node.handles| {
        ServeRelease(node, i);
      }
    case CloseNode =>
      node.Close();
  }
}
