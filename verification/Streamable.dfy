/**
 Streamable nodes, their handle service and their handles (filesystem/streamable under the FUSE server).
 Each call is taken as one action.
 */
module Streamables {
  import opened Base
  import opened RingBuffers
  import opened UrlCache
  import opened Streams
  import opened Factories

  const MAX_READ: nat := 64 * 1024 * 1024  // the length of the pool's buffers

  /** What a FUSE read request gets: data, or an error. */
  datatype Reply = Data(bytes: seq<byte>) | Enoent | Failed

  class Handle {
    const node: StreamableNode
    var stream: Stream?
    var closed: bool

    constructor (node: StreamableNode, stream: Stream)
      ensures this.node == node && this.stream == stream && !closed
    {
      this.node, this.stream, closed := node, stream, false;
    }

    /** No read on this handle can return data any more. */
    predicate Dead() reads this { closed || stream == null }

    /** What a call on an open handle finds in place. */
    ghost predicate Ready()
      reads this, stream, if stream == null then {} else stream.Repr
    {
      stream != null ==> stream.Valid() && this !in stream.Repr && node !in stream.Repr
    }

    /** What the stream's last read calls for, if it was this one. */
    ghost function ReplyTo(s: Stream, offset: int, size: nat): Reply
      reads s
    {
      if s.served == [] then Enoent
      else
        var r := s.served[|s.served| - 1];
        if r.seek != offset || r.length != size then Enoent
        else if r.outcome == Failure then Failed
        else Data(r.bytes)
    }

    /** Read.  Data are what the stream read,
        the file's bytes at the offset; any error but the end of the file closes the stream and
        drops it, for good; a dead handle only ever answers ENOENT. */
    method Read(offset: int, size: nat) returns (reply: Reply)
      requires size <= MAX_READ && Ready()
      modifies this`stream, this`closed, node`Repr, if stream == null || closed then {} else stream.Repr
      ensures old(Dead()) ==> reply == Enoent && closed && stream == old(stream)
      ensures !old(Dead()) ==>
                && closed == old(closed) && old(stream).Valid() && fresh(old(stream).Repr - old(stream.Repr))
                && old(stream).remote == old(stream.remote) && node.Repr == old(node.Repr) + old(stream).Repr
      ensures old(Dead()) ==> node.Repr == old(node.Repr)
      ensures !old(Dead()) ==> reply == if old(stream.closed) then Failed else ReplyTo(old(stream), offset, size)
      ensures !old(Dead()) && !old(stream.closed) ==>
                |old(stream).served| == |old(stream.served)| + 1 && old(stream.served) <= old(stream).served
      ensures reply.Data? ==>
                !Dead() && stream == old(stream) && |reply.bytes| <= size
                && IsSliceAt(stream.remote, offset, reply.bytes)
                && stream.closed == old(stream.closed)
      ensures reply.Data? ==> stream.served != [] && reply.bytes == stream.served[|stream.served| - 1].bytes
      ensures reply == Data([]) ==>
                size == 0 || (stream.ring.window.ended && offset >= stream.ring.window.High())
      ensures !old(Dead()) && !reply.Data? ==> reply == Failed && stream == null && old(stream).closed
    {
      hide Stream.Valid;
      if closed {
        return Enoent;
      }
      if stream == null {
        var _ := Close();
        return Enoent;
      }
      var buffer := new byte[size];
      var s := stream;
      var n, outcome := s.ReadAt(buffer, offset);
      node.Repr := node.Repr + s.Repr;
      if outcome != Failure {
        return Data(buffer[..n]);
      }
      DropStream(s);
      reply := Failed;
    }

    /** handle.stream.Close(); handle.stream = nil */
    method DropStream(s: Stream)
      requires stream == s && s.Valid() && this !in s.Repr && node !in s.Repr
      modifies this`stream, s.Repr
      ensures stream == null && s.closed && s.Valid() && s.Repr == old(s.Repr) && s.served == old(s.served)
    {
      var _ := s.Close();
      stream := null;
    }

    /** Close and Release: both close the stream the handle still holds. */
    method Close() returns (ok: bool)
      requires Ready()
      modifies this`closed, if stream == null || closed then {} else stream.Repr
      ensures ok && closed && stream == old(stream)
      ensures stream != null ==> stream.Valid() && stream.Repr == old(stream.Repr)
      ensures stream != null && !old(closed) ==> stream.closed
    {
      ok := true;
      if closed {
        return;
      }
      closed := true;
      if stream != null {
        var _ := stream.Close();
      }
    }
  }

  class HandleService {
    const node: StreamableNode
    var streamFactory: Factory?
    var closed: bool

    constructor (node: StreamableNode, factory: Factory)
      ensures this.node == node && streamFactory == factory && !closed
    {
      this.node, streamFactory, closed := node, factory, false;
    }

    /** New.  A closed service answers (nil, nil); without a logger or a URL it answers an error. */
    method New(c: Call, logger: bool) returns (handle: Handle?, failed: bool)
      requires !closed ==>
                 streamFactory != null && streamFactory.Valid() && !streamFactory.closed
                 && streamFactory.InTime(c.(id := node.identifier))
      modifies if closed then {} else {streamFactory}
      ensures closed ==> handle == null && !failed
      ensures !closed ==>
                && streamFactory.Valid() && streamFactory.closed == old(streamFactory.closed)
                && (handle == null <==> failed)
                && streamFactory.calls == old(streamFactory.calls) + (if logger then [c.(id := node.identifier)]
                    else [])
                && (failed <==> !logger || Returned(streamFactory.calls, |streamFactory.calls| - 1).None?)
      ensures handle != null ==>
                && fresh(handle) && handle.node == node && !handle.closed && handle.stream != null
                && fresh(handle.stream) && fresh(handle.stream.Repr) && handle.stream.Valid() && !handle.stream.closed
                && handle !in handle.stream.Repr && handle.stream.size == node.size
                && Returned(streamFactory.calls, |streamFactory.calls| - 1) == Some(handle.stream.url)
                && handle.stream.remote == streamFactory.web.FileAt(handle.stream.url)
    {
      if closed {
        return null, false;
      }
      if !logger {
        return null, true;
      }
      var stream := streamFactory.NewStream(c.(id := node.identifier), node.size);
      if stream == null {
        return null, true;
      }
      handle := new Handle(node, stream);
      failed := false;
    }

    method Close()
      requires !closed ==> streamFactory != null
      modifies this`closed, this`streamFactory, if streamFactory == null then {} else {streamFactory}
      ensures closed && (!old(closed) ==> streamFactory == null)
      ensures old(streamFactory) != null ==> old(streamFactory).calls == old(streamFactory.calls)
                                             && old(streamFactory).cachedItem == old(streamFactory.cachedItem)
      ensures !old(closed) ==> old(streamFactory).closed
      ensures old(closed) ==> streamFactory == old(streamFactory)
    {
      if closed {
        return;
      }
      closed := true;
      streamFactory.Close();
      streamFactory := null;
    }
  }

  class StreamableNode {
    const identifier: nat
    const size: nat
    var handleService: HandleService?
    var handles: seq<Handle?>
    var closed: bool

    ghost var factory: Factory          // the service's factory, also once it is nilled
    ghost var streams: seq<Stream>      // streams[i] was created with handles[i]
    ghost var Own: set<object>          // the node's objects other than its streams'
    ghost var Repr: set<object>

    ghost predicate Valid()
      reads this, Repr
      ensures Valid() ==> this in Repr
    {
      && Owned() && ServiceValid() && HandlesValid()
      && (closed ==> forall i | 0 <= i < |handles| :: handles[i].closed)
    }

    /** What the node's Repr holds; in particular no listed handle is nil. */
    ghost predicate Owned()
      reads this, Repr
    {
      && this in Own && handleService != null && handleService in Own && factory in Own && Own <= Repr
      && |streams| == |handles|
      && (forall i | 0 <= i < |handles| ::
            && handles[i] != null && handles[i] in Own
            && streams[i] in Repr && streams[i].Repr <= Repr)
    }

    /** The service is open exactly as long as the node is, and then it has its factory. */
    ghost predicate ServiceValid()
      requires Owned()
      reads this, Repr
    {
      && handleService.node == this
      && handleService.closed == closed
      && handleService.streamFactory == (if closed then null else factory)
      && factory.Valid() && (closed <==> factory.closed)
      && forall k | 0 <= k < |factory.calls| :: factory.calls[k].id == identifier
    }

    ghost predicate HandlesValid()
      requires Owned()
      reads this, Repr
    {
      && (forall i: nat | i < |handles| :: HandleValid(i))
      && (forall i: nat, j: nat | i < j < |handles| :: Apart(i, j))
    }

    ghost predicate Apart(i: nat, j: nat)
      requires Owned() && i < |handles| && j < |handles|
      reads this, Repr
    {
      handles[i] != handles[j] && streams[i].Repr !! streams[j].Repr
    }

    /** A listed handle holds its own stream or none, and gives it up only closed. */
    ghost predicate HandleValid(i: nat)
      requires Owned() && i < |handles|
      reads this, Repr
    {
      var h, s := handles[i], streams[i];
      && h.node == this
      && (h.stream == null || h.stream == s)
      && s.Valid()
      && Own !! s.Repr
      && (h.Dead() <==> s.closed)
    }

    constructor (web: Web, identifier: nat, size: nat)
      ensures Valid() && fresh(Repr) && !closed && handles == [] && factory.calls == [] && factory.web == web
      ensures this.identifier == identifier && this.size == size
    {
      this.identifier, this.size := identifier, size;
      closed, handles, streams, handleService := false, [], [], null;
      var f := new Factory(web);
      factory := f;
      new;
      handleService := new HandleService(this, f);
      Own := {this, handleService, factory};
      Repr := Own;
    }

    /** Open: a closed node answers ENOENT; otherwise the service's handle is appended.  With the node valid it
        is never the (nil, nil) of a closed service. */
    method Open(c: Call, logger: bool) returns (handle: Handle?, failed: bool)
      requires Valid() && (closed || factory.InTime(c))
      modifies this`handles, this`streams, this`Own, this`Repr, factory
      ensures Valid() && closed == old(closed) && factory == old(factory)
      ensures failed ==> Repr == old(Repr)
      ensures !failed ==> fresh(handle) && handle.stream != null && fresh(handle.stream.Repr)
      ensures !failed ==> Repr == old(Repr) + {handle} + handle.stream.Repr
      ensures if closed then factory.calls == old(factory.calls) else NewCall(c, logger)
      ensures handle == null <==> failed
      ensures failed <==> closed || NoHandle(logger)
      ensures failed ==> handles == old(handles) && streams == old(streams)
      ensures !failed ==> !handle.Dead() && !handle.stream.closed
      ensures !failed ==> handles == old(handles) + [handle] && streams == old(streams) + [handle.stream]
      ensures !failed ==> Answered(handle)
    {
      hide Owned, ServiceValid, HandlesValid;
      if closed {
        return null, true;
      }
      handle, failed := NewHandle(c, logger);
      if failed {
        return;
      }
      assert handle !in Repr && handle.stream.Repr !! Repr;
      Append(handle, handle.stream);
    }

    /** handleService.New() on an open node. */
    method NewHandle(c: Call, logger: bool) returns (handle: Handle?, failed: bool)
      requires Valid() && !closed && factory.InTime(c)
      modifies factory
      ensures Valid() && NewCall(c, logger)
      ensures (handle == null <==> failed) && (failed <==> NoHandle(logger))
      ensures !failed ==> handle !in Repr && handle.stream != null && handle.stream.Repr !! Repr && Answered(handle)
    {
      hide Owned, ServiceValid, HandlesValid;
      handle, failed := AskService(c, logger);
      HandlesOutliveFactoryCalls();
    }

    method AskService(c: Call, logger: bool) returns (handle: Handle?, failed: bool)
      requires Owned() && ServiceValid() && !closed && factory.InTime(c)
      modifies factory
      ensures Owned() && ServiceValid() && NewCall(c, logger)
      ensures (handle == null <==> failed) && (failed <==> NoHandle(logger))
      ensures !failed ==> handle !in Repr && handle.stream != null && handle.stream.Repr !! Repr && Answered(handle)
    {
      handle, failed := handleService.New(c, logger);
    }

    /** The factory has been asked for this node, if there was a logger. */
    twostate predicate NewCall(c: Call, logger: bool)
      reads this, factory
    {
      factory.calls == old(factory.calls) + if logger then [c.(id := identifier)] else []
    }

    /** Without a logger or a URL there is no handle. */
    ghost predicate NoHandle(logger: bool)
      reads this, factory
    {
      !logger || factory.calls == [] || Returned(factory.calls, |factory.calls| - 1).None?
    }

    /** A new open handle with a new open stream, of the URL the factory returned last. */
    twostate predicate Answered(new handle: Handle)
      requires handle.stream != null
      reads this, factory, handle, handle.stream, handle.stream.Repr
    {
      && fresh(handle) && handle.node == this && !handle.closed
      && fresh(handle.stream.Repr) && handle !in handle.stream.Repr
      && handle.stream.Valid() && !handle.stream.closed
      && factory.calls != [] && Returned(factory.calls, |factory.calls| - 1) == Some(handle.stream.url)
      && handle.stream.size == size && handle.stream.remote == factory.web.FileAt(handle.stream.url)
    }

    twostate lemma HandlesOutliveFactoryCalls()
      requires old(Owned() && HandlesValid())
      requires forall o | o in old(Repr) && o != factory :: unchanged(o)
      ensures Owned() && HandlesValid()
    {
      forall j: nat | j < |handles| ensures HandleValid(j) {
        assert old(HandleValid(j));
      }
      forall j: nat, k: nat | j < k < |handles| ensures Apart(j, k) {
        assert old(Apart(j, k));
      }
    }

    /** No other stream of the node shares an object with stream `i`. */
    lemma OthersApart(i: nat)
      requires Owned() && HandlesValid() && i < |handles|
      ensures forall j | 0 <= j < |handles| ::
                && streams[j] in streams[j].Repr
                && (j != i ==> handles[j] != handles[i] && streams[j].Repr !! streams[i].Repr)
    {
      forall j: nat | j < |handles|
        ensures streams[j] in streams[j].Repr
        ensures j != i ==> handles[j] != handles[i] && streams[j].Repr !! streams[i].Repr
      {
        assert HandleValid(j);
        if j < i {
          assert Apart(j, i);
        } else if i < j {
          assert Apart(i, j);
        }
      }
    }

    /** node.handles = append(node.handles, handle) */
    method Append(handle: Handle, s: Stream)
      requires Valid() && !closed
      requires handle.node == this && handle.stream == s && !handle.closed && s.Valid() && !s.closed
      requires handle !in Repr && handle !in s.Repr && s.Repr !! Repr
      modifies this`handles, this`streams, this`Own, this`Repr
      ensures Valid() && Repr == old(Repr) + {handle} + s.Repr
      ensures handles == old(handles) + [handle] && streams == old(streams) + [s]
    {
      hide Stream.Valid;
      handles := handles + [handle];
      streams := streams + [s];
      Own := Own + {handle};
      Repr := Repr + {handle} + s.Repr;
      var n := |old(handles)|;
      forall j | 0 <= j < |handles| ensures HandleValid(j) {
        if j < n {
          assert old(HandleValid(j));
        }
      }
      forall i: nat, j: nat | i < j < |handles| ensures Apart(i, j) {
        assert i < n && old(HandleValid(i));
        assert j < n ==> old(Apart(i, j));
      }
    }

    /** One handle of the list is closed, by the node or by a release. */
    method CloseHandle(i: nat, h: Handle)
      requires Owned() && HandlesValid() && i < |handles| && handles[i] == h && HandleValid(i)
      modifies h`closed, streams[i].Repr
      ensures unchanged(this, handleService, factory)
      ensures Owned() && HandlesValid() && h.closed && streams[i].closed
      ensures forall j | 0 <= j < |handles| && j != i ::
                handles[j].closed == old(handles[j].closed) && streams[j].closed == old(streams[j].closed)
      ensures forall j | 0 <= j < |handles| :: handles[j].stream == old(handles[j].stream)
    {
      OthersApart(i);
      var _ := h.Close();
      assert forall j | 0 <= j < |handles| :: streams[j].Repr == old(streams[j].Repr);
      forall j: nat | j < |handles| ensures HandleValid(j) {
        assert old(HandleValid(j));
      }
      forall j: nat, k: nat | j < k < |handles| ensures Apart(j, k) {
        assert old(Apart(j, k));
      }
    }

    /** Close: the service, then every handle in the list. */
    method Close()
      requires Valid()
      modifies Repr
      ensures Valid() && Repr == old(Repr) && closed
      ensures handles == old(handles) && streams == old(streams)
      ensures factory == old(factory) && factory.calls == old(factory.calls)
    {
      if closed {
        return;
      }
      closed := true;
      handleService.Close();
      forall j: nat | j < |handles| ensures HandleValid(j) {
        assert old(HandleValid(j));
      }
      forall j: nat, k: nat | j < k < |handles| ensures Apart(j, k) {
        assert old(Apart(j, k));
      }
      for i := 0 to |handles|
        invariant Repr == old(Repr) && Own == old(Own) && handles == old(handles) && streams == old(streams) && closed
        invariant handleService == old(handleService) && factory == old(factory) && factory.calls == old(factory.calls)
        invariant Owned() && ServiceValid() && HandlesValid()
        invariant forall j | 0 <= j < i :: handles[j].closed
      {
        assert HandleValid(i);
        CloseHandle(i, handles[i]);
      }
    }
  }
}
