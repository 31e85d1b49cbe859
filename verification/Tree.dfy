/**
 The node registry and what feeds and closes it: the node services, directory nodes and their handles,
 and the file system.  Each call is taken as one action; nodes and handles that the code closes in
 parallel are closed one after the other.
 */
module Tree {
  import opened Base
  import opened Listing
  import opened Factories
  import opened Streams
  import opened Streamables
  import opened FileNodes
  import Serving

  // ----- nodes -----

  class DirectoryHandle {
    const directory: nat
    var closed: bool

    constructor (directory: nat)
      ensures this.directory == directory && !closed
    {
      this.directory, closed := directory, false;
    }

    /** ReadDirAll; `remote` is what the file server answers (None is an error other than ENOENT). */
    method ReadDirAll(remote: Option<seq<RemoteNode>>) returns (entries: Option<seq<Dirent>>)
      requires remote.Some? ==> DistinctNames(remote.value)
      ensures closed || remote.None? ==> entries == None
      ensures !closed && remote.Some? ==> entries == Some(Justified(remote.value, remote.value))
      ensures !closed && remote.Some? ==> IsListing(remote.value, entries.value)
    {
      if closed || remote.None? {
        return None;
      }
      var listed := Listing.ReadDirAll(remote.value);
      entries := Some(listed);
    }

    method Close()
      modifies this`closed
      ensures closed
    {
      closed := true;
    }
  }

  class DirectoryHandleService {
    const directory: nat
    var closed: bool

    constructor (directory: nat)
      ensures this.directory == directory && !closed
    {
      this.directory, closed := directory, false;
    }

    method New(logger: bool) returns (handle: DirectoryHandle?, failed: bool)
      ensures closed ==> handle == null && !failed
      ensures !closed ==> (handle == null <==> failed) && (failed <==> !logger)
      ensures handle != null ==> fresh(handle) && !handle.closed && handle.directory == directory
    {
      if closed {
        return null, false;
      }
      if !logger {
        return null, true;
      }
      handle := new DirectoryHandle(directory);
      failed := false;
    }
  }

  class DirectoryNode {
    const identifier: nat
    ghost const registry: Registry  // its services' registry
    const directoryNodeService: DirectoryNodeService
    const streamableNodeService: StreamableNodeService
    const fileNodeService: FileNodeService
    var directoryHandleService: DirectoryHandleService
    var handles: seq<DirectoryHandle?>
    var closed: bool
    ghost var Repr: set<object>

    ghost predicate Valid()
      reads this, Repr
      ensures Valid() ==> this in Repr
    {
      && this in Repr && directoryHandleService in Repr && !directoryHandleService.closed
      && directoryNodeService.registry == streamableNodeService.registry == fileNodeService.registry == registry
      && (forall i | 0 <= i < |handles| :: handles[i] != null && handles[i] in Repr)
      && (closed ==> forall i | 0 <= i < |handles| :: handles[i].closed)
    }

    constructor (directories: DirectoryNodeService, streamables: StreamableNodeService, files: FileNodeService,
                 ghost registry: Registry, identifier: nat)
      requires directories.registry == streamables.registry == files.registry == registry
      ensures Valid() && fresh(Repr) && !closed && handles == []
      ensures this.registry == registry && this.identifier == identifier
      ensures directoryNodeService == directories && streamableNodeService == streamables && fileNodeService == files
    {
      directoryNodeService, streamableNodeService, fileNodeService := directories, streamables, files;
      this.registry, this.identifier := registry, identifier;
      var service := new DirectoryHandleService(identifier);
      directoryHandleService, handles, closed := service, [], false;
      new;
      Repr := {this, directoryHandleService};
    }

    /** The services it makes nodes with are open, as they are in a new node. */
    predicate ServicesOpen()
      reads directoryNodeService, streamableNodeService, fileNodeService
    {
      !directoryNodeService.closed && !streamableNodeService.closed && !fileNodeService.closed
    }

    method Open(logger: bool) returns (handle: DirectoryHandle?, failed: bool)
      requires Valid()
      modifies this`handles, this`Repr
      ensures Valid() && fresh(Repr - old(Repr)) && closed == old(closed)
      ensures handle == null <==> failed
      ensures failed <==> closed || !logger
      ensures failed ==> handles == old(handles)
      ensures !failed ==> handles == old(handles) + [handle] && fresh(handle) && !handle.closed
    {
      if closed {
        return null, true;
      }
      handle, failed := directoryHandleService.New(logger);
      if failed {
        return;
      }
      handles := handles + [handle];
      Repr := Repr + {handle};
    }

    /** Lookup, given the file server's answer, for files its answer to GetFileInfo, and for directories whether the
        three service factories succeed.  A directory entry becomes a directory node, a streamable file a streamable
        node, any other file a file node, of the entry's identifier, new and in the registry; it is an error exactly
        when the service for it is closed or lacks what it needs. */
    method Lookup(reply: RemoteReply, size: Option<nat>, factories: bool) returns (result: LookupResult)
      requires Valid() && registry.Valid() && registry !in Repr
      modifies registry
      ensures Registered(registry, if result.NodeFound? then Some(result.n) else None)
      ensures closed || reply.Missing? || reply.Nothing? ==> result == NoEntry
      ensures !closed && reply.Unavailable? ==> result == TryAgain
      ensures !closed && reply.Entry? && reply.node.mode == MODE_DIR ==>
                if directoryNodeService.closed || !factories then result == ServiceError
                else result.NodeFound? && result.n.DirectoryOf? && result.n.d.identifier == reply.node.id
      ensures !closed && reply.Entry? && reply.node.mode == 0 && reply.node.streamable ==>
                if streamableNodeService.closed || size.None? then result == ServiceError
                else result.NodeFound? && result.n.StreamableOf? && result.n.s.identifier == reply.node.id
                     && result.n.s.size == size.value
      ensures !closed && reply.Entry? && reply.node.mode == 0 && !reply.node.streamable ==>
                if fileNodeService.closed || size.None? then result == ServiceError
                else result.NodeFound? && result.n.FileOf? && result.n.f.identifier == reply.node.id
                     && result.n.f.size == size.value
      ensures !closed && reply.Entry? && reply.node.mode == MODE_SYMLINK ==> result == SymlinkFound(reply.node.id)
      ensures !closed && reply.Entry? && reply.node.mode !in {MODE_DIR, 0, MODE_SYMLINK} ==> result == NoEntry
      ensures result.NodeFound? && result.n.DirectoryOf? ==> result.n.d.registry == registry
      ensures !closed && reply.Entry? ==>
                match Dispatch(reply.node) {
                  case Enoent => result == NoEntry
                  case Symlink(id) => result == SymlinkFound(id)
                  case found => if result.NodeFound? then AsFound(result.n) == found else result == ServiceError
                }
    {
      if closed {
        return NoEntry;
      }
      match reply
      case Missing => return NoEntry;
      case Nothing => return NoEntry;
      case Unavailable => return TryAgain;
      case Entry(node) =>
        var made: Option<Node> := None;
        if node.mode == MODE_DIR {
          made := directoryNodeService.New(node.id, factories);
        } else if node.mode == 0 {
          if node.streamable {
            made := streamableNodeService.New(node.id, size);
          } else {
            made := fileNodeService.New(node.id, size);
          }
        } else if node.mode == MODE_SYMLINK {
          return SymlinkFound(node.id);
        } else {
          return NoEntry;
        }
        result := if made.Some? then NodeFound(made.value) else ServiceError;
    }

    /** Create, given whether the file server created the file, its answer to the lookup of the new file, and the
        file's size, and whether there is a logger for its handle.  It succeeds exactly when all of these and the
        service allow it; then the file's node is new and in the registry, and the handle returned is open and in
        the node's list.  It dereferences nil exactly when the lookup answers neither a node nor an error. */
    method Create(created: bool, looked: RemoteReply, size: Option<nat>, logger: bool)
      returns (node: Option<Node>, handle: FileHandle?, crashed: bool)
      requires Valid() && registry.Valid() && registry !in Repr
      modifies registry
      ensures crashed <==> !closed && created && looked.Nothing?
      ensures registry.Valid()
      ensures closed || !created || !looked.Entry? ==> node.None? && registry.added == old(registry.added)
      ensures old(registry.added) <= registry.added
      ensures forall n | n in registry.added[|old(registry.added)|..] :: n.FileOf? && fresh(n.Repr())
      ensures node.Some? <==> handle != null
      ensures node.Some? <==>
                !closed && created && looked.Entry? && !fileNodeService.closed && size.Some? && logger
      ensures node.Some? ==>
                && registry.added == old(registry.added) + [node.value] && fresh(node.value.Repr())
                && node.value.FileOf? && node.value.f.identifier == looked.node.id
                && node.value.f.size == size.value && !node.value.IsClosed()
                && node.value.f.handles == [handle] && !handle.closed
    {
      node, handle, crashed := None, null, false;
      if closed || !created {
        return;
      }
      if !looked.Entry? {
        crashed := looked.Nothing?;  // foundNode.GetId()
        return;
      }
      var made := fileNodeService.New(looked.node.id, size);
      if made.None? {
        return;
      }
      handle := OpenNewFile(registry, made.value.f, logger);
      if handle != null {
        node := made;
      }
    }

    method Close()
      requires Valid()
      modifies Repr
      ensures Valid() && Repr == old(Repr) && closed && handles == old(handles)
    {
      if closed {
        return;
      }
      closed := true;
      for i := 0 to |handles|
        invariant Repr == old(Repr) && handles == old(handles) && closed
        invariant directoryHandleService == old(directoryHandleService) && !directoryHandleService.closed
        invariant forall j | 0 <= j < |handles| :: handles[j] != null && handles[j] in Repr
        invariant forall j | 0 <= j < i :: handles[j].closed
      {
        handles[i].Close();
      }
    }
  }

  /** The file server's answer to a lookup: an entry, ENOENT, neither an entry nor an error, or another error. */
  datatype RemoteReply = Entry(node: RemoteNode) | Missing | Nothing | Unavailable

  datatype LookupResult =
    | NodeFound(n: Node)
    | SymlinkFound(id: nat)
    | NoEntry               // ENOENT
    | TryAgain              // EAGAIN
    | ServiceError

  /** interfaces.Node. */
  datatype Node = DirectoryOf(d: DirectoryNode) | FileOf(f: FileNode) | StreamableOf(s: StreamableNode) {

    ghost function Anchor(): object {
      match this
      case DirectoryOf(d) => d
      case FileOf(f) => f
      case StreamableOf(s) => s
    }

    ghost function Repr(): set<object>
      reads Anchor()
    {
      match this
      case DirectoryOf(d) => d.Repr
      case FileOf(f) => f.Repr
      case StreamableOf(s) => s.Repr
    }

    ghost predicate Valid()
      reads Anchor(), Repr()
      ensures Valid() ==> Anchor() in Repr()
    {
      match this
      case DirectoryOf(d) => d.Valid()
      case FileOf(f) => f.Valid()
      case StreamableOf(s) => s.Valid()
    }

    predicate IsClosed()
      reads Anchor()
    {
      match this
      case DirectoryOf(d) => d.closed
      case FileOf(f) => f.closed
      case StreamableOf(s) => s.closed
    }

    method Close()
      requires Valid()
      modifies Repr()
      ensures Valid() && Repr() == old(Repr()) && IsClosed()
    {
      match this
      case DirectoryOf(d) => d.Close();
      case FileOf(f) => f.Close();
      case StreamableOf(s) => s.Close();
    }
  }

  /** Everything below a node is closed: its handles and, for a streamable node, the streams made for them and,
      unless the buffer refused to close, every connection those streams ever created. */
  ghost predicate ShutDown(n: Node)
    requires n.Valid()
    reads n.Anchor(), n.Repr()
  {
    match n
    case DirectoryOf(d) => forall i | 0 <= i < |d.handles| :: d.handles[i].closed
    case FileOf(f) => forall i | 0 <= i < |f.everOpened| :: f.everOpened[i].closed
    case StreamableOf(s) =>
      forall i | 0 <= i < |s.handles| ::
        && s.HandleValid(i)
        && s.handles[i].closed && s.streams[i].closed
        && StreamReleased(s.streams[i])
  }

  ghost predicate StreamReleased(stream: Stream)
    reads stream, stream.ring, stream.connections
  {
    !stream.ring.refused ==> stream.transfer == null && forall c | c in stream.connections :: c.closed
  }

  lemma ClosedNodeIsShutDown(n: Node)
    requires n.Valid() && n.IsClosed()
    ensures ShutDown(n)
  {
    if n.StreamableOf? {
      forall i | 0 <= i < |n.s.handles|
        ensures n.s.HandleValid(i) && n.s.handles[i].closed && n.s.streams[i].closed && StreamReleased(n.s.streams[i])
      {
        assert n.s.HandleValid(i);
        Serving.ClosedNodeHasNothingOpen(n.s, i);
      }
    }
  }

  /** A node none of whose objects changed is as it was. */
  twostate lemma Untouched(n: Node)
    requires old(n.Valid()) && forall o | o in old(n.Repr()) :: unchanged(o)
    ensures n.Valid() && n.Repr() == old(n.Repr()) && n.IsClosed() == old(n.IsClosed())
  {
  }

  // ----- the registry -----

  class Registry {
    var nodes: seq<Node>

    ghost var added: seq<Node>  // every node ever added
    ghost var gone: nat         // how many of them CloseNodes has dropped

    ghost function Anchors(): set<object>
      reads this
    {
      set i | 0 <= i < |added| :: added[i].Anchor()
    }

    ghost function Footprint(): set<object>
      reads this, Anchors()
    {
      set i, o | 0 <= i < |added| && o in added[i].Repr() :: o
    }

    /** The nodes still listed are the ones added since the last CloseNodes; the others are closed. */
    ghost predicate Valid()
      reads this, Anchors(), Footprint()
    {
      && gone <= |added| && nodes == added[gone..]
      && (forall i | 0 <= i < |added| :: added[i].Valid() && this !in added[i].Repr())
      && (forall i, j | 0 <= i < j < |added| :: added[i].Repr() !! added[j].Repr())
      && (forall i | 0 <= i < gone :: added[i].IsClosed())
    }

    constructor ()
      ensures Valid() && added == []
    {
      nodes, added, gone := [], [], 0;
    }

    method Add(node: Node)
      requires Valid() && node.Valid() && this !in node.Repr()
      requires forall i | 0 <= i < |added| :: added[i].Repr() !! node.Repr()
      modifies this
      ensures Valid() && added == old(added) + [node] && nodes == old(nodes) + [node]
    {
      nodes := nodes + [node];
      added := added + [node];
    }

    /** CloseNodes: afterwards every node ever added is closed (AllShutDown says what that means below it). */
    method CloseNodes()
      requires Valid()
      modifies this, Footprint()
      ensures Valid() && added == old(added) && nodes == [] && Footprint() == old(Footprint())
      ensures forall i | 0 <= i < |added| :: added[i].IsClosed()
    {
      FootprintCovers();
      CloseListed(Footprint());
      Forget();
      FootprintKept();
    }

    /** registry.nodes = nil */
    method Forget()
      requires Valid() && forall i | 0 <= i < |added| :: added[i].IsClosed()
      modifies this`nodes, this`gone
      ensures Valid() && added == old(added) && nodes == []
      ensures SameReprs()
      ensures forall i | 0 <= i < |added| :: added[i].IsClosed()
    {
      nodes := [];
      gone := |added|;
      forall j | 0 <= j < |added|
        ensures added[j].Valid() && added[j].Repr() == old(added[j].Repr()) && added[j].IsClosed()
      {
        Untouched(added[j]);
      }
    }

    /** CloseNodes' loop; `all` is the registry's footprint. */
    method CloseListed(ghost all: set<object>)
      requires Valid() && Covers(all)
      modifies all
      ensures nodes == old(nodes) && added == old(added) && gone == old(gone) && Valid()
      ensures SameReprs()
      ensures forall j | 0 <= j < |added| :: added[j].IsClosed()
    {
      for i := 0 to |nodes|
        invariant nodes == old(nodes) && added == old(added) && gone == old(gone) && Valid() && Covers(all)
        invariant SameReprs()
        invariant forall j | 0 <= j < gone + i :: added[j].IsClosed()
      {
        assert nodes[i] == added[gone + i];
        CloseNode(i, nodes[i]);
      }
    }

    lemma FootprintCovers()
      requires Valid()
      ensures Covers(Footprint())
    {
    }

    twostate lemma FootprintKept()
      requires SameReprs()
      ensures Footprint() == old(Footprint())
    {
    }

    ghost predicate Covers(all: set<object>)
      reads this, Anchors()
    {
      this !in all && forall j | 0 <= j < |added| :: added[j].Repr() <= all
    }

    method CloseNode(i: nat, node: Node)
      requires Valid() && i < |nodes| && node == nodes[i]
      modifies node.Repr()
      ensures nodes == old(nodes) && added == old(added) && gone == old(gone) && Valid()
      ensures SameReprs()
      ensures added[gone + i].IsClosed()
      ensures forall j | 0 <= j < |added| && j != gone + i :: added[j].IsClosed() == old(added[j].IsClosed())
    {
      assert node == added[gone + i];
      node.Close();
      NodeOperationKeepsRegistry(gone + i);
    }

    twostate predicate SameReprs()
      reads this, Anchors()
    {
      added == old(added) && forall j | 0 <= j < |added| :: added[j].Repr() == old(added[j].Repr())
    }

    twostate lemma Still()
      requires old(Valid()) && unchanged(this) && forall o | o in old(Footprint()) :: unchanged(o)
      ensures Valid() && SameReprs()
    {
      forall j | 0 <= j < |added|
        ensures added[j].Valid() && added[j].Repr() == old(added[j].Repr())
                && added[j].IsClosed() == old(added[j].IsClosed())
      {
        assert forall o | o in old(added[j].Repr()) :: o in old(Footprint());
        Untouched(added[j]);
      }
    }

    /** An operation on one node that keeps that node valid, does not reopen it and reaches no old object outside
        it keeps the registry valid; every other node stays open or closed as it was. */
    twostate lemma NodeOperationKeepsRegistry(k: nat)
      requires old(Valid()) && k < |added| && unchanged(this)
      requires forall o | o in old(Footprint()) && o !in old(added[k].Repr()) :: unchanged(o)
      requires added[k].Valid() && fresh(added[k].Repr() - old(added[k].Repr()))
      requires old(added[k].IsClosed()) ==> added[k].IsClosed()
      ensures Valid()
      ensures forall j | 0 <= j < |added| && j != k ::
                added[j].Repr() == old(added[j].Repr()) && added[j].IsClosed() == old(added[j].IsClosed())
    {
      hide Node.Valid, Node.IsClosed;
      OthersKept(k);
      forall i, j | 0 <= i < j < |added| ensures added[i].Repr() !! added[j].Repr() {
        assert i != k && j != k ==> old(added[i].Repr()) !! old(added[j].Repr());
      }
    }

    twostate lemma OthersKept(k: nat)
      requires old(Valid()) && k < |added| && unchanged(this)
      requires forall o | o in old(Footprint()) && o !in old(added[k].Repr()) :: unchanged(o)
      requires fresh(added[k].Repr() - old(added[k].Repr()))
      ensures forall j | 0 <= j < |added| && j != k ::
                && added[j].Valid() && added[j].Repr() == old(added[j].Repr())
                && added[j].IsClosed() == old(added[j].IsClosed())
                && added[j].Repr() !! added[k].Repr()
    {
      hide Node.Valid;
      forall j | 0 <= j < |added| && j != k
        ensures added[j].Valid() && added[j].Repr() == old(added[j].Repr())
                && added[j].IsClosed() == old(added[j].IsClosed())
        ensures added[j].Repr() !! added[k].Repr()
      {
        OtherNodeKept((k, j));
        NothingFresh(j);
        forall o | o in added[j].Repr() ensures o !in added[k].Repr() {
          assert !fresh(o);
        }
      }
    }

    /** The same for one other node: `pair` is the node operated on and the other one. */
    twostate lemma OtherNodeKept(pair: (nat, nat))
      requires old(Valid()) && pair.0 < |added| && pair.1 < |added| && pair.1 != pair.0 && unchanged(this)
      requires forall o | o in old(Footprint()) && o !in old(added[pair.0].Repr()) :: unchanged(o)
      ensures added[pair.1].Valid() && added[pair.1].Repr() == old(added[pair.1].Repr())
      ensures added[pair.1].IsClosed() == old(added[pair.1].IsClosed())
      ensures old(added[pair.1].Repr()) !! old(added[pair.0].Repr())
    {
      hide Node.Valid;
      var (k, j) := pair;
      assert old(added[j].Repr()) !! old(added[k].Repr());
      forall o | o in old(added[j].Repr()) ensures unchanged(o) {
        assert o in old(Footprint());
      }
      Untouched(added[j]);
    }

    twostate lemma NothingFresh(j: nat)
      requires unchanged(this) && j < |added| && added[j].Repr() == old(added[j].Repr())
      ensures forall o | o in added[j].Repr() :: !fresh(o)
    {
    }
  }

  /** fileNode.Open on the node just added. */
  method OpenNewFile(ghost r: Registry, f: FileNode, logger: bool) returns (handle: FileHandle?)
    requires r.Valid() && r.added != [] && r.added[|r.added| - 1] == FileOf(f) && !f.closed && f.handles == []
    modifies f
    ensures r.Valid() && fresh(f.Repr - old(f.Repr)) && r.added == old(r.added) && !f.closed
    ensures handle != null <==> logger
    ensures handle != null ==> f.handles == [handle] && !handle.closed
  {
    var failed;
    ghost var k := |r.added| - 1;
    assert r.added[k].Valid() && r.added[k].Repr() == f.Repr;
    handle, failed := f.Open(logger);
    r.NodeOperationKeepsRegistry(k);
  }

  /** Every node of a registry whose nodes are all closed is shut down. */
  lemma AllShutDown(r: Registry)
    requires r.Valid() && forall i | 0 <= i < |r.added| :: r.added[i].IsClosed()
    ensures forall i | 0 <= i < |r.added| :: ShutDown(r.added[i])
  {
    forall i | 0 <= i < |r.added| ensures ShutDown(r.added[i]) {
      ClosedNodeIsShutDown(r.added[i]);
    }
  }

  // ----- node services -----

  /** streamable/node/service/main.go.  `registry` is GetInstance of the service's client. */
  class StreamableNodeService {
    const registry: Registry
    const web: Web
    var closed: bool

    constructor (registry: Registry, web: Web)
      ensures this.registry == registry && this.web == web && !closed
    {
      this.registry, this.web, closed := registry, web, false;
    }

    /** New; `size` is the file server's answer to GetFileInfo. */
    method New(identifier: nat, size: Option<nat>) returns (node: Option<Node>)
      requires registry.Valid()
      modifies registry
      ensures Registered(registry, node)
      ensures node.Some? <==> !closed && size.Some?
      ensures node.Some? ==>
                && node.value.StreamableOf? && node.value.s.identifier == identifier
                && node.value.s.size == size.value && node.value.s.factory.web == web
    {
      if closed || size.None? {
        return None;
      }
      var s := new StreamableNode(web, identifier, size.value);
      registry.Still();
      registry.Add(StreamableOf(s));
      node := Some(StreamableOf(s));
    }

    method Close()
      modifies this`closed
      ensures closed
    {
      closed := true;
    }
  }

  /** file/node/service/main.go. */
  class FileNodeService {
    const registry: Registry
    var closed: bool

    constructor (registry: Registry)
      ensures this.registry == registry && !closed
    {
      this.registry, closed := registry, false;
    }

    method New(identifier: nat, size: Option<nat>) returns (node: Option<Node>)
      requires registry.Valid()
      modifies registry
      ensures Registered(registry, node)
      ensures node.Some? <==> !closed && size.Some?
      ensures node.Some? ==>
                && node.value.FileOf? && node.value.f.identifier == identifier
                && node.value.f.size == size.value && node.value.f.handles == []
    {
      if closed || size.None? {
        return None;
      }
      var f := new FileNode(identifier, size.value);
      registry.Still();
      registry.Add(FileOf(f));
      node := Some(FileOf(f));
    }

    method Close()
      modifies this`closed
      ensures closed
    {
      closed := true;
    }
  }

  /** directory/node/service/main.go.  Each new directory node gets services of its own. */
  class DirectoryNodeService {
    const registry: Registry
    const web: Web
    var closed: bool

    constructor (registry: Registry, web: Web)
      ensures this.registry == registry && this.web == web && !closed
    {
      this.registry, this.web, closed := registry, web, false;
    }

    /** New, given whether the factories of the three services a directory node gets succeed. */
    method New(identifier: nat, factories: bool) returns (node: Option<Node>)
      requires registry.Valid()
      modifies registry
      ensures Registered(registry, node)
      ensures node.Some? <==> !closed && factories
      ensures node.Some? ==>
                && node.value.DirectoryOf? && node.value.d.identifier == identifier
                && node.value.d.registry == registry && node.value.d.ServicesOpen()
    {
      if closed || !factories {
        return None;
      }
      var d := NewNode(identifier);
      registry.Still();
      registry.Add(DirectoryOf(d));
      node := Some(DirectoryOf(d));
    }

    /** The three services from their factories, and the node. */
    method NewNode(identifier: nat) returns (d: DirectoryNode)
      ensures fresh(d.Repr) && d.Valid() && !d.closed && d.handles == [] && d.ServicesOpen()
      ensures d.identifier == identifier && d.registry == registry
    {
      var directories := new DirectoryNodeService(registry, web);
      var streamables := new StreamableNodeService(registry, web);
      var files := new FileNodeService(registry);
      d := new DirectoryNode(directories, streamables, files, registry, identifier);
    }

    method Close()
      modifies this`closed
      ensures closed
    {
      closed := true;
    }
  }

  /** The node as a lookup result. */
  function AsFound(n: Node): Found {
    match n
    case DirectoryOf(d) => Directory(d.identifier)
    case FileOf(f) => File(f.identifier)
    case StreamableOf(s) => Streamable(s.identifier)
  }

  /** A node nobody has opened yet. */
  ghost predicate Unused(n: Node)
    requires n.Valid()
    reads n.Anchor(), n.Repr()
  {
    match n
    case DirectoryOf(d) => d.handles == []
    case FileOf(f) => f.everOpened == []
    case StreamableOf(s) => s.handles == [] && s.factory.calls == []
  }

  /** A service's answer: nothing, and the registry as it was, or a new open node at the registry's end. */
  twostate predicate Registered(registry: Registry, new node: Option<Node>)
    reads registry, registry.Anchors(), registry.Footprint()
  {
    && registry.Valid()
    && match node {
      case None => registry.added == old(registry.added)
      case Some(n) =>
        && registry.added == old(registry.added) + [n]
        && n == registry.added[|old(registry.added)|]
        && fresh(n.Repr()) && !n.IsClosed() && Unused(n)
    }
  }
}
