/**
 Directory listing and lookup: directory/handle/main.go:72-98 and directory/node/main.go:121-150 switch on
 the remote entry's mode independently of each other.
 */
module Listing {
  import opened Base

  const MODE_DIR: nat := 0x8000_0000      // io/fs.ModeDir
  const MODE_SYMLINK: nat := 0x0800_0000  // io/fs.ModeSymlink

  datatype RemoteNode = RemoteNode(id: nat, name: string, mode: nat, streamable: bool)

  datatype DirentType = DtLink | DtFile | DtDir

  datatype Dirent = Dirent(name: string, kind: DirentType)

  /** The node a lookup builds; Enoent when the mode is none it knows. */
  datatype Found = Directory(id: nat) | Streamable(id: nat) | File(id: nat) | Symlink(id: nat) | Enoent

  /** Lookup's switch. */
  function Dispatch(node: RemoteNode): Found {
    if node.mode == MODE_DIR then Directory(node.id)
    else if node.mode == 0 then (if node.streamable then Streamable(node.id) else File(node.id))
    else if node.mode == MODE_SYMLINK then Symlink(node.id)
    else Enoent
  }

  /** The type an entry has when the node behind it is `found`. */
  function TypeOf(found: Found): Option<DirentType> {
    match found
    case Directory(_) => Some(DtDir)
    case Streamable(_) => Some(DtFile)
    case File(_) => Some(DtFile)
    case Symlink(_) => Some(DtLink)
    case Enoent => None
  }

  /** What the file server's own lookup finds in an unchanged directory. */
  function RemoteLookup(nodes: seq<RemoteNode>, name: string): Option<RemoteNode> {
    if nodes == [] then None
    else if nodes[0].name == name then Some(nodes[0])
    else RemoteLookup(nodes[1..], name)
  }

  /** Lookup of a name in that directory. */
  function Lookup(nodes: seq<RemoteNode>, name: string): Found {
    match RemoteLookup(nodes, name)
    case None => Enoent
    case Some(node) => Dispatch(node)
  }

  /** The listing Lookup would justify: in order, each name that it finds, with the type of what it finds. */
  function Justified(nodes: seq<RemoteNode>, names: seq<RemoteNode>): seq<Dirent> {
    if names == [] then []
    else
      var n := |names| - 1;
      Justified(nodes, names[..n]) +
      (match TypeOf(Lookup(nodes, names[n].name))
       case Some(kind) => [Dirent(names[n].name, kind)]
       case None => [])
  }

  ghost predicate DistinctNames(nodes: seq<RemoteNode>) {
    forall j, k | 0 <= j < k < |nodes| :: nodes[j].name != nodes[k].name
  }

  lemma {:induction false} RemoteLookupFinds(nodes: seq<RemoteNode>, k: nat)
    requires DistinctNames(nodes) && k < |nodes|
    ensures RemoteLookup(nodes, nodes[k].name) == Some(nodes[k])
  {
    if k > 0 {
      assert nodes[1..][k - 1] == nodes[k];
      RemoteLookupFinds(nodes[1..], k - 1);
    }
  }

  /** The modes a listing and a lookup know. */
  predicate Known(mode: nat) { mode == MODE_DIR || mode == 0 || mode == MODE_SYMLINK }

  /** An entry for this node: its name, and the type its mode calls for. */
  predicate Describes(entry: Dirent, node: RemoteNode) {
    && entry.name == node.name
    && (entry.kind == DtDir <==> node.mode == MODE_DIR)
    && (entry.kind == DtFile <==> node.mode == 0)
    && (entry.kind == DtLink <==> node.mode == MODE_SYMLINK)
  }

  /** `from` says which node each entry is for: in order, none twice, and none with a known mode left out. */
  ghost predicate ListedFrom(nodes: seq<RemoteNode>, entries: seq<Dirent>, from: seq<nat>) {
    && |from| == |entries|
    && (forall k | 0 <= k < |from| :: from[k] < |nodes| && Describes(entries[k], nodes[from[k]]))
    && (forall j, k | 0 <= j < k < |from| :: from[j] < from[k])
    && (forall n | 0 <= n < |nodes| && Known(nodes[n].mode) :: n in from)
  }

  ghost predicate IsListing(nodes: seq<RemoteNode>, entries: seq<Dirent>) {
    exists from: seq<nat> :: ListedFrom(nodes, entries, from)
  }

  /** What Lookup justifies is such a listing of any part of the directory. */
  lemma {:induction false} JustifiedIsListing(nodes: seq<RemoteNode>, n: nat) returns (from: seq<nat>)
    requires DistinctNames(nodes) && n <= |nodes|
    ensures ListedFrom(nodes[..n], Justified(nodes, nodes[..n]), from)
  {
    if n == 0 {
      from := [];
    } else {
      var last := n - 1;
      from := JustifiedIsListing(nodes, last);
      RemoteLookupFinds(nodes, last);
      assert nodes[..n][..last] == nodes[..last];
      if Known(nodes[last].mode) {
        from := from + [last];
      }
    }
  }

  /** So what Lookup justifies of the whole directory lists it, each entry with its mode's type. */
  lemma LookupJustifiesListing(nodes: seq<RemoteNode>)
    requires DistinctNames(nodes)
    ensures IsListing(nodes, Justified(nodes, nodes))
  {
    var from := JustifiedIsListing(nodes, |nodes|);
    assert nodes[..|nodes|] == nodes;
  }

  /** ReadDirAll's loop: on an unchanged directory it lists, in order, exactly the entries that Lookup accepts,
      each with the type of the node Lookup would build, and omits exactly those for which it gives ENOENT. */
  method ReadDirAll(nodes: seq<RemoteNode>) returns (entries: seq<Dirent>)
    requires DistinctNames(nodes)
    ensures entries == Justified(nodes, nodes) && IsListing(nodes, entries)
  {
    entries := [];
    for i := 0 to |nodes|
      invariant entries == Justified(nodes, nodes[..i])
    {
      var entry := nodes[i];
      RemoteLookupFinds(nodes, i);
      assert nodes[..i + 1][..i] == nodes[..i];
      if entry.mode == MODE_SYMLINK {
        entries := entries + [Dirent(entry.name, DtLink)];
      } else if entry.mode == 0 {
        entries := entries + [Dirent(entry.name, DtFile)];
      } else if entry.mode == MODE_DIR {
        entries := entries + [Dirent(entry.name, DtDir)];
      }
    }
    assert nodes[..|nodes|] == nodes;
    LookupJustifiesListing(nodes);
  }

  predicate Names(nodes: seq<RemoteNode>, name: string) {
    exists k :: 0 <= k < |nodes| && nodes[k].name == name
  }

  predicate Lists(entries: seq<Dirent>, name: string) {
    exists k :: 0 <= k < |entries| && entries[k].name == name
  }

  lemma ListsMore(front: seq<Dirent>, last: seq<Dirent>, name: string)
    ensures Lists(front + last, name) <==> Lists(front, name) || Lists(last, name)
  {
    var all := front + last;
    if Lists(front, name) {
      var k :| 0 <= k < |front| && front[k].name == name;
      assert all[k].name == name;
    }
    if Lists(last, name) {
      var k :| 0 <= k < |last| && last[k].name == name;
      assert all[|front| + k].name == name;
    }
  }

  lemma NamesMore(nodes: seq<RemoteNode>, name: string)
    requires nodes != []
    ensures Names(nodes, name) <==> Names(nodes[..|nodes| - 1], name) || nodes[|nodes| - 1].name == name
  {
    var front := nodes[..|nodes| - 1];
    if Names(front, name) {
      var k :| 0 <= k < |front| && front[k].name == name;
      assert nodes[k].name == name;
    }
  }

  /** A name of the directory is listed if and only if looking it up succeeds. */
  lemma {:induction false} ListedIffFound(nodes: seq<RemoteNode>, names: seq<RemoteNode>, name: string)
    ensures Lists(Justified(nodes, names), name) <==> Names(names, name) && Lookup(nodes, name) != Enoent
  {
    if names != [] {
      var n := |names| - 1;
      var kind := TypeOf(Lookup(nodes, names[n].name));
      var last := if kind.Some? then [Dirent(names[n].name, kind.value)] else [];
      ListedIffFound(nodes, names[..n], name);
      NamesMore(names, name);
      ListsMore(Justified(nodes, names[..n]), last, name);
      if kind.Some? {
        assert last[0].name == names[n].name;
      }
    }
  }
}
