/**
 The contract of the external ring buffer, stated once.  It is an assumption read off the places
 that use it (stream/main.go:118,127,131,137,196 and stream/transfer/main.go:90,108), not a model
 of the library's code: every answer the library could give within the contract is allowed.
 */
module WindowContract {
  import opened Base

  /** `data` are the bytes written since the last reset; `data[i]` is the byte at absolute position
      `base + i`.  Positions below `low` have been given up. */
  datatype Window = Window(capacity: nat, base: nat, data: seq<byte>, low: nat, ended: bool, closed: bool) {

    function High(): nat { base + |data| }

    predicate Valid() {
      base <= low <= High() && High() - low <= capacity
    }

    predicate Holds(position: int) { low <= position < High() }

    /** The most the library may answer "available" to. */
    predicate MayOffer(position: int) {
      Holds(position) || (ended && position <= High())
    }

    /** Write appends a prefix of the chunk, all of it unless it fails; a closed buffer takes nothing.  It gives
        up no byte: with no room it waits or fails. */
    predicate Written(chunk: seq<byte>, n: nat, failed: bool, after: Window) {
      && n <= |chunk|
      && (n < |chunk| ==> failed)
      && (closed ==> n == 0 && failed)
      && after == this.(data := data + chunk[..n])
      && after.Valid()
    }

    /** Writing the end marker adds no byte. */
    predicate Marked(after: Window) {
      if closed then after == this else after == this.(ended := true)
    }

    /** What writes and markers may do to a window between two resets and reads. */
    predicate GrowsTo(after: Window) {
      && after == this.(data := after.data, ended := after.ended)
      && data <= after.data
      && (ended ==> after.ended)
      && after.Valid()
    }

    /** ReadAt hands out held bytes or none, and may give up bytes from the low end. */
    predicate Read(position: int, length: nat, bytes: seq<byte>, after: Window)
      requires Valid()
    {
      && |bytes| <= length
      && (bytes != [] ==>
            && low <= position
            && position + |bytes| <= High()
            && bytes == data[position - base..position - base + |bytes|])
      && after == this.(low := after.low)
      && low <= after.low
      && after.Valid()
    }

    function Reset(position: nat): Window {
      Window(capacity, position, [], position, false, closed)
    }
  }

  function Fresh(capacity: nat, position: nat): Window {
    Window(capacity, position, [], position, false, false)
  }

  /** Every byte written at an absolute position is the remote file's byte at that position. */
  ghost predicate Mirrors(w: Window, remote: seq<byte>) {
    IsSliceAt(remote, w.base, w.data)
  }

  /** Reading a window that mirrors the remote file yields the remote file's bytes. */
  lemma ReadOfMirror(w: Window, remote: seq<byte>, position: int, length: nat, bytes: seq<byte>, after: Window)
    requires w.Valid() && Mirrors(w, remote)
    requires w.Read(position, length, bytes, after)
    ensures IsSliceAt(remote, position, bytes)
    ensures Mirrors(after, remote)
  {
    if bytes != [] {
      SliceOfSlice(remote, w.base, w.base + |w.data|, position - w.base, |bytes|);
    }
  }
}
