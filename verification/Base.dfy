/** Types and small functions shared by every module. */
module Base {

  newtype byte = i: int | 0 <= i < 256

  datatype Option<+T> = None | Some(value: T)

  function Min(a: int, b: int): int { if a <= b then a else b }

  function Max(a: int, b: int): int { if a <= b then b else a }

  /** What a server that honours a `bytes=start-` request sends (RFC 9110, section 14.1.2):
      the representation from byte `start` on, and nothing when it has no such byte. */
  function BodyFrom(remote: seq<byte>, start: nat): seq<byte> {
    if start <= |remote| then remote[start..] else []
  }

  /** `bytes` is what a plain read of the remote file at `position` yields: a run of its bytes. */
  ghost predicate IsSliceAt(remote: seq<byte>, position: int, bytes: seq<byte>) {
    bytes != [] ==>
      && 0 <= position
      && position + |bytes| <= |remote|
      && bytes == remote[position..position + |bytes|]
  }

  /** The error of one read of a byte source. */
  datatype ReadError = NoError | EndOfBody | Broken

  lemma NextOfBody(body: seq<byte>, position: nat, n: nat)
    requires position + n <= |body|
    ensures body[..position] + body[position..position + n] == body[..position + n]
  {
  }

  lemma SliceOfSlice<T>(s: seq<T>, lo: nat, hi: nat, from: nat, n: nat)
    requires lo <= hi <= |s| && lo + from + n <= hi
    ensures s[lo..hi][from..from + n] == s[lo + from..lo + from + n]
  {
    var inner, outer := s[lo..hi][from..from + n], s[lo + from..lo + from + n];
    assert |inner| == |outer|;
    assert forall i | 0 <= i < n :: inner[i] == s[lo..hi][from + i] == s[lo + from + i] == outer[i];
  }
}
