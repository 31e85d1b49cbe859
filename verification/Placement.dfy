/** Where a stream puts its window: stream/main.go, the size functions and the start position. */
module Placement {
  import opened Base

  const MIB := 1024 * 1024
  const SMALL_VIDEO_BUFFER := 64 * MIB
  const MAX_PRELOAD_SIZE := 16 * MIB

  function BufferSize(fileSize: nat): nat {
    Min(fileSize, SMALL_VIDEO_BUFFER)
  }

  function PreloadSize(bufferSize: nat): nat {
    Min(bufferSize / 2, MAX_PRELOAD_SIZE)
  }

  /** The start of the window that serves a read at `seek`: some look-behind, never before byte 0. */
  function StartPosition(fileSize: nat, seek: int): nat {
    Max(0, seek - PreloadSize(BufferSize(fileSize)))
  }

  /** The position ReadAt waits for. */
  function RequestedPosition(fileSize: nat, seek: int, length: nat): int {
    Min(seek + length, fileSize)
  }

  /** Room a new window has for the request at `seek`, beyond its look-behind. */
  function GuaranteedLength(fileSize: nat): int {
    BufferSize(fileSize) - PreloadSize(BufferSize(fileSize))
  }

  /** The window is as large as the file and 64 MiB allow, and starts as far before the seek position as half its
      capacity, 16 MiB and byte 0 allow. */
  lemma WindowIsAsLargeAsAllowed(fileSize: nat, seek: nat)
    ensures BufferSize(fileSize) == fileSize <==> fileSize <= 64 * 1024 * 1024
    ensures fileSize > 64 * 1024 * 1024 ==> BufferSize(fileSize) == 64 * 1024 * 1024
    ensures var behind := seek - StartPosition(fileSize, seek);
            && 0 <= behind <= 16 * 1024 * 1024 && 2 * behind <= BufferSize(fileSize)
            && (StartPosition(fileSize, seek) == 0 || behind == 16 * 1024 * 1024
                || 2 * (behind + 1) > BufferSize(fileSize))
  {
  }

  /** A read waits for the end of its request, or of the file if that comes first. */
  lemma WaitsForItsEnd(fileSize: nat, seek: int, length: nat)
    ensures var p := RequestedPosition(fileSize, seek, length);
            p <= fileSize && p <= seek + length && (p == fileSize || p == seek + length)
  {
  }

  /** The new window covers the seek position, and the whole request whenever the request is no longer
      than the capacity less the look-behind, or the whole file fits. */
  lemma WindowCoversRequest(fileSize: nat, seek: nat, length: nat)
    requires fileSize > 0 && seek <= fileSize
    ensures StartPosition(fileSize, seek) <= seek <= StartPosition(fileSize, seek) + BufferSize(fileSize)
    ensures seek < fileSize ==> seek < StartPosition(fileSize, seek) + BufferSize(fileSize)
    ensures length <= GuaranteedLength(fileSize) || fileSize <= SMALL_VIDEO_BUFFER ==>
              RequestedPosition(fileSize, seek, length) <= StartPosition(fileSize, seek) + BufferSize(fileSize)
  {
  }

  /** For files over 64 MiB the bound is 48 MiB and no larger bound would do: one byte more and some
      seek position has a window that stops short of the request. */
  lemma GuaranteedLengthIsTight(fileSize: nat, length: nat)
    requires fileSize > SMALL_VIDEO_BUFFER
    ensures GuaranteedLength(fileSize) == 48 * MIB
    ensures (forall seek: nat | seek <= fileSize ::
               RequestedPosition(fileSize, seek, length) <= StartPosition(fileSize, seek) + BufferSize(fileSize))
            <==> length <= GuaranteedLength(fileSize)
  {
    if length > GuaranteedLength(fileSize) {
      var seek: nat := MAX_PRELOAD_SIZE;
      assert StartPosition(fileSize, seek) == 0;
      assert RequestedPosition(fileSize, seek, length) > BufferSize(fileSize);
    }
  }
}
