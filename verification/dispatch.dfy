/** The decisions the VFS entry points take before they touch any state: the
    seek arithmetic, the per-vector read count, the `path_open` flag chain and
    the answers of the entry points that hold no state at all. */
module Dispatch {
  import opened Abi
  import opened IoVecs
  import Vfs

  // ---------------------------------------------------------------- fd_seek

  const WHENCE_CUR: nat := 1
  const WHENCE_END: nat := 2

  /** The position a seek asks for, as a mathematical integer: relative to the
      cursor (whence 1), to the end of the file (whence 2), or absolute
      (any other whence). */
  function SeekTarget(size: nat, position: nat, delta: int, whence: nat): (r: int)
    ensures whence == WHENCE_CUR ==> r - delta == position
    ensures whence == WHENCE_END ==> r - delta == size
    ensures whence != WHENCE_CUR && whence != WHENCE_END ==> r == delta
  {
    if whence == WHENCE_CUR then position + delta
    else if whence == WHENCE_END then size + delta
    else delta
  }

  /** The position `fd_seek` stores and reports: the target taken as an
      unsigned 64-bit value, then lowered to the file size. A negative target
      wraps to a huge value and so ends up at the end of the file, not at 0. */
  function SeekPosition(size: u32, position: u64, delta: i64, whence: byte): (r: u64)
    ensures r <= size
    ensures 0 <= SeekTarget(size, position, delta, whence) <= size ==> r == SeekTarget(size, position, delta, whence)
    ensures SeekTarget(size, position, delta, whence) < 0 ==> r == size
    ensures size < SeekTarget(size, position, delta, whence) < U64_LIMIT ==> r == size
  {
    var target := SeekTarget(size, position, delta, whence);
    var wrapped := target % U64_LIMIT;
    assert target < 0 ==> wrapped == target + U64_LIMIT;
    if wrapped > size then size else wrapped
  }

  /** Seeking to an offset `fd_seek` reported lands there again; seeking by 0
      from the cursor reports the cursor, once it lies inside the file. */
  lemma SeekReportedOffsetIsStable(size: u32, position: u64, delta: i64, whence: byte)
    ensures var p := SeekPosition(size, position, delta, whence);
      && SeekPosition(size, 0, p, 0) == p
      && SeekPosition(size, p, 0, WHENCE_CUR as byte) == p
      && SeekPosition(size, position, 0, WHENCE_END as byte) == size
  {
  }

  // ---------------------------------------------------------------- fd_read

  /** The bytes one vector of `fd_read` receives, read at `position` of a file
      of `size` bytes: the whole request, or what is left before the end. A
      cursor at or beyond the end reads nothing. */
  function ReadCount(size: nat, position: nat, length: nat): (r: nat)
    ensures r <= length
    ensures position >= size ==> r == 0
    ensures position < size ==> position + r <= size && (r == length || position + r == size)
  {
    if position >= size then 0
    else if position + length > size then size - position
    else length
  }

  /** The count as the code computes it: the comparison in unsigned 64-bit
      arithmetic and the difference truncated to the 32-bit `size_t`. */
  function ReadCountAsWritten(size: u32, position: u64, length: u32): (r: u32)
    ensures (position + length) % U64_LIMIT <= size ==> r == length
  {
    if (position + length) % U64_LIMIT > size then ToSize(size - position) else length
  }

  /** Inside the file, the code's count is the intended one. */
  lemma ReadCountAgreesInsideFile(size: u32, position: u64, length: u32)
    requires position <= size
    ensures ReadCountAsWritten(size, position, length) == ReadCount(size, position, length)
  {
    assert position + length < U64_LIMIT;
  }

  /** A cursor left beyond the end (the file was shrunk through another handle,
      or by `fd_filestat_set_size` with a size of 2^32 or more) makes the
      difference wrap: the copy asks for nearly 4 GiB starting past the end of
      the contents, more than the vector holds. */
  lemma ReadCountOverrunsPastEnd(size: u32, position: u64, length: u32)
    requires 0 < length && size < position && position - size < U32_LIMIT - length
    ensures ReadCountAsWritten(size, position, length) == U32_LIMIT - (position - size)
    ensures ReadCountAsWritten(size, position, length) > length
    ensures ReadCount(size, position, length) == 0
  {
    assert position + length < U64_LIMIT;
    assert (size - position) % U32_LIMIT == U32_LIMIT - (position - size);
  }

  /** The smallest instance: one byte requested at offset 10 of an empty file. */
  lemma ReadPastEndExample()
    ensures ReadCountAsWritten(0, 10, 1) == U32_LIMIT - 10
  {
    ReadCountOverrunsPastEnd(0, 10, 1);
  }

  /** The cursor `fd_filestat_set_size` keeps: lowered to the requested
      64-bit size when it lies beyond it, otherwise left where it is. */
  function ClampCursor(position: u64, size: u64): (r: u64)
    ensures r <= position && r <= size
    ensures r == position || r == size
  {
    if position > size then size else position
  }

  /** One descriptor suffices to get there: `fd_filestat_set_size` with a size
      of 2^32 keeps a cursor inside the file (its clamp `position > size`
      leaves the cursor where it is) while the file is cut to 0 bytes (the size taken as a 32-bit
      `size_t`); the next one-byte read then asks for nearly 4 GiB. */
  lemma SetSizeWrapLeavesCursorPastEnd(n: Vfs.Node, position: u64)
    requires !n.isDir && 0 < position <= |n.contents| && position < U32_LIMIT - 1
    ensures ClampCursor(position, U32_LIMIT) == position
    ensures Vfs.SetSize(n, ToSize(U32_LIMIT)).1.contents == []
    ensures ReadCountAsWritten(0, position, 1) == U32_LIMIT - position
    ensures ReadCount(0, position, 1) == 0
  {
    ReadCountOverrunsPastEnd(0, position, 1);
  }

  /** The contents bytes a read of `n` bytes at `position` delivers. */
  function Window(contents: seq<byte>, position: nat, n: nat): (r: seq<byte>)
    requires n == 0 || position + n <= |contents|
    ensures |r| == n
  {
    if n == 0 then [] else contents[position..position + n]
  }

  /** `fd_read` over the vectors, in order, with zero-length ones skipped: the
      copy each vector receives (its counted bytes) and the final cursor. */
  function ReadVecs(contents: seq<byte>, position: nat, vecs: seq<IoVec>): (r: (seq<Copy>, nat))
    ensures |r.0| == CountNonEmpty(vecs)
    ensures position <= r.1 <= position + TotalLength(vecs)
    ensures position <= |contents| ==> r.1 <= |contents|
    ensures position >= |contents| ==> r.1 == position
    decreases |vecs|
  {
    if vecs == [] then ([], position)
    else if vecs[0].length == 0 then ReadVecs(contents, position, vecs[1..])
    else
      var n := ReadCount(|contents|, position, vecs[0].length);
      var rest := ReadVecs(contents, position + n, vecs[1..]);
      ([Copy(vecs[0].buffer, Window(contents, position, n))] + rest.0, rest.1)
  }

  /** `forEachIoVecFill` with the `fd_read` callback: walk the vectors,
      skip the empty ones, and give each of the others the bytes it receives. */
  method ReadIntoVecs(contents: seq<byte>, position: nat, vecs: seq<IoVec>) returns (copies: seq<Copy>, end: nat)
    ensures (copies, end) == ReadVecs(contents, position, vecs)
  {
    ghost var r := ReadVecs(contents, position, vecs);
    copies, end := [], position;
    assert vecs[0..] == vecs && copies + r.0 == r.0;
    var i := 0;
    while i < |vecs|
      invariant 0 <= i <= |vecs|
      invariant r == (copies + ReadVecs(contents, end, vecs[i..]).0, ReadVecs(contents, end, vecs[i..]).1)
    {
      assert vecs[i..][0] == vecs[i] && vecs[i..][1..] == vecs[i + 1..];
      var vec := vecs[i];
      if vec.length != 0 {
        var n := ReadCount(|contents|, end, vec.length);
        var piece := Copy(vec.buffer, Window(contents, end, n));
        ghost var rest := ReadVecs(contents, end + n, vecs[i + 1..]);
        assert copies + ([piece] + rest.0) == (copies + [piece]) + rest.0;
        copies := copies + [piece];
        end := end + n;
      }
      i := i + 1;
    }
    assert vecs[i..] == [] && copies + [] == copies;
  }

  /** The bytes of the copies, back to back. */
  function Delivered(copies: seq<Copy>): seq<byte> {
    if copies == [] then [] else copies[0].bytes + Delivered(copies[1..])
  }

  function Destinations(copies: seq<Copy>): seq<nat> {
    if copies == [] then [] else [copies[0].dest] + Destinations(copies[1..])
  }

  /** Guest addresses of the vectors that are not skipped, in order. */
  function NonEmptyBuffers(vecs: seq<IoVec>): seq<nat> {
    if vecs == [] then []
    else if vecs[0].length == 0 then NonEmptyBuffers(vecs[1..])
    else [vecs[0].buffer as nat] + NonEmptyBuffers(vecs[1..])
  }

  /** What a read delivers: the file bytes from the cursor to the new cursor,
      in vector order, one copy per non-empty vector; the cursor never passes
      the end of the file, and a read comes up short only at the end of the
      file. From a cursor at or beyond the end, nothing is read. */
  lemma {:induction false} ReadVecsDelivers(contents: seq<byte>, position: nat, vecs: seq<IoVec>)
    ensures position <= ReadVecs(contents, position, vecs).1
    ensures position <= |contents| ==>
      && ReadVecs(contents, position, vecs).1 <= |contents|
      && Delivered(ReadVecs(contents, position, vecs).0) == contents[position..ReadVecs(contents, position, vecs).1]
    ensures position >= |contents| ==>
      ReadVecs(contents, position, vecs).1 == position && Delivered(ReadVecs(contents, position, vecs).0) == []
    ensures position <= |contents| ==>
      || ReadVecs(contents, position, vecs).1 == position + TotalLength(vecs)
      || ReadVecs(contents, position, vecs).1 == |contents|
    ensures Destinations(ReadVecs(contents, position, vecs).0) == NonEmptyBuffers(vecs)
  {
    if position <= |contents| {
      DeliveredInsideFile(contents, position, vecs);
    }
    if position >= |contents| {
      DeliveredPastEnd(contents, position, vecs);
    }
    DestinationsInOrder(contents, position, vecs);
  }

  lemma {:induction false} DeliveredInsideFile(contents: seq<byte>, position: nat, vecs: seq<IoVec>)
    requires position <= |contents|
    ensures Delivered(ReadVecs(contents, position, vecs).0) == contents[position..ReadVecs(contents, position, vecs).1]
    ensures || ReadVecs(contents, position, vecs).1 == position + TotalLength(vecs)
            || ReadVecs(contents, position, vecs).1 == |contents|
    decreases |vecs|
  {
    if vecs == [] {
    } else if vecs[0].length == 0 {
      DeliveredInsideFile(contents, position, vecs[1..]);
    } else {
      var n := ReadCount(|contents|, position, vecs[0].length);
      DeliveredInsideFile(contents, position + n, vecs[1..]);
      var rest := ReadVecs(contents, position + n, vecs[1..]);
      var copies := [Copy(vecs[0].buffer, Window(contents, position, n))] + rest.0;
      assert copies[0].bytes == Window(contents, position, n) && copies[1..] == rest.0;
      assert contents[position..rest.1] == contents[position..position + n] + contents[position + n..rest.1];
      if n < vecs[0].length {
        assert rest.1 == |contents|;
      }
    }
  }

  lemma {:induction false} DeliveredPastEnd(contents: seq<byte>, position: nat, vecs: seq<IoVec>)
    requires position >= |contents|
    ensures Delivered(ReadVecs(contents, position, vecs).0) == []
    decreases |vecs|
  {
    if vecs == [] {
    } else if vecs[0].length == 0 {
      DeliveredPastEnd(contents, position, vecs[1..]);
    } else {
      DeliveredPastEnd(contents, position, vecs[1..]);
      var rest := ReadVecs(contents, position, vecs[1..]);
      var copies := [Copy(vecs[0].buffer, Window(contents, position, 0))] + rest.0;
      assert copies[0].bytes == [] && copies[1..] == rest.0;
    }
  }

  lemma {:induction false} DestinationsInOrder(contents: seq<byte>, position: nat, vecs: seq<IoVec>)
    ensures Destinations(ReadVecs(contents, position, vecs).0) == NonEmptyBuffers(vecs)
    decreases |vecs|
  {
    if vecs == [] {
    } else if vecs[0].length == 0 {
      DestinationsInOrder(contents, position, vecs[1..]);
    } else {
      var n := ReadCount(|contents|, position, vecs[0].length);
      DestinationsInOrder(contents, position + n, vecs[1..]);
      var rest := ReadVecs(contents, position + n, vecs[1..]);
      var copies := [Copy(vecs[0].buffer, Window(contents, position, n))] + rest.0;
      assert copies[0].dest == vecs[0].buffer && copies[1..] == rest.0;
    }
  }

  /** Lengths of the vectors that are not skipped, in order. */
  function NonEmptyLengths(vecs: seq<IoVec>): (r: seq<nat>)
    ensures |r| == CountNonEmpty(vecs)
  {
    if vecs == [] then []
    else if vecs[0].length == 0 then NonEmptyLengths(vecs[1..])
    else [vecs[0].length as nat] + NonEmptyLengths(vecs[1..])
  }

  /** Copy k holds the `ReadCount` of length `lengths[k]` at the cursor the
      copies before it left, starting from `position`. */
  predicate CountsFollow(size: nat, position: nat, copies: seq<Copy>, lengths: seq<nat>) {
    && |copies| == |lengths|
    && forall k :: 0 <= k < |copies| ==>
         |copies[k].bytes| == ReadCount(size, position + |Delivered(copies[..k])|, lengths[k])
  }

  /** Each vector gets its own count: the k-th copy holds `ReadCount` bytes for
      the k-th non-empty vector, read at the cursor as the copies before it
      left it. So no copy is longer than its vector, and one comes up short
      only at the end of the file. */
  lemma {:induction false} ReadVecsPerVector(contents: seq<byte>, position: nat, vecs: seq<IoVec>)
    ensures CountsFollow(|contents|, position, ReadVecs(contents, position, vecs).0, NonEmptyLengths(vecs))
    decreases |vecs|
  {
    if vecs == [] {
    } else if vecs[0].length == 0 {
      ReadVecsPerVector(contents, position, vecs[1..]);
      assert ReadVecs(contents, position, vecs) == ReadVecs(contents, position, vecs[1..]);
      assert NonEmptyLengths(vecs) == NonEmptyLengths(vecs[1..]);
    } else {
      var n := ReadCount(|contents|, position, vecs[0].length);
      ReadVecsPerVector(contents, position + n, vecs[1..]);
      var rest := ReadVecs(contents, position + n, vecs[1..]);
      assert ReadVecs(contents, position, vecs).0 == [Copy(vecs[0].buffer, Window(contents, position, n))] + rest.0;
      assert NonEmptyLengths(vecs) == [vecs[0].length as nat] + NonEmptyLengths(vecs[1..]);
      CountsFollowCons(|contents|, position, Copy(vecs[0].buffer, Window(contents, position, n)), vecs[0].length, rest.0, NonEmptyLengths(vecs[1..]));
    }
  }

  lemma CountsFollowCons(size: nat, position: nat, first: Copy, length: nat, rest: seq<Copy>, lengths: seq<nat>)
    requires |first.bytes| == ReadCount(size, position, length)
    requires CountsFollow(size, position + |first.bytes|, rest, lengths)
    ensures CountsFollow(size, position, [first] + rest, [length] + lengths)
  {
    var copies := [first] + rest;
    forall k | 0 <= k < |copies|
      ensures |copies[k].bytes| == ReadCount(size, position + |Delivered(copies[..k])|, ([length] + lengths)[k])
    {
      if k == 0 {
        assert copies[..0] == [];
      } else {
        assert copies[..k][0] == first && copies[..k][1..] == rest[..k - 1];
        assert copies[k] == rest[k - 1];
      }
    }
  }

  /** The count `fd_read` reports is the distance the cursor moved. */
  lemma {:induction false} ReadVecsTotal(contents: seq<byte>, position: nat, vecs: seq<IoVec>)
    ensures |Delivered(ReadVecs(contents, position, vecs).0)| == ReadVecs(contents, position, vecs).1 - position
    decreases |vecs|
  {
    if vecs != [] {
      ReadVecsTotal(contents, position, vecs[1..]);
      var n := ReadCount(|contents|, position, vecs[0].length);
      ReadVecsTotal(contents, position + n, vecs[1..]);
      if vecs[0].length != 0 {
        var rest := ReadVecs(contents, position + n, vecs[1..]);
        var copies := [Copy(vecs[0].buffer, Window(contents, position, n))] + rest.0;
        assert copies[0].bytes == Window(contents, position, n) && copies[1..] == rest.0;
      }
    }
  }

  // ---------------------------------------------------------------- path_open

  /** Where the flag chain of `path_open` (without the create flag) leads:
      an error, or a handle to obtain after an optional truncation. `NullDeref`
      marks the path on which the code reads through a null node. */
  datatype OpenStep = Refuse(err: Errno) | Proceed(truncate: bool) | NullDeref

  /** The chain as written, given the flags and what the lookup found: nothing,
      or a node together with whether it is a directory. */
  function OpenDecisionAsWritten(openFlags: u16, found: Option<bool>): (r: OpenStep)
    ensures r.Proceed? ==> found.Some? && r.truncate == HasFlag(openFlags, OFLAG_TRUNC)
  {
    if HasFlag(openFlags, OFLAG_DIRECTORY) && found.None? then Refuse(ENOENT)
    else if HasFlag(openFlags, OFLAG_DIRECTORY) && !found.value then Refuse(ENOTDIR)
    else if HasFlag(openFlags, OFLAG_EXCL) && found.Some? then Refuse(EEXIST)
    else if !HasFlag(openFlags, OFLAG_EXCL) && found.None? then Refuse(ENOENT)
    else if HasFlag(openFlags, OFLAG_TRUNC) && found.None? then Refuse(ENOENT)
    else if HasFlag(openFlags, OFLAG_TRUNC) && found.value then Refuse(EISDIR)
    else if found.None? then NullDeref
    else Proceed(HasFlag(openFlags, OFLAG_TRUNC))
  }

  /** The chain with the missing-path case of the exclusive flag answered
      ENOENT: a handle is obtained exactly when the path exists, is a directory
      if one is demanded, is not demanded absent, and is not a directory to
      truncate. */
  function OpenDecision(openFlags: u16, found: Option<bool>): (r: OpenStep)
    ensures !r.NullDeref?
    ensures r.Proceed? <==>
      && found.Some?
      && (HasFlag(openFlags, OFLAG_DIRECTORY) ==> found.value)
      && !HasFlag(openFlags, OFLAG_EXCL)
      && (HasFlag(openFlags, OFLAG_TRUNC) ==> !found.value)
    ensures r.Proceed? ==> r.truncate == HasFlag(openFlags, OFLAG_TRUNC)
    ensures found.None? ==> r == Refuse(ENOENT)
    ensures r == Refuse(EEXIST) <==> found.Some? && HasFlag(openFlags, OFLAG_EXCL)
                                     && (HasFlag(openFlags, OFLAG_DIRECTORY) ==> found.value)
    ensures r == Refuse(ENOTDIR) <==> found.Some? && HasFlag(openFlags, OFLAG_DIRECTORY) && !found.value
    ensures r == Refuse(EISDIR) <==> found.Some? && found.value && !HasFlag(openFlags, OFLAG_EXCL) && HasFlag(openFlags, OFLAG_TRUNC)
  {
    if found.None? then Refuse(ENOENT)
    else if HasFlag(openFlags, OFLAG_DIRECTORY) && !found.value then Refuse(ENOTDIR)
    else if HasFlag(openFlags, OFLAG_EXCL) then Refuse(EEXIST)
    else if HasFlag(openFlags, OFLAG_TRUNC) && found.value then Refuse(EISDIR)
    else Proceed(HasFlag(openFlags, OFLAG_TRUNC))
  }

  /** The code reads through a null node exactly when the exclusive flag meets
      a missing path with neither the directory nor the truncate flag set; on
      every other input it decides as the corrected chain does. */
  lemma OpenNullDerefExactly(openFlags: u16, found: Option<bool>)
    ensures OpenDecisionAsWritten(openFlags, found).NullDeref? <==>
      && found.None? && HasFlag(openFlags, OFLAG_EXCL)
      && !HasFlag(openFlags, OFLAG_DIRECTORY) && !HasFlag(openFlags, OFLAG_TRUNC)
    ensures !OpenDecisionAsWritten(openFlags, found).NullDeref? ==>
      OpenDecisionAsWritten(openFlags, found) == OpenDecision(openFlags, found)
  {
  }

  /** `path_open` of a missing path with only the exclusive flag. */
  lemma OpenExclusiveMissingExample()
    ensures OpenDecisionAsWritten(OFLAG_EXCL as u16, None) == NullDeref
    ensures OpenDecision(OFLAG_EXCL as u16, None) == Refuse(ENOENT)
  {
  }

  // ------------------------------------------------- stateless entry points

  /** `fd_prestat_get`: descriptor 3 is the one pre-opened directory, with a
      one-byte name; every other descriptor is refused. The slot itself is not
      consulted, so the answer survives closing descriptor 3. */
  function PrestatGet(fd: u32): (r: (Errno, Option<Prestat>))
    ensures r.0 == ESUCCESS <==> fd == 3
    ensures r.0 != ESUCCESS ==> r == (EBADF, None)
    ensures r.0 == ESUCCESS ==> r.1 == Some(Prestat(0, 1))
  {
    if fd != 3 then (EBADF, None) else (ESUCCESS, Some(Prestat(0, 1)))
  }

  /** `fd_prestat_dir_name`: the bytes stored at the guest buffer, the C
      string "/" with its terminator, cut to the buffer length. */
  function PrestatDirName(fd: u32, pathLength: u32): (r: (Errno, seq<byte>))
    ensures r.0 == ESUCCESS <==> fd == 3
    ensures r.0 != ESUCCESS ==> r == (EBADF, [])
    ensures r.0 == ESUCCESS ==> r.1 <= [SLASH, NUL] && |r.1| == (if pathLength < 2 then pathLength else 2)
  {
    if fd != 3 then (EBADF, [])
    else (ESUCCESS, [SLASH, NUL][..if pathLength < 2 then pathLength else 2])
  }

  /** `clock_res_get`: the host's resolution in nanoseconds, stored as a 64-bit
      value; a clock the host reports with resolution 0 is not supported. */
  function ClockResGet(hostResolution: u32): (r: (Errno, Option<u64>))
    ensures r.0 == ENOTCAPABLE <==> hostResolution == 0
    ensures r.0 != ENOTCAPABLE ==> r == (ESUCCESS, Some(hostResolution as u64))
    ensures r.0 == ENOTCAPABLE ==> r.1 == None
  {
    if hostResolution == 0 then (ENOTCAPABLE, None) else (ESUCCESS, Some(hostResolution as u64))
  }

  /** The entry points of the VFS implementation that hold no state and write
      nothing to the guest. */
  datatype Unsupported =
    | FdAdvise | FdDatasync | FdPread | FdPwrite | FdReaddir | FdRenumber | FdSync
    | PathLink | PathReadlink | PathRemoveDirectory | PathRename | PathSymlink | PathUnlinkFile
    | PollOneoff | ProcRaise | SchedYield | SockAccept | SockRecv | SockSend | SockShutdown

  /** Their answers: `path_readlink` says EINVAL (there are no links to read),
      every other one ENOTCAPABLE. */
  function UnsupportedResult(call: Unsupported): (r: Errno)
    ensures r == EINVAL <==> call == PathReadlink
    ensures r == ENOTCAPABLE <==> call != PathReadlink
  {
    if call == PathReadlink then EINVAL else ENOTCAPABLE
  }
}
