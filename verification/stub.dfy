/** The console-only implementation: standard output and standard error are
    line-buffered to the host, the argument and environment lists are empty,
    `random_get` is served by the host, and every other entry point answers
    ENOTCAPABLE without touching the guest. */
module StubWasi {
  import opened Abi
  import opened IoVecs
  import opened LineBuffer

  /** The entry points that are plain stubs in this implementation. */
  datatype StubCall =
    | ClockResGet | ClockTimeGet
    | FdAdvise | FdAllocate | FdClose | FdDatasync | FdFdstatGet | FdFdstatSetFlags | FdFdstatSetRights
    | FdFilestatGet | FdFilestatSetSize | FdFilestatSetTimes | FdPread | FdPrestatGet | FdPrestatDirName
    | FdPwrite | FdRead | FdReaddir | FdRenumber | FdSeek | FdSync | FdTell
    | PathCreateDirectory | PathFilestatGet | PathFilestatSetTimes | PathLink | PathOpen | PathReadlink
    | PathRemoveDirectory | PathRename | PathSymlink | PathUnlinkFile
    | PollOneoff | ProcRaise | SchedYield | SockAccept | SockRecv | SockSend | SockShutdown

  /** A stub's answer, together with what it stores in guest memory. */
  function StubResult(call: StubCall): (r: (Errno, seq<Copy>))
    ensures r.0 == ENOTCAPABLE && r.0 != ESUCCESS && r.1 == []
  {
    (ENOTCAPABLE, [])
  }

  /** The two console streams of this implementation. */
  class Console {
    /** `stdoutLineBuffer` / `stderrLineBuffer`. */
    var stdoutBuffer: seq<byte>
    var stderrBuffer: seq<byte>
    /** The lines handed to `sendStdoutLine` / `sendStderrLine`, in order. */
    var stdoutLines: seq<seq<byte>>
    var stderrLines: seq<seq<byte>>

    predicate Valid()
      reads this
    {
      NoNewline(stdoutBuffer) && NoNewline(stderrBuffer)
    }

    constructor()
      ensures Valid()
      ensures stdoutBuffer == [] && stderrBuffer == [] && stdoutLines == [] && stderrLines == []
    {
      stdoutBuffer, stderrBuffer := [], [];
      stdoutLines, stderrLines := [], [];
    }

    /** `fd_write`: descriptors 1 and 2 feed their stream's line buffer with
        every vector in order; the count is the sum of the lengths, cut to 32
        bits. Any other descriptor is refused. */
    method FdWrite(fd: u32, mem: seq<byte>, vecs: seq<IoVec>) returns (err: Errno, written: Option<u32>)
      requires Valid() && InBounds(mem, vecs)
      modifies this
      ensures Valid()
      ensures fd == 1 ==>
        var fed := Feed(old(stdoutBuffer), Flatten(Payloads(mem, vecs)));
        && err == ESUCCESS && written == Some(TotalLength(vecs) % U32_LIMIT)
        && stdoutLines == old(stdoutLines) + fed.0 && stdoutBuffer == fed.1
        && stderrLines == old(stderrLines) && stderrBuffer == old(stderrBuffer)
      ensures fd == 2 ==>
        var fed := Feed(old(stderrBuffer), Flatten(Payloads(mem, vecs)));
        && err == ESUCCESS && written == Some(TotalLength(vecs) % U32_LIMIT)
        && stderrLines == old(stderrLines) + fed.0 && stderrBuffer == fed.1
        && stdoutLines == old(stdoutLines) && stdoutBuffer == old(stdoutBuffer)
      ensures fd != 1 && fd != 2 ==>
        && err == ENOTCAPABLE && written == None
        && stdoutLines == old(stdoutLines) && stdoutBuffer == old(stdoutBuffer)
        && stderrLines == old(stderrLines) && stderrBuffer == old(stderrBuffer)
    {
      if fd != 1 && fd != 2 {
        return ENOTCAPABLE, None;
      }
      var chunks := ForEachIoVec(mem, vecs);
      assert chunks == Payloads(mem, vecs);
      SkippingEmptyIsHarmless(mem, vecs);
      var lines, rest, total;
      if fd == 1 {
        lines, rest, total := FeedChunks(stdoutBuffer, chunks);
        FeedLines(stdoutBuffer, Flatten(chunks));
        stdoutLines, stdoutBuffer := stdoutLines + lines, rest;
      } else {
        lines, rest, total := FeedChunks(stderrBuffer, chunks);
        FeedLines(stderrBuffer, Flatten(chunks));
        stderrLines, stderrBuffer := stderrLines + lines, rest;
      }
      return ESUCCESS, Some(total);
    }
  }
}
