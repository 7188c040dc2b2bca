/** The VFS implementation of the `wasi_snapshot_preview1` entry points: one
    object holding the file tree, the descriptor table, the staged loader path
    and the two console streams, with one method per stateful entry point. */
module VfsWasi {
  import opened Abi
  import opened IoVecs
  import opened LineBuffer
  import opened Vfs
  import opened Handles
  import opened Dispatch
  import opened PathOpen

  class Wasi {
    /** `vfsRoot` and everything below it; index 0 is the root. */
    var nodes: Arena
    /** `vfsHandles`. */
    var handles: seq<Handle>
    /** `pendingPath`, staged by `vfs_setPath` for `vfs_createFile`. */
    var pendingPath: seq<byte>
    /** `stdoutLineBuffer` / `stderrLineBuffer`: the partial lines. */
    var stdoutBuffer: seq<byte>
    var stderrBuffer: seq<byte>
    /** The lines handed to `sendStdoutLine` / `sendStderrLine`, in order. */
    var stdoutLines: seq<seq<byte>>
    var stderrLines: seq<seq<byte>>

    predicate Valid()
      reads this
    {
      && ArenaOk(nodes) && TableOk(handles, |nodes|)
      && NoNewline(stdoutBuffer) && NoNewline(stderrBuffer)
    }

    /** Both console streams: buffers and emitted lines. */
    function Console(): (seq<byte>, seq<byte>, seq<seq<byte>>, seq<seq<byte>>)
      reads this
    {
      (stdoutBuffer, stderrBuffer, stdoutLines, stderrLines)
    }

    /** Process start: an empty root directory, the three error slots and the
        root descriptor, nothing staged, nothing buffered. */
    constructor()
      ensures Valid()
      ensures nodes == [EmptyDir([])] && handles == InitialTable() && pendingPath == []
      ensures Console() == ([], [], [], [])
    {
      nodes := [EmptyDir([])];
      handles := InitialTable();
      pendingPath := [];
      stdoutBuffer, stderrBuffer := [], [];
      stdoutLines, stderrLines := [], [];
    }

    // ------------------------------------------------------------ tree walking

    /** `VfsNode::get` on node `dir`: scan the children in order, and append a
        new empty directory if none has the name and creation is asked for. */
    method Get(dir: nat, name: Name, create: bool) returns (found: Option<nat>)
      requires Valid() && dir < |nodes|
      modifies this
      ensures Valid()
      ensures (nodes, found) == GetChild(old(nodes), dir, name, create)
      ensures handles == old(handles) && pendingPath == old(pendingPath) && Console() == old(Console())
    {
      assert NodeOk(nodes[dir], |nodes|);
      found := ScanChildren(nodes, nodes[dir].children, name);
      if found.Some? {
        return;
      }
      if create {
        ghost var step := GetChild(nodes, dir, name, true);
        var index := |nodes|;
        nodes := nodes[dir := nodes[dir].(children := nodes[dir].children + [index])] + [EmptyDir(name)];
        assert nodes == step.0;
        TableOkWider(handles, index, |nodes|);
        found := Some(index);
      } else {
        found := None;
      }
    }

    /** `vfsGet`: walk the pieces of the path from the root, stopping at the
        first one that is missing. */
    method VfsGet(path: seq<byte>, create: bool) returns (found: Option<nat>)
      requires Valid()
      modifies this
      ensures Valid()
      ensures (nodes, found) == Walk(old(nodes), ROOT, Split(path), create)
      ensures handles == old(handles) && pendingPath == old(pendingPath) && Console() == old(Console())
    {
      var segs := Split(path);
      found := Some(ROOT);
      var i := 0;
      while found.Some? && i < |segs|
        invariant Valid() && 0 <= i <= |segs|
        invariant handles == old(handles) && pendingPath == old(pendingPath) && Console() == old(Console())
        invariant found.Some? ==>
          found.value < |nodes| && Walk(old(nodes), ROOT, segs, create) == Walk(nodes, found.value, segs[i..], create)
        invariant found.None? ==> Walk(old(nodes), ROOT, segs, create) == (nodes, None)
      {
        assert segs[i..][0] == segs[i] && segs[i..][1..] == segs[i + 1..];
        found := Get(found.value, segs[i], create);
        i := i + 1;
      }
    }

    /** `vfsObtainFileHandle`: reuse the first closed slot from 4 up, or append. */
    method ObtainFileHandle(node: nat, stat: FdStat) returns (fd: nat)
      requires Valid() && node < |nodes|
      modifies this
      ensures Valid()
      ensures (handles, fd) == Obtain(old(handles), node, stat)
      ensures nodes == old(nodes) && pendingPath == old(pendingPath) && Console() == old(Console())
    {
      ObtainKeepsTableOk(handles, |nodes|, node, stat);
      var i := FIRST_OPEN_FD;
      while i < |handles|
        invariant FIRST_OPEN_FD <= i <= |handles|
        invariant forall j :: FIRST_OPEN_FD <= j < i ==> handles[j].Live?
      {
        if handles[i].ErrorSlot? {
          FirstFreeFinds(handles, FIRST_OPEN_FD, i);
          handles := handles[i := Live(node, stat, 0)];
          return i;
        }
        i := i + 1;
      }
      fd := |handles|;
      handles := handles + [Live(node, stat, 0)];
    }

    // ------------------------------------------------------------ the loader

    /** `vfs_setPath`, with the bytes the host writes into the buffer. */
    method VfsSetPath(path: seq<byte>)
      requires Valid()
      modifies this
      ensures Valid()
      ensures pendingPath == path
      ensures nodes == old(nodes) && handles == old(handles) && Console() == old(Console())
    {
      pendingPath := path;
    }

    /** `vfs_createFile`, with the bytes the host writes into the buffer. */
    method VfsCreateFile(data: seq<byte>) returns (created: Option<nat>)
      requires Valid() && |data| < U32_LIMIT
      modifies this
      ensures Valid()
      ensures (nodes, created) == CreateFile(old(nodes), old(pendingPath), data)
      ensures handles == old(handles) && pendingPath == old(pendingPath) && Console() == old(Console())
    {
      if pendingPath == [] || pendingPath[0] != SLASH {
        return None;
      }
      created := VfsGet(pendingPath[1..], true);
      var node := created.value;
      nodes := nodes[node := nodes[node].(isDir := false, children := [], contents := data)];
      assert ArenaOk(nodes);
    }

    // ------------------------------------------------------------ fd_* entry points

    /** `fd_allocate`: the offset and length are cut to the 32-bit `size_t`. */
    method FdAllocate(fd: u32, offset: i64, length: i64) returns (err: Errno)
      requires Valid()
      requires HandleAt(handles, fd).Live? && !nodes[HandleAt(handles, fd).node].isDir ==>
        && ToSize(offset) <= |nodes[HandleAt(handles, fd).node].contents|
        && |nodes[HandleAt(handles, fd).node].contents| + ToSize(length) < U32_LIMIT
      modifies this
      ensures Valid()
      ensures HandleAt(old(handles), fd).ErrorSlot? ==> err == HandleAt(old(handles), fd).error && nodes == old(nodes)
      ensures HandleAt(old(handles), fd).Live? ==>
        var node := HandleAt(old(handles), fd).node;
        var result := Allocate(old(nodes)[node], ToSize(offset), ToSize(length));
        err == result.0 && nodes == old(nodes)[node := result.1]
      ensures handles == old(handles) && pendingPath == old(pendingPath) && Console() == old(Console())
    {
      var h := HandleAt(handles, fd);
      if h.ErrorSlot? {
        return h.error;
      }
      var result := Allocate(nodes[h.node], ToSize(offset), ToSize(length));
      var updated := result.1;
      err := result.0;
      nodes := nodes[h.node := updated];
      assert NodeOk(updated, |nodes|) by {
        assert NodeOk(old(nodes)[h.node], |nodes|);
      }
      assert ArenaOk(nodes) by {
        forall i | 0 <= i < |nodes| ensures NodeOk(nodes[i], |nodes|) {
          if i != h.node { assert nodes[i] == old(nodes)[i]; }
        }
      }
    }

    /** `fd_close`. */
    method FdClose(fd: u32) returns (err: Errno)
      requires Valid()
      modifies this
      ensures Valid()
      ensures (err, handles) == Close(old(handles), fd)
      ensures nodes == old(nodes) && pendingPath == old(pendingPath) && Console() == old(Console())
    {
      var h := HandleAt(handles, fd);
      if h.ErrorSlot? {
        return h.error;
      }
      handles := handles[fd := INVALID_HANDLE];
      err := ESUCCESS;
      CloseKeepsTableOk(old(handles), |nodes|, fd);
    }

    /** `fd_fdstat_get`: the snapshot kept in the handle. */
    method FdFdstatGet(fd: u32) returns (err: Errno, stat: Option<FdStat>)
      requires Valid()
      ensures HandleAt(handles, fd).ErrorSlot? ==> err == HandleAt(handles, fd).error && stat == None
      ensures HandleAt(handles, fd).Live? ==> err == ESUCCESS && stat == Some(handles[fd].stat)
      ensures err == ESUCCESS <==> fd >= ROOT_FD && fd < |handles| && handles[fd].Live?
    {
      var h := HandleAt(handles, fd);
      if h.ErrorSlot? {
        return h.error, None;
      }
      return ESUCCESS, Some(h.stat);
    }

    /** `fd_fdstat_set_flags`: only the handle's snapshot changes. */
    method FdFdstatSetFlags(fd: u32, flags: u16) returns (err: Errno)
      requires Valid()
      modifies this
      ensures Valid()
      ensures HandleAt(old(handles), fd).ErrorSlot? ==> err == HandleAt(old(handles), fd).error && handles == old(handles)
      ensures HandleAt(old(handles), fd).Live? ==>
        && err == ESUCCESS
        && handles == old(handles)[fd := old(handles)[fd].(stat := old(handles)[fd].stat.(flags := flags))]
      ensures nodes == old(nodes) && pendingPath == old(pendingPath) && Console() == old(Console())
    {
      var h := HandleAt(handles, fd);
      if h.ErrorSlot? {
        return h.error;
      }
      handles := handles[fd := h.(stat := h.stat.(flags := flags))];
      err := ESUCCESS;
    }

    /** `fd_fdstat_set_rights`: only the handle's snapshot changes. */
    method FdFdstatSetRights(fd: u32, rightsBase: u64, rightsInheriting: u64) returns (err: Errno)
      requires Valid()
      modifies this
      ensures Valid()
      ensures HandleAt(old(handles), fd).ErrorSlot? ==> err == HandleAt(old(handles), fd).error && handles == old(handles)
      ensures HandleAt(old(handles), fd).Live? ==>
        && err == ESUCCESS
        && handles == old(handles)[fd := old(handles)[fd].(stat := old(handles)[fd].stat.(rightsBase := rightsBase, rightsInheriting := rightsInheriting))]
      ensures nodes == old(nodes) && pendingPath == old(pendingPath) && Console() == old(Console())
    {
      var h := HandleAt(handles, fd);
      if h.ErrorSlot? {
        return h.error;
      }
      handles := handles[fd := h.(stat := h.stat.(rightsBase := rightsBase, rightsInheriting := rightsInheriting))];
      err := ESUCCESS;
    }

    /** `fd_filestat_get`: the node's `stat()`. */
    method FdFilestatGet(fd: u32) returns (err: Errno, stat: Option<FileStat>)
      requires Valid()
      ensures HandleAt(handles, fd).ErrorSlot? ==> err == HandleAt(handles, fd).error && stat == None
      ensures HandleAt(handles, fd).Live? ==>
        && err == ESUCCESS && stat.Some?
        && stat.value.filetype == (if nodes[handles[fd].node].isDir then FILETYPE_DIRECTORY else FILETYPE_REGULAR)
        && stat.value == StatOf(nodes[handles[fd].node])
    {
      var h := HandleAt(handles, fd);
      if h.ErrorSlot? {
        return h.error, None;
      }
      return ESUCCESS, Some(StatOf(nodes[h.node]));
    }

    /** `fd_filestat_set_size`: the cursor is lowered to the requested size
        first, even when the node then refuses as a directory; the file takes
        the size cut to 32 bits. */
    method FdFilestatSetSize(fd: u32, size: u64) returns (err: Errno)
      requires Valid()
      modifies this
      ensures Valid()
      ensures HandleAt(old(handles), fd).ErrorSlot? ==>
        err == HandleAt(old(handles), fd).error && handles == old(handles) && nodes == old(nodes)
      ensures HandleAt(old(handles), fd).Live? ==>
        var h := old(handles)[fd];
        var result := SetSize(old(nodes)[h.node], ToSize(size));
        && handles == old(handles)[fd := h.(position := ClampCursor(h.position, size))]
        && err == result.0 && nodes == old(nodes)[h.node := result.1]
      ensures pendingPath == old(pendingPath) && Console() == old(Console())
    {
      var h := HandleAt(handles, fd);
      if h.ErrorSlot? {
        return h.error;
      }
      if h.position > size {
        handles := handles[fd := h.(position := size)];
      }
      var result := SetSize(nodes[h.node], ToSize(size));
      var updated := result.1;
      err := result.0;
      nodes := nodes[h.node := updated];
      assert ArenaOk(nodes) by {
        forall i | 0 <= i < |nodes| ensures NodeOk(nodes[i], |nodes|) {
          if i != h.node { assert nodes[i] == old(nodes)[i]; }
        }
      }
    }

    /** `fd_filestat_set_times`: the flags pick which of the two times change. */
    method FdFilestatSetTimes(fd: u32, aTime: u64, mTime: u64, flags: u16) returns (err: Errno)
      requires Valid()
      modifies this
      ensures Valid()
      ensures HandleAt(old(handles), fd).ErrorSlot? ==> err == HandleAt(old(handles), fd).error && nodes == old(nodes)
      ensures HandleAt(old(handles), fd).Live? ==>
        var node := old(handles)[fd].node;
        err == ESUCCESS && nodes == old(nodes)[node := Touch(old(nodes)[node], aTime, mTime, flags)]
      ensures handles == old(handles) && pendingPath == old(pendingPath) && Console() == old(Console())
    {
      var h := HandleAt(handles, fd);
      if h.ErrorSlot? {
        return h.error;
      }
      nodes := nodes[h.node := Touch(nodes[h.node], aTime, mTime, flags)];
      err := ESUCCESS;
      assert ArenaOk(nodes) by {
        forall i | 0 <= i < |nodes| ensures NodeOk(nodes[i], |nodes|) {
          if i != h.node { assert nodes[i] == old(nodes)[i]; }
        }
      }
    }

    /** `fd_read`: the vectors are filled in order from the cursor, zero-length
        ones skipped, and the cursor moves past what was read. */
    method FdRead(fd: u32, vecs: seq<IoVec>) returns (err: Errno, copies: seq<Copy>, bytesRead: Option<u32>)
      requires Valid()
      modifies this
      ensures Valid()
      ensures nodes == old(nodes) && pendingPath == old(pendingPath) && Console() == old(Console())
      ensures HandleAt(old(handles), fd).ErrorSlot? ==>
        err == HandleAt(old(handles), fd).error && copies == [] && bytesRead == None && handles == old(handles)
      ensures HandleAt(old(handles), fd).Live? && nodes[old(handles)[fd].node].isDir ==>
        err == EISDIR && copies == [] && bytesRead == None && handles == old(handles)
      ensures HandleAt(old(handles), fd).Live? && !nodes[old(handles)[fd].node].isDir ==>
        var h := old(handles)[fd];
        var r := ReadVecs(nodes[h.node].contents, h.position, vecs);
        && err == ESUCCESS && copies == r.0
        && bytesRead.Some? && bytesRead.value == r.1 - h.position
        && |handles| == |old(handles)| && handles[fd].Live? && handles[fd].position == r.1
        && handles == old(handles)[fd := h.(position := handles[fd].position)]
    {
      var h := HandleAt(handles, fd);
      if h.ErrorSlot? {
        return h.error, [], None;
      }
      if nodes[h.node].isDir {
        return EISDIR, [], None;
      }
      var contents := nodes[h.node].contents;
      ReadVecsDelivers(contents, h.position, vecs);
      var position;
      copies, position := ReadIntoVecs(contents, h.position, vecs);
      handles := handles[fd := h.(position := position)];
      err, bytesRead := ESUCCESS, Some(position - h.position);
    }

    /** `fd_seek`: the new position is computed in unsigned 64-bit arithmetic
        and lowered to the file size; it is stored and reported. */
    method FdSeek(fd: u32, delta: i64, whence: byte) returns (err: Errno, newOffset: Option<u64>)
      requires Valid()
      modifies this
      ensures Valid()
      ensures nodes == old(nodes) && pendingPath == old(pendingPath) && Console() == old(Console())
      ensures HandleAt(old(handles), fd).ErrorSlot? ==>
        err == HandleAt(old(handles), fd).error && newOffset == None && handles == old(handles)
      ensures HandleAt(old(handles), fd).Live? && nodes[old(handles)[fd].node].isDir ==>
        err == EISDIR && newOffset == None && handles == old(handles)
      ensures HandleAt(old(handles), fd).Live? && !nodes[old(handles)[fd].node].isDir ==>
        var h := old(handles)[fd];
        var p := SeekPosition(|nodes[h.node].contents|, h.position, delta, whence);
        && err == ESUCCESS && newOffset == Some(p)
        && handles == old(handles)[fd := h.(position := p)]
    {
      var h := HandleAt(handles, fd);
      if h.ErrorSlot? {
        return h.error, None;
      }
      if nodes[h.node].isDir {
        return EISDIR, None;
      }
      var size := |nodes[h.node].contents|;
      var position: u64;
      if whence == WHENCE_CUR {
        position := (h.position + delta) % U64_LIMIT;
      } else if whence == WHENCE_END {
        position := (size + delta) % U64_LIMIT;
      } else {
        position := delta % U64_LIMIT;
      }
      if position > size {
        position := size;
      }
      handles := handles[fd := h.(position := position)];
      return ESUCCESS, Some(position);
    }

    /** `fd_tell`: the cursor of any live handle, directories included. */
    method FdTell(fd: u32) returns (err: Errno, offset: Option<u64>)
      requires Valid()
      ensures HandleAt(handles, fd).ErrorSlot? ==> err == HandleAt(handles, fd).error && offset == None
      ensures HandleAt(handles, fd).Live? ==> err == ESUCCESS && offset == Some(handles[fd].position)
    {
      var h := HandleAt(handles, fd);
      if h.ErrorSlot? {
        return h.error, None;
      }
      return ESUCCESS, Some(h.position);
    }

    /** `fd_write`: only the console streams are writable. Their bytes go
        through the line buffer; the count covers every byte, newlines
        included, cut to 32 bits. */
    method FdWrite(fd: u32, mem: seq<byte>, vecs: seq<IoVec>) returns (err: Errno, written: Option<u32>)
      requires Valid() && InBounds(mem, vecs)
      modifies this
      ensures Valid()
      ensures fd == 1 ==>
        var fed := Feed(old(stdoutBuffer), Flatten(Payloads(mem, vecs)));
        && err == ESUCCESS && written == Some(TotalLength(vecs) % U32_LIMIT)
        && stdoutLines == old(stdoutLines) + fed.0 && stdoutBuffer == fed.1
        && stderrLines == old(stderrLines) && stderrBuffer == old(stderrBuffer)
      ensures fd == 2 ==>
        var fed := Feed(old(stderrBuffer), Flatten(Payloads(mem, vecs)));
        && err == ESUCCESS && written == Some(TotalLength(vecs) % U32_LIMIT)
        && stderrLines == old(stderrLines) + fed.0 && stderrBuffer == fed.1
        && stdoutLines == old(stdoutLines) && stdoutBuffer == old(stdoutBuffer)
      ensures fd != 1 && fd != 2 ==> err == ENOTCAPABLE && written == None && Console() == old(Console())
      ensures nodes == old(nodes) && handles == old(handles) && pendingPath == old(pendingPath)
    {
      if fd != 1 && fd != 2 {
        return ENOTCAPABLE, None;
      }
      var chunks := ForEachIoVecRead(mem, vecs);
      SkippingEmptyIsHarmless(mem, vecs);
      var lines, rest, total;
      if fd == 1 {
        lines, rest, total := FeedChunks(stdoutBuffer, chunks);
        FeedLines(stdoutBuffer, Flatten(chunks));
        stdoutLines, stdoutBuffer := stdoutLines + lines, rest;
      } else {
        lines, rest, total := FeedChunks(stderrBuffer, chunks);
        FeedLines(stderrBuffer, Flatten(chunks));
        stderrLines, stderrBuffer := stderrLines + lines, rest;
      }
      return ESUCCESS, Some(total);
    }

    // ------------------------------------------------------------ path_* entry points

    /** `path_create_directory`: the name must be a single piece; it is
        created under the descriptor's own node. */
    method PathCreateDirectory(fd: u32, name: seq<byte>) returns (err: Errno)
      requires Valid()
      modifies this
      ensures Valid()
      ensures HandleAt(old(handles), fd).ErrorSlot? ==> err == HandleAt(old(handles), fd).error && nodes == old(nodes)
      ensures HandleAt(old(handles), fd).Live? ==> (err, nodes) == MakeDir(old(nodes), old(handles)[fd].node, name)
      ensures handles == old(handles) && pendingPath == old(pendingPath) && Console() == old(Console())
    {
      var h := HandleAt(handles, fd);
      if h.ErrorSlot? {
        return h.error;
      }
      var i := 0;
      while i < |name|
        invariant 0 <= i <= |name|
        invariant forall j :: 0 <= j < i ==> name[j] != SLASH && name[j] != NUL
      {
        if name[i] == SLASH || name[i] == NUL {
          return EINVAL;
        }
        i := i + 1;
      }
      var existing := Get(h.node, name, false);
      if existing.Some? {
        return EEXIST;
      }
      var created := Get(h.node, name, true);
      err := ESUCCESS;
    }

    /** `path_filestat_get`: the descriptor is checked, the path resolved from
        the root. */
    method PathFilestatGet(fd: u32, path: seq<byte>) returns (err: Errno, stat: Option<FileStat>)
      requires Valid()
      modifies this
      ensures Valid()
      ensures HandleAt(old(handles), fd).ErrorSlot? ==> err == HandleAt(old(handles), fd).error && stat == None
      ensures HandleAt(old(handles), fd).Live? && Lookup(old(nodes), path).None? ==> err == ENOENT && stat == None
      ensures HandleAt(old(handles), fd).Live? && Lookup(old(nodes), path).Some? ==>
        err == ESUCCESS && stat == Some(StatOf(old(nodes)[Lookup(old(nodes), path).value]))
      ensures nodes == old(nodes) && handles == old(handles) && pendingPath == old(pendingPath) && Console() == old(Console())
    {
      var h := HandleAt(handles, fd);
      if h.ErrorSlot? {
        return h.error, None;
      }
      var found := VfsGet(path, false);
      if found.None? {
        return ENOENT, None;
      }
      return ESUCCESS, Some(StatOf(nodes[found.value]));
    }

    /** `path_filestat_set_times`: no descriptor check at all; the path is
        resolved from the root. */
    method PathFilestatSetTimes(path: seq<byte>, aTime: u64, mTime: u64, flags: u16) returns (err: Errno)
      requires Valid()
      modifies this
      ensures Valid()
      ensures Lookup(old(nodes), path).None? ==> err == ENOENT && nodes == old(nodes)
      ensures Lookup(old(nodes), path).Some? ==>
        var node := Lookup(old(nodes), path).value;
        err == ESUCCESS && nodes == old(nodes)[node := Touch(old(nodes)[node], aTime, mTime, flags)]
      ensures handles == old(handles) && pendingPath == old(pendingPath) && Console() == old(Console())
    {
      var found := VfsGet(path, false);
      if found.None? {
        return ENOENT;
      }
      var node := found.value;
      nodes := nodes[node := Touch(nodes[node], aTime, mTime, flags)];
      err := ESUCCESS;
      assert ArenaOk(nodes) by {
        forall i | 0 <= i < |nodes| ensures NodeOk(nodes[i], |nodes|) {
          if i != node { assert nodes[i] == old(nodes)[i]; }
        }
      }
    }

    /** `path_open`. */
    method PathOpen(dirFd: u32, path: seq<byte>, openFlags: u16, rightsBase: u64, rightsInheriting: u64, fsFlags: u16)
      returns (err: Errno, newFd: Option<nat>)
      requires Valid()
      modifies this
      ensures Valid()
      ensures Opened(err, nodes, handles, newFd) == Open(old(nodes), old(handles), dirFd, path, openFlags, rightsBase, rightsInheriting, fsFlags)
      ensures pendingPath == old(pendingPath) && Console() == old(Console())
    {
      var dir := HandleAt(handles, dirFd);
      if dir.ErrorSlot? {
        return dir.error, None;
      }
      if !nodes[dir.node].isDir {
        return EINVAL, None;
      }
      var stat := FdStat(FILETYPE_REGULAR, fsFlags, rightsBase, rightsInheriting);
      if HasFlag(openFlags, OFLAG_CREAT) {
        var fd := OpenCreatingPath(path, stat);
        return ESUCCESS, Some(fd);
      }
      var found := VfsGet(path, false);
      var step := OpenDecision(openFlags, Kind(nodes, found));
      if step.Refuse? {
        return step.err, None;
      }
      var node := found.value;
      stat := stat.(filetype := if nodes[node].isDir then FILETYPE_DIRECTORY else FILETYPE_REGULAR);
      var fd := OpenFoundNode(node, step.truncate, stat, HasFlag(fsFlags, FDFLAG_APPEND));
      return ESUCCESS, Some(fd);
    }

    /** The create branch of `path_open`. */
    method OpenCreatingPath(path: seq<byte>, stat: FdStat) returns (fd: nat)
      requires Valid()
      modifies this
      ensures Valid()
      ensures Opened(ESUCCESS, nodes, handles, Some(fd)) == OpenCreating(old(nodes), old(handles), path, stat)
      ensures pendingPath == old(pendingPath) && Console() == old(Console())
    {
      var made := VfsGet(path, true);
      fd := ObtainFileHandle(made.value, stat);
    }

    /** The end of `path_open` once the flag chain lets the open proceed. */
    method OpenFoundNode(node: nat, truncate: bool, stat: FdStat, append: bool) returns (fd: nat)
      requires Valid() && node < |nodes|
      modifies this
      ensures Valid()
      ensures Opened(ESUCCESS, nodes, handles, Some(fd)) == OpenFound(old(nodes), old(handles), node, truncate, stat, append)
      ensures pendingPath == old(pendingPath) && Console() == old(Console())
    {
      if truncate {
        nodes := nodes[node := SetSize(nodes[node], 0).1];
        assert ArenaOk(nodes) by {
          forall i | 0 <= i < |nodes| ensures NodeOk(nodes[i], |nodes|) {
            if i != node { assert nodes[i] == old(nodes)[i]; }
          }
        }
      }
      fd := ObtainFileHandle(node, stat);
      if append {
        handles := handles[fd := Live(node, stat, |nodes[node].contents|)];
      }
    }
  }
}
