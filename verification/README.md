# WASI preview1 for WebCLAP plugins: a verified model

WebCLAP hosts run audio plugins compiled to WebAssembly. A plugin that expects
WASI `snapshot_preview1` imports gets them from a companion module, `wasi.wasm`.
This model covers the two C++ implementations of that module.

- **dev/wasi.cpp** keeps an in-memory file system. It has:
  - a tree of `VfsNode`s (directories and files);
  - a path resolver, `vfsGet`, that splits on `/` and walks from the root;
  - a descriptor table, `vfsHandles`. Slots 0–2 are error slots, slot 3 is
    the root, and slots from 4 up are handed out first-fit;
  - one exported function per WASI entry point;
  - a loader pair, `vfs_setPath` / `vfs_createFile`, through which the
    JavaScript side installs files.

  Standard output and standard error are line-buffered and sent to the host
  one line at a time.
- **wasi-dev/wasi.cpp** is the earlier, console-only version. It has the same
  line-buffered `fd_write`, an empty argument and environment list, and a
  chunked `random_get`. Every other entry point answers `ENOTCAPABLE`.

The model, module by module:

- `Abi` (abi.dfy): fixed-width integers and the 32-bit `size_t` of wasm32.
  Also the errno values, flag bits, and the `fdstat`/`filestat`/`prestat`
  records.
- `IoVecs` (iovec.dfy): guest memory is a byte sequence. Both iovec walkers
  are modelled: one that skips zero-length vectors and one that does not.
- `LineBuffer` (linebuffer.dfy): the console line buffer as a function
  `Feed`. It comes with its reassembly, line-count and concatenation laws, and
  with the per-byte and per-chunk loops proved against it.
- `Preview1` (preview1.dfy): the entry points both files define the same way.
  These are the argument and environment queries and `random_get`.
- `Vfs` (vfs.dfy): the node tree as an arena, a sequence of nodes whose
  children are arena indices, with index 0 the root. It defines child lookup
  and creation, path splitting and resolution, `setSize`, `allocate`,
  `stat`, directory creation and the loader's file creation.
- `Handles` (handles.dfy): the descriptor table as a sequence of handles.
  Each handle is either an error slot or a live handle holding a node index,
  an `fdstat` snapshot and a cursor.
- `Dispatch` (dispatch.dfy): the decisions that come before any state change.
  These are the seek arithmetic, the per-vector read count and the
  `path_open` flag chain. It also has the stateless entry points.
- `PathOpen` (open.dfy): `path_open` as a function of the tree and the
  table, with its lemmas.
- `VfsWasi` (wasi.dfy): class `Wasi` holds the mutable state of dev/wasi.cpp:
  the tree, the table, the staged loader path and the two console streams.
  It has one method per stateful entry point. Each method is proved to
  produce the state the functions above describe.
- `StubWasi` (stub.dfy): the wasi-dev console class and its stub answers.

The host imports are parameters or logs:

| host import | model |
|---|---|
| `memcpyFromOther32` | reads slices of the guest memory sequence |
| `memcpyToOther32` | returned `Copy` records or out-values |
| `sendStdoutLine` / `sendStderrLine` | append-only line logs |
| `getRandom64` | an oracle sequence |
| `getClockResNs` | a parameter |

Where the code and its description disagree, the model follows the code:

- `stat()` never updates the stored size, so `filestat.size` is always 0.
- `path_open`, `path_filestat_get` and `path_filestat_set_times` resolve the
  path from the root, whatever directory the descriptor names.
- `fd_close` answers 0 on success. This is the `operator bool` of the
  assigned `invalidHandle`.

## Model

| member | source | states |
|---|---|---|
| Abi.ToSize | dev/wasi.cpp:318-324 | converting to the wasm32 `size_t` keeps an in-range value and otherwise differs from it by a multiple of 2^32 |
| IoVecs.ForEachIoVec | wasi-dev/wasi.cpp:103-112 | one chunk per vector, in index order, each exactly the vector's `length` bytes of guest memory, zero-length vectors included |
| IoVecs.ForEachIoVecRead | dev/wasi.cpp:246-256 | the chunks are the payloads of the non-empty vectors, in order; no chunk is empty |
| IoVecs.SkippingEmptyIsHarmless | dev/wasi.cpp:246-256 | skipping zero-length vectors changes neither the bytes nor their order; the bytes number the sum of the lengths; one chunk per non-empty vector |
| LineBuffer.FeedReassembles | dev/wasi.cpp:483-491 | nothing is lost or invented: the emitted lines, each followed by a newline, then the new buffer, are the old buffer followed by the data |
| LineBuffer.FeedLines | dev/wasi.cpp:483-491 | exactly one line per newline byte; no emitted line and no buffered byte is a newline |
| LineBuffer.FeedPartialLine | wasi-dev/wasi.cpp:229-239 | data without a newline emits nothing and stays buffered for a later call |
| LineBuffer.FeedConcat | wasi-dev/wasi.cpp:226-254 | feeding in two pieces, the second starting from the buffer the first left behind, is feeding the whole: vector and call boundaries do not matter, and a partial line prefixes the next line emitted |
| LineBuffer.Feed | dev/wasi.cpp:484-491 | the reference line buffering of both implementations (wasi-dev/wasi.cpp:230-237 is the same loop): one emitted line per newline byte of the data, and what stays buffered is no longer than the old buffer and the data together |
| LineBuffer.PushBytes | dev/wasi.cpp:484-491 | the per-byte loop yields the lines and buffer of `Feed` |
| LineBuffer.FeedChunks | dev/wasi.cpp:481-494 | the callback applied chunk by chunk yields `Feed` of all the bytes at once, and the running total is their count modulo 2^32 |
| Preview1.EmptyListSizes | wasi-dev/wasi.cpp:117-122 | `args_sizes_get`/`environ_sizes_get` succeed and store 0 through both out-pointers |
| Preview1.EmptyListGet | wasi-dev/wasi.cpp:123-126 | `args_get`/`environ_get` succeed and copy nothing |
| Preview1.RandomGet | wasi-dev/wasi.cpp:312-320 | the loop with its offset held in 64 bits (see Findings), for every 32-bit length: one host call per started 8-byte chunk; copy k starts at offset 8k and every copy ends at buffer+length; length 0 makes no call; the result is 0 |
| Preview1.NextOffsetAsWritten | wasi-dev/wasi.cpp:314 | the loop's `offset += 8` on a `uint32_t`: 8 more below 2^32 − 8, wrapped modulo 2^32 from there on |
| Preview1.RandomGetAsWrittenNeverExits | wasi-dev/wasi.cpp:314 | for a length above 2^32 − 8, every offset the 32-bit loop reaches is below the length and the step from 2^32 − 8 returns to 0, so the loop never ends |
| Preview1.RandomFillFinalBytes | dev/wasi.cpp:633-641 | every byte of the range is last written by its own chunk's copy, inside that copy's 8 random bytes, and nothing outside the range is written |
| Vfs.ChildNamed | dev/wasi.cpp:142-145 | the child found has the name and is listed; none is found exactly when no listed child has the name |
| Vfs.ScanChildren | dev/wasi.cpp:142-145 | the scan loop returns the first child with the name |
| Vfs.ChildNamedConcat | dev/wasi.cpp:142-145 | the scan is in order: a match among the first children hides a later one |
| Vfs.GetChild | dev/wasi.cpp:142-151 | an existing child is returned and nothing changes; without creation a missing one gives none; with creation exactly one empty directory is appended, at the end of the arena and of the parent's list, and no other node changes |
| Vfs.ChildNamedStable | dev/wasi.cpp:146-149 | since children are only appended, a name found under a node keeps resolving to the same child as the tree grows |
| Vfs.Split | dev/wasi.cpp:211-219 | no piece holds a '/'; the empty path gives no pieces; joining the pieces with '/' gives the path back, less one trailing '/' |
| Vfs.Walk | dev/wasi.cpp:211-219 | the tree only grows; a lookup without creation changes nothing; a walk with creation always finds a node |
| Vfs.WalkFindsIffPrefixExists | dev/wasi.cpp:211-219 | without creation the walk finds a node exactly when every piece resolves in turn |
| Vfs.WalkCreateOnExisting | dev/wasi.cpp:211-219 | creating on a path that already resolves changes nothing and finds the same node |
| Vfs.WalkCreateFromEmpty | dev/wasi.cpp:146-149 | below an empty directory a creating walk appends one new empty directory per piece and ends on the last |
| Vfs.WalkCreateAppends | dev/wasi.cpp:211-219 | a creating walk appends exactly one empty directory per piece past the existing prefix |
| Vfs.WalkCreateMissingIsNew | dev/wasi.cpp:211-219 | when a path did not resolve, a creating walk ends on a node it appended, an empty directory |
| Vfs.WalkCreateThenFind | dev/wasi.cpp:211-219 | after a creating walk, a plain lookup of the same path finds the node it returned |
| Vfs.Resize | dev/wasi.cpp:159-163 | `resize`: the new length, the surviving prefix, zero fill of the growth |
| Vfs.Insert | dev/wasi.cpp:153-157 | `insert`: the prefix before the offset, `length` zero bytes, then the old tail shifted right |
| Vfs.SetSize | dev/wasi.cpp:159-163 | EISDIR on a directory, which is left as it was; otherwise success and the contents resized |
| Vfs.Allocate | dev/wasi.cpp:153-157 | EISDIR on a directory, which is left as it was; otherwise success and zero bytes inserted at the offset |
| Vfs.StatOf | dev/wasi.cpp:165-168 | the file type follows the node (4 directory, 3 file); size 0, link count 1, the node's two times; device, inode and change time 0 |
| Vfs.Touch | dev/wasi.cpp:378-387 | bit 0 sets the access time, bit 1 the modification time, nothing else changes |
| Vfs.HasBadByte | dev/wasi.cpp:521-523 | a name is refused exactly when some byte of it is '/' or NUL |
| Vfs.MakeDir | dev/wasi.cpp:514-529 | EINVAL exactly when the name holds '/' or NUL; otherwise EEXIST exactly when a child has the name; otherwise one empty directory child is appended and nothing else changes |
| Vfs.MakeDirTwice | dev/wasi.cpp:525-528 | creating the same directory again answers EEXIST; the name now resolves to the new node |
| Vfs.CreateFile | dev/wasi.cpp:229-238 | no buffer unless the staged path starts with '/'; otherwise the rest of the path is resolved with creation and that node becomes a file holding exactly the data, its children dropped |
| Handles.InitialTable | dev/wasi.cpp:191-193 | slots 0–2 are EINVAL error slots and slot 3 is a live handle on the root with the default fdstat and cursor 0 |
| Handles.HandleAt | dev/wasi.cpp:271-275 | EBADF past the table, EINVAL for 0–2, otherwise the slot itself at that index; a live result is the slot at fd ≥ 3 |
| Handles.FirstFree | dev/wasi.cpp:195-203 | the lowest error slot from the start index, or the table size; every slot skipped is live |
| Handles.Obtain | dev/wasi.cpp:195-209 | the new descriptor is ≥ 4; every slot from 4 below it is live; a reused slot was an error slot; otherwise the handle is appended at the old size; slots 0–3 are untouched |
| Handles.ObtainKeepsTableOk | dev/wasi.cpp:195-209 | the table stays well-formed and the new descriptor is a live handle on the node, with the given `fdstat`, at offset 0 |
| Handles.Close | dev/wasi.cpp:325-331 | an invalid descriptor answers its error and changes nothing; a live one becomes an EBADF slot and the call answers 0 |
| Handles.CloseKeepsTableOk | dev/wasi.cpp:325-331 | closing keeps the table well-formed |
| Handles.CloseTwice | dev/wasi.cpp:325-331 | closing a descriptor again answers EBADF and changes nothing |
| Handles.CloseThenReopenReuses | dev/wasi.cpp:195-203 | the next open after a close reuses the closed slot when every slot between 4 and it is live |
| Handles.FirstFreeFinds | dev/wasi.cpp:195-203 | the first error slot after a run of live slots is the one found |
| Dispatch.SeekTarget | dev/wasi.cpp:452-458 | the seek target is `delta` counted from the cursor for whence 1, from the end of the file for whence 2, and from 0 for any other whence |
| Dispatch.SeekPosition | dev/wasi.cpp:445-464 | the new cursor never passes the end; a target inside the file is taken as is; a negative target or one past the end gives the file size |
| Dispatch.SeekReportedOffsetIsStable | dev/wasi.cpp:459-462 | seeking to the reported offset lands there again; seeking by 0 from the cursor keeps it; seeking by 0 from the end gives the size |
| Dispatch.ReadCount | dev/wasi.cpp:424-427 | corrected count: never more than requested; nothing at or past the end; otherwise the whole request or up to the end |
| Dispatch.ReadCountAsWritten | dev/wasi.cpp:425-427 | the count as written: the whole request when the end of the request is inside the file |
| Dispatch.ReadCountAgreesInsideFile | dev/wasi.cpp:425-427 | with the cursor inside the file, the count as written is the corrected count |
| Dispatch.ReadCountOverrunsPastEnd | dev/wasi.cpp:425-427 | with the cursor past the end, the count as written wraps to 2^32 − (cursor − size), more than requested, where the corrected count is 0 |
| Dispatch.ReadPastEndExample | dev/wasi.cpp:425-427 | one byte at offset 10 of an empty file: the count as written is 2^32 − 10 |
| Dispatch.ClampCursor | dev/wasi.cpp:375 | the cursor after `fd_filestat_set_size` is the smaller of the cursor and the requested 64-bit size: it never passes the size and is unchanged when already within it |
| Dispatch.SetSizeWrapLeavesCursorPastEnd | dev/wasi.cpp:370-377 | `fd_filestat_set_size` of 2^32 keeps a cursor inside a file that it cuts to 0 bytes (the clamp leaves the cursor where it is), so the next read's count wraps |
| Dispatch.Window | dev/wasi.cpp:428 | the bytes one vector receives number its count |
| Dispatch.ReadVecs | dev/wasi.cpp:423-431 | the reference `fd_read` over the vectors: one copy per non-empty vector; the cursor only moves forward, by at most the total requested, never past the end of the file, and not at all from at or past the end |
| Dispatch.ReadIntoVecs | dev/wasi.cpp:257-267 | the fill loop gives each non-empty vector, in order, the bytes `ReadVecs` assigns it and ends at its cursor |
| Dispatch.ReadVecsDelivers | dev/wasi.cpp:416-434 | the cursor only moves forward; from inside the file the bytes delivered, in vector order, are the contents from the old to the new cursor, which stays in the file; a short read ends at the end of the file; from past the end nothing is read; one copy per non-empty vector, at its address |
| Dispatch.ReadVecsPerVector | dev/wasi.cpp:424-430 | copy k holds exactly `ReadCount` bytes for the k-th non-empty vector, read at the cursor the earlier copies left: never more than the vector's length, and fewer only at the end of the file |
| Dispatch.ReadVecsTotal | dev/wasi.cpp:423-433 | the bytes delivered number the distance the cursor moved |
| Dispatch.OpenDecisionAsWritten | dev/wasi.cpp:571-586 | the flag chain as written: when it goes ahead, a node was found and truncation follows the truncate flag |
| Dispatch.OpenDecision | dev/wasi.cpp:571-586 | corrected chain: a handle is obtained exactly when the path exists, is a directory if one is demanded, the exclusive flag is off, and it is not a directory to truncate; a missing path gives ENOENT; EEXIST exactly for an existing path with the exclusive flag that passes the directory check; ENOTDIR exactly for the directory flag on an existing file; EISDIR exactly for the truncate flag on an existing directory without the exclusive flag |
| Dispatch.OpenNullDerefExactly | dev/wasi.cpp:576-586 | the code reads through a null node exactly for a missing path with the exclusive flag and neither the directory nor the truncate flag; on every other input it agrees with the corrected chain |
| Dispatch.OpenExclusiveMissingExample | dev/wasi.cpp:576-586 | only the exclusive flag on a missing path: null read as written, ENOENT corrected |
| Dispatch.PrestatGet | dev/wasi.cpp:393-402 | success exactly for descriptor 3, with a one-byte name; EBADF otherwise |
| Dispatch.PrestatDirName | dev/wasi.cpp:403-410 | success exactly for descriptor 3: the first min(length, 2) bytes of "/" and its NUL; EBADF otherwise |
| Dispatch.ClockResGet | dev/wasi.cpp:288-294 | ENOTCAPABLE exactly when the host reports 0; otherwise success with the host's value |
| Dispatch.UnsupportedResult | dev/wasi.cpp:313-661 | `path_readlink` (595-600) answers EINVAL; the other stateless entry points of that range answer ENOTCAPABLE: `fd_advise`, `fd_datasync`, `fd_pread`, `fd_pwrite`, `fd_readdir`, `fd_renumber`, `fd_sync`, `path_link`, `path_remove_directory`, `path_rename`, `path_symlink`, `path_unlink_file`, `poll_oneoff`, `proc_raise`, `sched_yield` and the four `sock_*` |
| PathOpen.Lookup | dev/wasi.cpp:211-219 | the node found is in the tree; the empty path is the root |
| PathOpen.Open | dev/wasi.cpp:556-594 | an invalid descriptor answers its error; a non-directory answers EINVAL; any error leaves tree and table unchanged with no descriptor; success hands out the lowest free slot from 4 and changes no other slot |
| PathOpen.OpenCreating | dev/wasi.cpp:566-569 | the create branch succeeds with a live handle at offset 0 on the node the creating walk returns |
| PathOpen.OpenFound | dev/wasi.cpp:581-592 | only the opened node may change, and only by truncation of a file; the handle's cursor is the file size with append, 0 otherwise |
| PathOpen.OpenCreateExisting | dev/wasi.cpp:566-569 | the create flag on an existing path changes nothing in the tree; the handle is typed as a regular file at offset 0, whatever the node is |
| PathOpen.OpenCreateMissing | dev/wasi.cpp:566-569 | the create flag on a missing path opens a new empty directory that the path resolves to from then on |
| PathOpen.OpenExisting | dev/wasi.cpp:571-593 | without the create flag: the result is the flag chain's decision; on success the handle names the node found, typed by the node, the file is emptied if truncation was asked, nothing else changes, and the cursor is at the end with append, at 0 otherwise |
| PathOpen.OpenTruncateThenReadNothing | dev/wasi.cpp:581-585 | after an open with truncation, a read through the new descriptor delivers nothing |
| PathOpen.MakeDirThenOpenDirectory | dev/wasi.cpp:572-575 | a directory made under the root opens with the directory flag by its name, as a directory handle on the new node |
| VfsWasi.Wasi.constructor | dev/wasi.cpp:191-193 | an empty root directory, the initial table, nothing staged or buffered |
| VfsWasi.Wasi.Get | dev/wasi.cpp:142-151 | updates the tree and returns the node exactly as `GetChild` does |
| VfsWasi.Wasi.VfsGet | dev/wasi.cpp:211-219 | the loop leaves the tree and returns the node exactly as `Walk` from the root over `Split(path)` |
| VfsWasi.Wasi.ObtainFileHandle | dev/wasi.cpp:195-209 | the table and descriptor are those of `Obtain` |
| VfsWasi.Wasi.VfsSetPath | dev/wasi.cpp:223-228 | the staged path becomes the bytes the host writes; nothing else changes |
| VfsWasi.Wasi.VfsCreateFile | dev/wasi.cpp:229-238 | the tree and result are those of `CreateFile` on the staged path |
| VfsWasi.Wasi.FdAllocate | dev/wasi.cpp:318-324 | the descriptor's error, or `Allocate` on its node with both arguments cut to 32 bits |
| VfsWasi.Wasi.FdClose | dev/wasi.cpp:325-331 | result and table are those of `Close` |
| VfsWasi.Wasi.FdFdstatGet | dev/wasi.cpp:337-344 | the handle's `fdstat`, or the descriptor's error; success exactly for a live slot at fd ≥ 3 |
| VfsWasi.Wasi.FdFdstatSetFlags | dev/wasi.cpp:345-352 | only the handle's flags change |
| VfsWasi.Wasi.FdFdstatSetRights | dev/wasi.cpp:353-361 | only the handle's two rights fields change |
| VfsWasi.Wasi.FdFilestatGet | dev/wasi.cpp:362-369 | `StatOf` the handle's node, typed by what the node is |
| VfsWasi.Wasi.FdFilestatSetSize | dev/wasi.cpp:370-377 | the cursor becomes `ClampCursor` of the requested 64-bit size, even when the node then answers EISDIR; the node gets `SetSize` with the size cut to 32 bits |
| VfsWasi.Wasi.FdFilestatSetTimes | dev/wasi.cpp:378-387 | the handle's node is touched per the flags |
| VfsWasi.Wasi.FdRead | dev/wasi.cpp:416-434 | EISDIR on a directory; otherwise the copies and new cursor are those of `ReadVecs`, the count is the distance moved, and the tree is unchanged |
| VfsWasi.Wasi.FdSeek | dev/wasi.cpp:445-464 | EISDIR on a directory with the cursor untouched; otherwise the stored and reported offset is `SeekPosition` |
| VfsWasi.Wasi.FdTell | dev/wasi.cpp:470-477 | the cursor of any live handle, directories included |
| VfsWasi.Wasi.FdWrite | dev/wasi.cpp:478-513 | descriptors 1 and 2 append `Feed`'s lines to their stream and keep its buffer, the other stream untouched, and report the sum of the vector lengths modulo 2^32; any other descriptor answers ENOTCAPABLE and changes nothing |
| VfsWasi.Wasi.PathCreateDirectory | dev/wasi.cpp:514-529 | the descriptor's error, or `MakeDir` under the descriptor's node |
| VfsWasi.Wasi.PathFilestatGet | dev/wasi.cpp:530-540 | the descriptor's error, ENOENT when the path does not resolve from the root, or the stat of the node it resolves to |
| VfsWasi.Wasi.PathFilestatSetTimes | dev/wasi.cpp:541-550 | without any descriptor check: ENOENT, or the node the path resolves to is touched per the flags |
| VfsWasi.Wasi.PathOpen | dev/wasi.cpp:556-594 | result, tree, table and descriptor are those of `Open` |
| VfsWasi.Wasi.OpenCreatingPath | dev/wasi.cpp:566-569 | the create branch yields the state of `OpenCreating` |
| VfsWasi.Wasi.OpenFoundNode | dev/wasi.cpp:581-592 | the tail of the open yields the state of `OpenFound` |
| StubWasi.StubResult | wasi-dev/wasi.cpp:127-340 | every entry point of that range except the argument and environment queries, `fd_write`, `proc_exit` and `random_get` answers ENOTCAPABLE, never success, and stores nothing |
| StubWasi.Console.constructor | wasi-dev/wasi.cpp:114 | both line buffers start empty |
| StubWasi.Console.FdWrite | wasi-dev/wasi.cpp:225-259 | descriptors 1 and 2 append `Feed`'s lines over every vector's bytes and keep its buffer, and report the sum of all lengths modulo 2^32; other descriptors answer ENOTCAPABLE and change nothing |

## Left out

- `clock_time_get` (dev/wasi.cpp:295-301) converts a `double` from the host by `ms*1000`. This is floating-point arithmetic.
- `proc_exit` does not return.
- The locks (`vfsMutex`, `iovecBufferMutex`) are left out. The model is sequential.
- `logExpr`/`LOG_EXPR` is debug output and is left out.
- The byte layout of `P32` marshalling is left out. Records are plain datatypes, and the missing return in `P32::operator+=` is not modelled.
- wasi.mjs (JavaScript glue) and dev/make-bundled.js (a build script) are not part of this model.
- Host imports become parameters: guest memory, line logs, an oracle for `getRandom64`, and the resolution value for `getClockResNs`.
- `fd_read` copies the whole staging buffer back into each vector. Only the counted bytes are specified (`Copy` records). The stale bytes after them are not.
- Preview1.RandomGet: each copy reads `length - offset` bytes from the 8-byte local `v64`, past its end when more than 8 remain. Only the destination ranges and the 8 known bytes of each copy are modelled.
- Vfs.Allocate and VfsWasi.Wasi.FdAllocate: an offset past the end of the file is excluded by a precondition. `insert` there is undefined behaviour.
- VfsWasi.Wasi.FdAllocate: a result larger than 2^32 − 1 bytes is excluded. The vector cannot hold it on wasm32.
- Vfs.CreateFile: nodes are never freed from the arena. A handle on a node below a directory that `vfs_createFile` turns into a file keeps working here. In the C++ code it dangles.
- Dispatch.SeekPosition: for whence 2, `int64_t(size) + delta` can overflow. That is undefined behaviour in C++; the model wraps it like the unsigned cases.
- VfsWasi.Wasi.FdWrite and StubWasi.Console.FdWrite require every vector to lie inside guest memory. For a vector that runs past the end, the shipped `memcpyFromOther32` clamps the range without error and copies only the part inside. The rest of the staging buffer is then forwarded unchanged: stale bytes from an earlier vector, or the zeros `resize` added. The model excludes this case.
- Preview1.RandomGet: the copies' `start` and `end` are unbounded sums `buffer + offset`. In the C++ code they are 32-bit guest addresses, which differ only when `buffer + length` exceeds 2^32; the host copy cannot reach those addresses anyway.
- `vfs_setPath` resizes the string and lets the host fill it. The model takes the bytes the host writes as the new path.
- `vfs_createFile` resizes the contents and lets the host fill them. The model takes the bytes as the new contents.
- PathOpen.Open and VfsWasi.Wasi.PathOpen model the corrected flag chain. On an excl-only open of a missing path they answer ENOENT; the C++ code reads through a null pointer (see Findings).
- Preview1.RandomGet keeps its offset in 64 bits. For lengths above 2^32 − 8 the C++ loop never ends (see Findings).
- VfsWasi.Wasi.FdRead uses the corrected per-vector count. The C++ count wraps when the cursor is past the end (see Findings).

## Findings

| source | as written | input that shows it | evidently intended | confidence | as-written member | corrected member |
|---|---|---|---|---|---|---|
| dev/wasi.cpp:425-427 | a cursor past the end makes `size - position` wrap as `size_t`, so `memcpy` reads nearly 4 GiB from past the contents into a vector | open a 10-byte file; `fd_seek` to 10; `fd_filestat_set_size(fd, 2^32)`. The cursor stays at 10 and the file becomes 0 bytes. `fd_read` with one 1-byte vector then computes a count of 2^32 − 10 | a cursor at or past the end reads 0 bytes | not executed | Dispatch.ReadCountAsWritten (shown by Dispatch.ReadCountOverrunsPastEnd and Dispatch.SetSizeWrapLeavesCursorPastEnd) | Dispatch.ReadCount (used by Dispatch.ReadVecs, proved in Dispatch.ReadVecsDelivers) |
| wasi-dev/wasi.cpp:314 | `offset` is a `uint32_t`, so for a length above 2^32 − 8 the step from 2^32 − 8 wraps to 0 and `offset < length` never fails; dev/wasi.cpp:635 has the same loop | `random_get` with a length of 2^32 − 1 | ⌈length/8⌉ host calls, then return | not executed | Preview1.NextOffsetAsWritten (shown by Preview1.RandomGetAsWrittenNeverExits) | Preview1.RandomGet |
| dev/wasi.cpp:576-586 | with the exclusive flag, a missing path passes every check and `fileNode->isDir` reads through a null pointer | `path_open` on descriptor 3 of a path that does not exist, with oflags = 4 (excl only) | ENOENT, as without the exclusive flag | not executed | Dispatch.OpenDecisionAsWritten (shown by Dispatch.OpenNullDerefExactly and Dispatch.OpenExclusiveMissingExample) | Dispatch.OpenDecision (used by PathOpen.Open) |
