/** The descriptor table: slots 0-2 are permanent error slots (console I/O
    bypasses the table), slot 3 is the pre-opened root directory, and slots
    from 4 up are handed out first-fit and turned back into error slots on close. */
module Handles {
  import opened Abi
  import Vfs

  /** `VfsHandle`: an error slot carrying its code, or a live handle on a node
      with its `fdstat` snapshot and cursor. */
  datatype Handle = ErrorSlot(error: Errno) | Live(node: nat, stat: FdStat, position: u64)

  /** `invalidHandle`: what `getHandle` answers out of range and what a closed
      slot becomes. */
  const INVALID_HANDLE: Handle := ErrorSlot(EBADF)

  const ROOT_FD: nat := 3
  const FIRST_OPEN_FD: nat := 4

  /** The table at process start. */
  function InitialTable(): (t: seq<Handle>)
    ensures TableOk(t, 1) && |t| == 4
    ensures forall fd :: 0 <= fd < ROOT_FD ==> t[fd] == ErrorSlot(EINVAL)
    ensures t[ROOT_FD] == Live(Vfs.ROOT, DEFAULT_FDSTAT, 0)
  {
    [ErrorSlot(EINVAL), ErrorSlot(EINVAL), ErrorSlot(EINVAL), Live(Vfs.ROOT, DEFAULT_FDSTAT, 0)]
  }

  /** Slots 0-2 hold EINVAL for good; slot 3 is the root or, once closed,
      EBADF; every later slot is live or closed. */
  predicate Shaped(t: seq<Handle>) {
    && |t| >= FIRST_OPEN_FD
    && t[0] == ErrorSlot(EINVAL) && t[1] == ErrorSlot(EINVAL) && t[2] == ErrorSlot(EINVAL)
    && (t[ROOT_FD] == ErrorSlot(EBADF) || (t[ROOT_FD].Live? && t[ROOT_FD].node == Vfs.ROOT))
    && forall i :: FIRST_OPEN_FD <= i < |t| ==> t[i].ErrorSlot? ==> t[i].error == EBADF
  }

  /** A shaped table whose live handles all name nodes of an arena of
      `nodeCount` nodes. */
  predicate TableOk(t: seq<Handle>, nodeCount: nat) {
    && Shaped(t)
    && forall i :: 0 <= i < |t| ==> t[i].Live? ==> t[i].node < nodeCount
  }

  lemma TableOkWider(t: seq<Handle>, count: nat, wider: nat)
    requires TableOk(t, count) && count <= wider
    ensures TableOk(t, wider)
  {
  }

  /** `getHandle`: the single validation gate of every descriptor argument. */
  function HandleAt(t: seq<Handle>, fd: nat): (r: Handle)
    requires Shaped(t)
    ensures fd >= |t| ==> r == INVALID_HANDLE
    ensures fd < |t| ==> r == t[fd]
    ensures fd < 3 ==> r == ErrorSlot(EINVAL)
    ensures r.ErrorSlot? ==> r.error == EINVAL || r.error == EBADF
    ensures r.Live? ==> fd >= ROOT_FD && fd < |t| && r == t[fd]
  {
    if fd >= |t| then INVALID_HANDLE else t[fd]
  }

  /** The first error slot at `from` or later, or the table size if none. */
  function FirstFree(t: seq<Handle>, from: nat): (r: nat)
    requires from <= |t|
    ensures from <= r <= |t|
    ensures r < |t| ==> t[r].ErrorSlot?
    ensures forall j :: from <= j < r ==> t[j].Live?
    decreases |t| - from
  {
    if from == |t| then from
    else if t[from].ErrorSlot? then from
    else FirstFree(t, from + 1)
  }

  /** `vfsObtainFileHandle`: the new table and the descriptor handed out. */
  function Obtain(t: seq<Handle>, node: nat, stat: FdStat): (r: (seq<Handle>, nat))
    requires |t| >= FIRST_OPEN_FD
    ensures FIRST_OPEN_FD <= r.1 <= |t|
    ensures forall j :: FIRST_OPEN_FD <= j < r.1 ==> t[j].Live?
    ensures r.1 < |t| ==> t[r.1].ErrorSlot? && r.0 == t[r.1 := Live(node, stat, 0)]
    ensures r.1 == |t| ==> r.0 == t + [Live(node, stat, 0)]
    ensures |r.0| >= |t| && r.0[..FIRST_OPEN_FD] == t[..FIRST_OPEN_FD]
  {
    var fd := FirstFree(t, FIRST_OPEN_FD);
    if fd < |t| then (t[fd := Live(node, stat, 0)], fd) else (t + [Live(node, stat, 0)], fd)
  }

  lemma ObtainKeepsTableOk(t: seq<Handle>, count: nat, node: nat, stat: FdStat)
    requires TableOk(t, count) && node < count
    ensures TableOk(Obtain(t, node, stat).0, count)
    ensures HandleAt(Obtain(t, node, stat).0, Obtain(t, node, stat).1) == Live(node, stat, 0)
  {
    var r := Obtain(t, node, stat);
    assert r.0[..FIRST_OPEN_FD] == t[..FIRST_OPEN_FD];
    assert r.0[0] == t[0] && r.0[1] == t[1] && r.0[2] == t[2] && r.0[3] == t[3];
  }

  /** `fd_close`: an error slot answers its own code and stays; a live slot
      becomes `INVALID_HANDLE` and the call answers 0. */
  function Close(t: seq<Handle>, fd: nat): (r: (Errno, seq<Handle>))
    requires Shaped(t)
    ensures HandleAt(t, fd).ErrorSlot? ==> r == (HandleAt(t, fd).error, t)
    ensures HandleAt(t, fd).Live? ==> r.0 == ESUCCESS && r.1 == t[fd := INVALID_HANDLE]
    ensures HandleAt(t, fd).Live? ==> HandleAt(r.1, fd) == INVALID_HANDLE
  {
    var h := HandleAt(t, fd);
    if h.ErrorSlot? then (h.error, t) else (ESUCCESS, t[fd := INVALID_HANDLE])
  }

  lemma CloseKeepsTableOk(t: seq<Handle>, count: nat, fd: nat)
    requires TableOk(t, count)
    ensures TableOk(Close(t, fd).1, count)
  {
  }

  /** A closed descriptor is stale: closing it again, like any use of it,
      answers EBADF. */
  lemma CloseTwice(t: seq<Handle>, fd: nat)
    requires Shaped(t) && HandleAt(t, fd).Live?
    ensures Shaped(Close(t, fd).1)
    ensures Close(Close(t, fd).1, fd) == (EBADF, Close(t, fd).1)
  {
  }

  /** The next open after a close reuses the lowest free slot from 4 up: the
      closed one, when every slot between 4 and it is live. */
  lemma {:induction false} CloseThenReopenReuses(t: seq<Handle>, fd: nat, node: nat, stat: FdStat)
    requires Shaped(t) && fd >= FIRST_OPEN_FD && HandleAt(t, fd).Live?
    requires forall j :: FIRST_OPEN_FD <= j < fd ==> t[j].Live?
    ensures Obtain(Close(t, fd).1, node, stat).1 == fd
  {
    var closed := Close(t, fd).1;
    FirstFreeFinds(closed, FIRST_OPEN_FD, fd);
  }

  lemma {:induction false} FirstFreeFinds(t: seq<Handle>, from: nat, fd: nat)
    requires from <= fd < |t| && t[fd].ErrorSlot?
    requires forall j :: from <= j < fd ==> t[j].Live?
    ensures FirstFree(t, from) == fd
    decreases fd - from
  {
    if from < fd {
      FirstFreeFinds(t, from + 1, fd);
    }
  }
}
