/** `path_open` as a function of the tree and the descriptor table, and what
    it promises: the flag chain, creation of missing paths, truncation,
    append positioning and the descriptor handed out. */
module PathOpen {
  import opened Abi
  import opened Vfs
  import opened Handles
  import opened Dispatch

  /** `vfsGet` without creation: the node a path names, resolved from the root. */
  function Lookup(nodes: Arena, path: seq<byte>): (r: Option<nat>)
    requires ArenaOk(nodes)
    ensures r.Some? ==> r.value < |nodes|
    ensures path == [] ==> r == Some(ROOT)
  {
    Walk(nodes, ROOT, Split(path), false).1
  }

  /** What the lookup tells the flag chain: nothing, or whether the node found
      is a directory. */
  function Kind(nodes: Arena, found: Option<nat>): (r: Option<bool>)
    requires found.Some? ==> found.value < |nodes|
    ensures r.Some? <==> found.Some?
    ensures r.Some? ==> r.value == nodes[found.value].isDir
  {
    if found.None? then None else Some(nodes[found.value].isDir)
  }

  /** The outcome of `path_open`: the result code, the tree and table after
      the call, and the descriptor stored through `newFd`, if any. */
  datatype Opened = Opened(err: Errno, nodes: Arena, handles: seq<Handle>, newFd: Option<nat>)

  /** `path_open`. The descriptor only has to be a live directory; the path is
      resolved from the root whatever directory the descriptor names. */
  function Open(nodes: Arena, handles: seq<Handle>, dirFd: nat, path: seq<byte>, openFlags: u16,
                rightsBase: u64, rightsInheriting: u64, fsFlags: u16): (r: Opened)
    requires ArenaOk(nodes) && TableOk(handles, |nodes|)
    ensures ArenaOk(r.nodes) && TableOk(r.handles, |r.nodes|)
    ensures HandleAt(handles, dirFd).ErrorSlot? ==> r.err == HandleAt(handles, dirFd).error
    ensures HandleAt(handles, dirFd).Live? && !nodes[HandleAt(handles, dirFd).node].isDir ==> r.err == EINVAL
    ensures r.err != ESUCCESS ==> r.nodes == nodes && r.handles == handles && r.newFd == None
    ensures r.err == ESUCCESS ==> r.newFd.Some? && NewSlot(handles, r.handles, r.newFd.value)
  {
    var dir := HandleAt(handles, dirFd);
    if dir.ErrorSlot? then Opened(dir.error, nodes, handles, None)
    else if !nodes[dir.node].isDir then Opened(EINVAL, nodes, handles, None)
    else
      var stat := FdStat(FILETYPE_REGULAR, fsFlags, rightsBase, rightsInheriting);
      if HasFlag(openFlags, OFLAG_CREAT) then OpenCreating(nodes, handles, path, stat)
      else
        var found := Lookup(nodes, path);
        var step := OpenDecision(openFlags, Kind(nodes, found));
        if step.Refuse? then Opened(step.err, nodes, handles, None)
        else
          var node := found.value;
          var typed := stat.(filetype := if nodes[node].isDir then FILETYPE_DIRECTORY else FILETYPE_REGULAR);
          OpenFound(nodes, handles, node, step.truncate, typed, HasFlag(fsFlags, FDFLAG_APPEND))
  }

  /** The descriptor handed out is the lowest free slot from 4 up (or one past
      the end); it is live afterwards and no other slot changed. */
  predicate NewSlot(before: seq<Handle>, after: seq<Handle>, fd: nat)
    requires Shaped(before) && Shaped(after)
  {
    && fd >= FIRST_OPEN_FD
    && fd == FirstFree(before, FIRST_OPEN_FD)
    && HandleAt(after, fd).Live?
    && |after| == (if fd == |before| then |before| + 1 else |before|)
    && forall i :: 0 <= i < |before| && i != fd ==> after[i] == before[i]
  }

  /** The create branch: resolve with creation, then obtain a descriptor. */
  function OpenCreating(nodes: Arena, handles: seq<Handle>, path: seq<byte>, stat: FdStat): (r: Opened)
    requires ArenaOk(nodes) && TableOk(handles, |nodes|)
    ensures ArenaOk(r.nodes) && TableOk(r.handles, |r.nodes|)
    ensures r.err == ESUCCESS && r.newFd.Some? && NewSlot(handles, r.handles, r.newFd.value)
    ensures r.nodes == Walk(nodes, ROOT, Split(path), true).0
    ensures HandleAt(r.handles, r.newFd.value) == Live(Walk(nodes, ROOT, Split(path), true).1.value, stat, 0)
  {
    var made := Walk(nodes, ROOT, Split(path), true);
    var obtained := Obtain(handles, made.1.value, stat);
    TableOkWider(handles, |nodes|, |made.0|);
    ObtainKeepsTableOk(handles, |made.0|, made.1.value, stat);
    Opened(ESUCCESS, made.0, obtained.0, Some(obtained.1))
  }

  /** The branch past the flag chain: truncate if asked, obtain a descriptor
      typed by the node, and with the append flag put its cursor at the end. */
  function OpenFound(nodes: Arena, handles: seq<Handle>, node: nat, truncate: bool, stat: FdStat, append: bool): (r: Opened)
    requires ArenaOk(nodes) && TableOk(handles, |nodes|) && node < |nodes|
    ensures ArenaOk(r.nodes) && TableOk(r.handles, |r.nodes|)
    ensures r.err == ESUCCESS && r.newFd.Some? && NewSlot(handles, r.handles, r.newFd.value)
    ensures |r.nodes| == |nodes| && forall i :: 0 <= i < |nodes| && i != node ==> r.nodes[i] == nodes[i]
    ensures r.nodes[node] == if truncate && !nodes[node].isDir then nodes[node].(contents := []) else nodes[node]
    ensures HandleAt(r.handles, r.newFd.value) == Live(node, stat, if append then |r.nodes[node].contents| else 0)
  {
    var after := if truncate then nodes[node := SetSize(nodes[node], 0).1] else nodes;
    assert ArenaOk(after) by {
      forall i | 0 <= i < |after| ensures NodeOk(after[i], |after|) {
        assert i != node ==> after[i] == nodes[i];
      }
    }
    var obtained := Obtain(handles, node, stat);
    ObtainKeepsTableOk(handles, |nodes|, node, stat);
    var fd := obtained.1;
    var table := if append then obtained.0[fd := Live(node, stat, |after[node].contents|)] else obtained.0;
    Opened(ESUCCESS, after, table, Some(fd))
  }

  /** The preconditions of the flag chain: a live directory descriptor. */
  predicate DirOk(nodes: Arena, handles: seq<Handle>, dirFd: nat)
    requires ArenaOk(nodes) && TableOk(handles, |nodes|)
  {
    HandleAt(handles, dirFd).Live? && nodes[HandleAt(handles, dirFd).node].isDir
  }

  /** With the create flag on an existing path, nothing in the tree changes
      (the file keeps its bytes) and the new descriptor sits at offset 0 on
      that node, typed as a regular file whatever the node is; the other open
      flags and the append flag are ignored. */
  lemma OpenCreateExisting(nodes: Arena, handles: seq<Handle>, dirFd: nat, path: seq<byte>, openFlags: u16,
                           rightsBase: u64, rightsInheriting: u64, fsFlags: u16)
    requires ArenaOk(nodes) && TableOk(handles, |nodes|) && DirOk(nodes, handles, dirFd)
    requires HasFlag(openFlags, OFLAG_CREAT) && Lookup(nodes, path).Some?
    ensures var r := Open(nodes, handles, dirFd, path, openFlags, rightsBase, rightsInheriting, fsFlags);
      && r.err == ESUCCESS && r.nodes == nodes
      && HandleAt(r.handles, r.newFd.value)
         == Live(Lookup(nodes, path).value, FdStat(FILETYPE_REGULAR, fsFlags, rightsBase, rightsInheriting), 0)
  {
    WalkCreateOnExisting(nodes, ROOT, Split(path));
  }

  /** With the create flag on a missing path, every missing piece is created
      as a directory: the node opened is a new, empty directory, and the path
      resolves to it from then on. */
  lemma OpenCreateMissing(nodes: Arena, handles: seq<Handle>, dirFd: nat, path: seq<byte>, openFlags: u16,
                          rightsBase: u64, rightsInheriting: u64, fsFlags: u16)
    requires ArenaOk(nodes) && TableOk(handles, |nodes|) && DirOk(nodes, handles, dirFd)
    requires HasFlag(openFlags, OFLAG_CREAT) && Lookup(nodes, path).None?
    ensures var r := Open(nodes, handles, dirFd, path, openFlags, rightsBase, rightsInheriting, fsFlags);
      var node := HandleAt(r.handles, r.newFd.value).node;
      && r.err == ESUCCESS
      && |nodes| <= node && r.nodes[node].isDir && r.nodes[node].contents == []
      && Lookup(r.nodes, path) == Some(node)
  {
    WalkCreateMissingIsNew(nodes, ROOT, Split(path));
    WalkCreateThenFind(nodes, ROOT, Split(path));
  }

  /** Without the create flag the outcome is the flag chain's decision on what
      the lookup found. On success the descriptor names the node found, typed
      by what the node is, the file is emptied when truncation was asked for
      and nothing else in the tree changes, and the cursor starts at the end
      of the file with the append flag, at 0 otherwise. */
  lemma OpenExisting(nodes: Arena, handles: seq<Handle>, dirFd: nat, path: seq<byte>, openFlags: u16,
                     rightsBase: u64, rightsInheriting: u64, fsFlags: u16)
    requires ArenaOk(nodes) && TableOk(handles, |nodes|) && DirOk(nodes, handles, dirFd)
    requires !HasFlag(openFlags, OFLAG_CREAT)
    ensures var r := Open(nodes, handles, dirFd, path, openFlags, rightsBase, rightsInheriting, fsFlags);
      var step := OpenDecision(openFlags, Kind(nodes, Lookup(nodes, path)));
      && (step.Refuse? ==> r.err == step.err)
      && (step.Proceed? ==>
           var node := Lookup(nodes, path).value;
           var h := HandleAt(r.handles, r.newFd.value);
           && r.err == ESUCCESS
           && h.node == node
           && h.stat == FdStat(if nodes[node].isDir then FILETYPE_DIRECTORY else FILETYPE_REGULAR,
                               fsFlags, rightsBase, rightsInheriting)
           && |r.nodes| == |nodes|
           && (forall i :: 0 <= i < |nodes| && i != node ==> r.nodes[i] == nodes[i])
           && r.nodes[node] == (if step.truncate then nodes[node].(contents := []) else nodes[node])
           && h.position == (if HasFlag(fsFlags, FDFLAG_APPEND) then |r.nodes[node].contents| else 0))
  {
  }

  /** Truncating on open empties the file, so a read through the new
      descriptor delivers nothing. */
  lemma OpenTruncateThenReadNothing(nodes: Arena, handles: seq<Handle>, dirFd: nat, path: seq<byte>, openFlags: u16,
                                    rightsBase: u64, rightsInheriting: u64, fsFlags: u16, vecs: seq<IoVec>)
    requires ArenaOk(nodes) && TableOk(handles, |nodes|) && DirOk(nodes, handles, dirFd)
    requires !HasFlag(openFlags, OFLAG_CREAT) && HasFlag(openFlags, OFLAG_TRUNC)
    requires Open(nodes, handles, dirFd, path, openFlags, rightsBase, rightsInheriting, fsFlags).err == ESUCCESS
    ensures var r := Open(nodes, handles, dirFd, path, openFlags, rightsBase, rightsInheriting, fsFlags);
      var h := HandleAt(r.handles, r.newFd.value);
      && r.nodes[h.node].contents == [] && h.position == 0
      && Delivered(ReadVecs(r.nodes[h.node].contents, h.position, vecs).0) == []
  {
    OpenExisting(nodes, handles, dirFd, path, openFlags, rightsBase, rightsInheriting, fsFlags);
    var r := Open(nodes, handles, dirFd, path, openFlags, rightsBase, rightsInheriting, fsFlags);
    var h := HandleAt(r.handles, r.newFd.value);
    ReadVecsDelivers(r.nodes[h.node].contents, h.position, vecs);
  }

  /** A directory made under the root can be opened as a directory by its
      name, and the descriptor names the new node. */
  lemma MakeDirThenOpenDirectory(nodes: Arena, handles: seq<Handle>, dirFd: nat, name: Name,
                                 rightsBase: u64, rightsInheriting: u64, fsFlags: u16)
    requires ArenaOk(nodes) && TableOk(handles, |nodes|) && DirOk(nodes, handles, dirFd)
    requires name != [] && MakeDir(nodes, ROOT, name).0 == ESUCCESS
    ensures TableOk(handles, |MakeDir(nodes, ROOT, name).1|)
    ensures var made := MakeDir(nodes, ROOT, name).1;
      var r := Open(made, handles, dirFd, name, OFLAG_DIRECTORY as u16, rightsBase, rightsInheriting, fsFlags);
      && r.err == ESUCCESS
      && HandleAt(r.handles, r.newFd.value).node == |nodes|
      && HandleAt(r.handles, r.newFd.value).stat.filetype == FILETYPE_DIRECTORY
  {
    var made := MakeDir(nodes, ROOT, name).1;
    TableOkWider(handles, |nodes|, |made|);
    assert SLASH !in name;
    assert Split(name) == [name];
    MakeDirTwice(nodes, ROOT, name);
    assert Walk(made, |nodes|, Split(name)[1..], false) == (made, Some(|nodes|));
    assert Lookup(made, name) == Some(|nodes|);
    assert !HasFlag(OFLAG_DIRECTORY as u16, OFLAG_CREAT) && !HasFlag(OFLAG_DIRECTORY as u16, OFLAG_EXCL);
    OpenExisting(made, handles, dirFd, name, OFLAG_DIRECTORY as u16, rightsBase, rightsInheriting, fsFlags);
  }
}
