/** The in-memory file tree. Nodes live in an arena (a sequence); a directory
    lists its children by arena index, in creation order. Index 0 is the root. */
module Vfs {
  import opened Abi

  type Name = seq<byte>

  /** `VfsNode`. Only the access and modification times of its `filestat`
      can change, so only those two are kept. */
  datatype Node = Node(isDir: bool, name: Name, contents: seq<byte>, children: seq<nat>, aTime: u64, mTime: u64)

  /** A freshly constructed `VfsNode`: `isDir` defaults to true. */
  function EmptyDir(name: Name): Node {
    Node(true, name, [], [], 0, 0)
  }

  type Arena = seq<Node>

  const ROOT: nat := 0

  predicate NodeOk(n: Node, count: nat) {
    && (forall c :: c in n.children ==> c < count)
    && (n.isDir ==> n.contents == [])
    && |n.contents| < U32_LIMIT
  }

  /** Every child index is in the arena, directories hold no bytes and a file
      is never larger than a wasm32 `std::vector` can be. */
  predicate ArenaOk(nodes: Arena) {
    |nodes| >= 1 && forall i :: 0 <= i < |nodes| ==> NodeOk(nodes[i], |nodes|)
  }

  lemma NodeOkWider(n: Node, count: nat, wider: nat)
    requires NodeOk(n, count) && count <= wider
    ensures NodeOk(n, wider)
  {
  }

  // ---- child lookup (VfsNode::get) ----

  predicate IndicesIn(kids: seq<nat>, count: nat) {
    forall k :: k in kids ==> k < count
  }

  /** The first of `kids` whose node is called `name`. */
  function ChildNamed(nodes: Arena, kids: seq<nat>, name: Name): (r: Option<nat>)
    requires IndicesIn(kids, |nodes|)
    ensures r.Some? ==> r.value in kids && nodes[r.value].name == name
    ensures r.None? <==> forall k :: k in kids ==> nodes[k].name != name
    decreases |kids|
  {
    if kids == [] then None
    else if assert kids[0] in kids; nodes[kids[0]].name == name then Some(kids[0])
    else
      assert forall k :: k in kids[1..] ==> k in kids;
      ChildNamed(nodes, kids[1..], name)
  }

  lemma IndicesInSuffix(kids: seq<nat>, from: nat, count: nat)
    requires IndicesIn(kids, count) && from <= |kids|
    ensures IndicesIn(kids[from..], count)
  {
    forall k | k in kids[from..] ensures k < count {
      var j :| 0 <= j < |kids[from..]| && kids[from..][j] == k;
      assert kids[from + j] == k && kids[from + j] in kids;
    }
  }

  /** The scan in `VfsNode::get`: the children in order, stopping at the
      first with the name. */
  method ScanChildren(nodes: Arena, kids: seq<nat>, name: Name) returns (found: Option<nat>)
    requires IndicesIn(kids, |nodes|)
    ensures found == ChildNamed(nodes, kids, name)
  {
    var i := 0;
    while i < |kids|
      invariant 0 <= i <= |kids|
      invariant IndicesIn(kids[i..], |nodes|)
      invariant ChildNamed(nodes, kids, name) == ChildNamed(nodes, kids[i..], name)
    {
      assert kids[i..][0] == kids[i] && kids[i..][1..] == kids[i + 1..];
      IndicesInSuffix(kids, i + 1, |nodes|);
      assert kids[i] in kids;
      if nodes[kids[i]].name == name {
        return Some(kids[i]);
      }
      i := i + 1;
    }
    assert kids[i..] == [];
    found := None;
  }

  /** The lookup scans in order: a match among the first children hides any
      later one. */
  lemma {:induction false} ChildNamedConcat(nodes: Arena, xs: seq<nat>, ys: seq<nat>, name: Name)
    requires IndicesIn(xs, |nodes|) && IndicesIn(ys, |nodes|)
    ensures IndicesIn(xs + ys, |nodes|)
    ensures ChildNamed(nodes, xs + ys, name)
         == if ChildNamed(nodes, xs, name).Some? then ChildNamed(nodes, xs, name) else ChildNamed(nodes, ys, name)
    decreases |xs|
  {
    if xs == [] {
      assert xs + ys == ys;
    } else {
      assert (xs + ys)[0] == xs[0] && (xs + ys)[1..] == xs[1..] + ys;
      assert IndicesIn(xs[1..], |nodes|) by {
        assert forall k :: k in xs[1..] ==> k in xs;
      }
      ChildNamedConcat(nodes, xs[1..], ys, name);
    }
  }

  /** The lookup depends on the names of the listed nodes only. */
  lemma {:induction false} ChildNamedSameNames(a: Arena, b: Arena, kids: seq<nat>, name: Name)
    requires IndicesIn(kids, |a|) && IndicesIn(kids, |b|)
    requires forall k :: k in kids ==> a[k].name == b[k].name
    ensures ChildNamed(a, kids, name) == ChildNamed(b, kids, name)
    decreases |kids|
  {
    if kids != [] {
      assert forall k :: k in kids[1..] ==> k in kids;
      ChildNamedSameNames(a, b, kids[1..], name);
    }
  }

  /** `VfsNode::get` on node `dir`: the new arena and the node found or created. */
  function GetChild(nodes: Arena, dir: nat, name: Name, create: bool): (r: (Arena, Option<nat>))
    requires ArenaOk(nodes) && dir < |nodes|
    ensures ArenaOk(r.0) && Extends(nodes, r.0)
    ensures r.1.Some? ==> r.1.value < |r.0| && r.0[r.1.value].name == name && r.1.value in r.0[dir].children
    ensures r.1.None? <==> !create && ChildNamed(nodes, nodes[dir].children, name).None?
    ensures ChildNamed(nodes, nodes[dir].children, name).Some? || !create ==> r == (nodes, ChildNamed(nodes, nodes[dir].children, name))
    ensures ChildNamed(nodes, nodes[dir].children, name).None? && create ==>
      && |r.0| == |nodes| + 1 && r.1 == Some(|nodes|)
      && r.0[|nodes|] == EmptyDir(name)
      && r.0[dir].children == nodes[dir].children + [|nodes|]
      && forall i :: 0 <= i < |nodes| && i != dir ==> r.0[i] == nodes[i]
  {
    assert NodeOk(nodes[dir], |nodes|);
    var found := ChildNamed(nodes, nodes[dir].children, name);
    if found.Some? || !create then (nodes, found)
    else
      var grown := nodes[dir].(children := nodes[dir].children + [|nodes|]);
      var next := nodes[dir := grown] + [EmptyDir(name)];
      assert ArenaOk(next) by {
        forall i | 0 <= i < |next| ensures NodeOk(next[i], |next|) {
          if i < |nodes| && i != dir {
            NodeOkWider(nodes[i], |nodes|, |next|);
          }
        }
      }
      (next, Some(|nodes|))
  }

  // ---- growth of the tree ----

  /** `b` is `a` with possibly more nodes and longer child lists: no node of `a`
      is renamed, retyped or rewritten, and no child is dropped or reordered. */
  predicate Extends(a: Arena, b: Arena) {
    |a| <= |b| && forall i :: 0 <= i < |a| ==> Grows(a[i], b[i])
  }

  predicate Grows(x: Node, y: Node) {
    y == x.(children := y.children) && x.children <= y.children
  }

  lemma ExtendsTransitive(a: Arena, b: Arena, c: Arena)
    requires Extends(a, b) && Extends(b, c)
    ensures Extends(a, c)
  {
    forall i | 0 <= i < |a| ensures Grows(a[i], c[i]) {
      assert Grows(a[i], b[i]) && Grows(b[i], c[i]);
    }
  }

  /** Once a name is found under a node, it is found there, as the same node,
      in every extension of the arena. */
  lemma ChildNamedStable(a: Arena, b: Arena, dir: nat, name: Name)
    requires ArenaOk(a) && ArenaOk(b) && Extends(a, b) && dir < |a|
    requires ChildNamed(a, a[dir].children, name).Some?
    ensures ChildNamed(b, b[dir].children, name) == ChildNamed(a, a[dir].children, name)
  {
    assert NodeOk(a[dir], |a|) && NodeOk(b[dir], |b|);
    var kids := a[dir].children;
    var more := b[dir].children[|kids|..];
    assert Grows(a[dir], b[dir]);
    assert b[dir].children == kids + more;
    assert IndicesIn(more, |b|) by {
      assert forall k :: k in more ==> k in b[dir].children;
    }
    ChildNamedConcat(b, kids, more, name);
    forall k | k in kids ensures a[k].name == b[k].name {
      assert Grows(a[k], b[k]);
    }
    ChildNamedSameNames(a, b, kids, name);
  }

  // ---- path resolution (vfsGet) ----

  function FirstIndex(p: seq<byte>, b: byte): (r: nat)
    requires b in p
    ensures r < |p| && p[r] == b && b !in p[..r]
  {
    if p[0] == b then 0 else FirstIndex(p[1..], b) + 1
  }

  /** The pieces `std::getline(stream, name, '/')` yields: empty pieces between
      consecutive separators are kept, a trailing separator yields no last
      piece, and the empty path yields none. */
  function Split(p: seq<byte>): (r: seq<Name>)
    ensures forall k :: 0 <= k < |r| ==> SLASH !in r[k]
    ensures p == [] <==> r == []
    ensures p != [] && p[|p| - 1] != SLASH ==> Join(r) == p
    ensures p != [] && p[|p| - 1] == SLASH ==> Join(r) + [SLASH] == p
    decreases |p|
  {
    if p == [] then []
    else if SLASH !in p then [p]
    else
      var i := FirstIndex(p, SLASH);
      var rest := Split(p[i + 1..]);
      assert p == p[..i] + [SLASH] + p[i + 1..];
      assert rest != [] ==> Join([p[..i]] + rest) == p[..i] + [SLASH] + Join(rest) by {
        if rest != [] { assert ([p[..i]] + rest)[1..] == rest; }
      }
      [p[..i]] + rest
  }

  /** The pieces joined with separators. */
  function Join(segs: seq<Name>): seq<byte> {
    if segs == [] then []
    else if |segs| == 1 then segs[0]
    else segs[0] + [SLASH] + Join(segs[1..])
  }

  /** `vfsGet` from node `cur`: look up (or create) each piece in turn,
      stopping at the first missing one. */
  function Walk(nodes: Arena, cur: nat, segs: seq<Name>, create: bool): (r: (Arena, Option<nat>))
    requires ArenaOk(nodes) && cur < |nodes|
    ensures ArenaOk(r.0) && Extends(nodes, r.0)
    ensures r.1.Some? ==> r.1.value < |r.0|
    ensures !create ==> r.0 == nodes
    ensures create ==> r.1.Some?
    decreases |segs|
  {
    if segs == [] then (nodes, Some(cur))
    else
      var step := GetChild(nodes, cur, segs[0], create);
      if step.1.None? then step
      else
        var r := Walk(step.0, step.1.value, segs[1..], create);
        ExtendsTransitive(nodes, step.0, r.0);
        r
  }

  /** How many leading pieces already resolve from `cur`. */
  function ExistingPrefix(nodes: Arena, cur: nat, segs: seq<Name>): (r: nat)
    requires ArenaOk(nodes) && cur < |nodes|
    ensures r <= |segs|
    decreases |segs|
  {
    if segs == [] then 0
    else
      assert NodeOk(nodes[cur], |nodes|);
      match ChildNamed(nodes, nodes[cur].children, segs[0])
      case None => 0
      case Some(c) => 1 + ExistingPrefix(nodes, c, segs[1..])
  }

  /** Without creation the walk fails exactly when some piece is missing. */
  lemma {:induction false} WalkFindsIffPrefixExists(nodes: Arena, cur: nat, segs: seq<Name>)
    requires ArenaOk(nodes) && cur < |nodes|
    ensures Walk(nodes, cur, segs, false).1.Some? <==> ExistingPrefix(nodes, cur, segs) == |segs|
    decreases |segs|
  {
    if segs != [] {
      assert NodeOk(nodes[cur], |nodes|);
      var found := ChildNamed(nodes, nodes[cur].children, segs[0]);
      if found.Some? {
        WalkFindsIffPrefixExists(nodes, found.value, segs[1..]);
      }
    }
  }

  /** Resolving an existing path with creation on changes nothing and finds
      the same node as a plain lookup. */
  lemma {:induction false} WalkCreateOnExisting(nodes: Arena, cur: nat, segs: seq<Name>)
    requires ArenaOk(nodes) && cur < |nodes|
    requires Walk(nodes, cur, segs, false).1.Some?
    ensures Walk(nodes, cur, segs, true) == Walk(nodes, cur, segs, false)
    decreases |segs|
  {
    if segs != [] {
      assert NodeOk(nodes[cur], |nodes|);
      var found := ChildNamed(nodes, nodes[cur].children, segs[0]);
      WalkCreateOnExisting(nodes, found.value, segs[1..]);
    }
  }

  /** From an empty directory, creating walks append one new empty directory
      per piece, each the only child of the one before. */
  lemma {:induction false} WalkCreateFromEmpty(nodes: Arena, cur: nat, segs: seq<Name>)
    requires ArenaOk(nodes) && cur < |nodes| && nodes[cur].children == []
    ensures |Walk(nodes, cur, segs, true).0| == |nodes| + |segs|
    ensures segs != [] ==> Walk(nodes, cur, segs, true).1 == Some(|nodes| + |segs| - 1)
    ensures forall i :: |nodes| <= i < |nodes| + |segs| ==>
      Walk(nodes, cur, segs, true).0[i].isDir && Walk(nodes, cur, segs, true).0[i].contents == []
    decreases |segs|
  {
    if segs != [] {
      var step := GetChild(nodes, cur, segs[0], true);
      assert ChildNamed(nodes, nodes[cur].children, segs[0]).None?;
      WalkCreateFromEmpty(step.0, |nodes|, segs[1..]);
      var r := Walk(step.0, |nodes|, segs[1..], true);
      assert Walk(nodes, cur, segs, true) == r;
      forall i | |nodes| <= i < |nodes| + |segs| ensures r.0[i].isDir && r.0[i].contents == [] {
        if i == |nodes| {
          assert Grows(step.0[i], r.0[i]);
        }
      }
    }
  }

  /** A creating walk appends exactly one empty directory per missing piece:
      the pieces after the existing prefix. */
  lemma {:induction false} WalkCreateAppends(nodes: Arena, cur: nat, segs: seq<Name>)
    requires ArenaOk(nodes) && cur < |nodes|
    ensures |Walk(nodes, cur, segs, true).0| == |nodes| + |segs| - ExistingPrefix(nodes, cur, segs)
    ensures forall i :: |nodes| <= i < |Walk(nodes, cur, segs, true).0| ==>
      Walk(nodes, cur, segs, true).0[i].isDir && Walk(nodes, cur, segs, true).0[i].contents == []
    decreases |segs|
  {
    if segs != [] {
      assert NodeOk(nodes[cur], |nodes|);
      var found := ChildNamed(nodes, nodes[cur].children, segs[0]);
      if found.Some? {
        WalkCreateAppends(nodes, found.value, segs[1..]);
      } else {
        var step := GetChild(nodes, cur, segs[0], true);
        WalkCreateFromEmpty(step.0, |nodes|, segs[1..]);
        var r := Walk(step.0, |nodes|, segs[1..], true);
        forall i | |nodes| <= i < |r.0| ensures r.0[i].isDir && r.0[i].contents == [] {
          if i == |nodes| {
            assert Grows(step.0[i], r.0[i]);
          }
        }
      }
    }
  }

  /** A creating walk of a path that does not resolve ends on a node it
      appended: an empty directory. */
  lemma {:induction false} WalkCreateMissingIsNew(nodes: Arena, cur: nat, segs: seq<Name>)
    requires ArenaOk(nodes) && cur < |nodes|
    requires Walk(nodes, cur, segs, false).1.None?
    ensures |nodes| <= Walk(nodes, cur, segs, true).1.value
    ensures Walk(nodes, cur, segs, true).0[Walk(nodes, cur, segs, true).1.value].isDir
    ensures Walk(nodes, cur, segs, true).0[Walk(nodes, cur, segs, true).1.value].contents == []
    decreases |segs|
  {
    assert NodeOk(nodes[cur], |nodes|);
    var found := ChildNamed(nodes, nodes[cur].children, segs[0]);
    if found.Some? {
      WalkCreateMissingIsNew(nodes, found.value, segs[1..]);
    } else {
      var step := GetChild(nodes, cur, segs[0], true);
      WalkCreateFromEmpty(step.0, |nodes|, segs[1..]);
      var r := Walk(step.0, |nodes|, segs[1..], true);
      if segs[1..] == [] {
        assert r == (step.0, Some(|nodes|));
      }
    }
  }

  /** What a creating walk returns is what a plain lookup of the same path
      finds afterwards. */
  lemma {:induction false} WalkCreateThenFind(nodes: Arena, cur: nat, segs: seq<Name>)
    requires ArenaOk(nodes) && cur < |nodes|
    ensures Walk(Walk(nodes, cur, segs, true).0, cur, segs, false) == Walk(nodes, cur, segs, true)
    decreases |segs|
  {
    if segs != [] {
      var step := GetChild(nodes, cur, segs[0], true);
      var c := step.1.value;
      WalkCreateThenFind(step.0, c, segs[1..]);
      var r := Walk(step.0, c, segs[1..], true);
      assert ChildNamed(step.0, step.0[cur].children, segs[0]) == Some(c) by {
        assert NodeOk(step.0[cur], |step.0|);
        var kids := nodes[cur].children;
        assert NodeOk(nodes[cur], |nodes|);
        if ChildNamed(nodes, kids, segs[0]).None? {
          ChildNamedConcat(step.0, kids, [c], segs[0]);
          forall k | k in kids ensures nodes[k].name == step.0[k].name {
            assert Grows(nodes[k], step.0[k]);
          }
          ChildNamedSameNames(nodes, step.0, kids, segs[0]);
        }
      }
      ChildNamedStable(step.0, r.0, cur, segs[0]);
    }
  }

  // ---- file contents ----

  /** `std::vector::resize`: the new length, the surviving prefix, zero fill. */
  function Resize(contents: seq<byte>, size: nat): (r: seq<byte>)
    ensures |r| == size
    ensures forall i :: 0 <= i < size && i < |contents| ==> r[i] == contents[i]
    ensures forall i :: |contents| <= i < size ==> r[i] == 0
  {
    if size <= |contents| then contents[..size] else contents + Zeros(size - |contents|)
  }

  /** `fileContents.insert(begin() + offset, length, 0)`: `length` zero bytes at
      `offset`, the tail shifted right. */
  function Insert(contents: seq<byte>, offset: nat, length: nat): (r: seq<byte>)
    requires offset <= |contents|
    ensures |r| == |contents| + length
    ensures r[..offset] == contents[..offset]
    ensures forall i :: offset <= i < offset + length ==> r[i] == 0
    ensures r[offset + length..] == contents[offset..]
  {
    contents[..offset] + Zeros(length) + contents[offset..]
  }

  /** `VfsNode::setSize`, with its `size_t` argument. */
  function SetSize(n: Node, size: u32): (r: (Errno, Node))
    ensures r.0 == EISDIR <==> n.isDir
    ensures r.0 != EISDIR ==> r.0 == ESUCCESS && r.1 == n.(contents := Resize(n.contents, size))
    ensures n.isDir ==> r.1 == n
  {
    if n.isDir then (EISDIR, n) else (ESUCCESS, n.(contents := Resize(n.contents, size)))
  }

  /** `VfsNode::allocate`, with its `size_t` arguments. The source inserts at an
      offset past the end without a check; that case is excluded. */
  function Allocate(n: Node, offset: u32, length: u32): (r: (Errno, Node))
    requires !n.isDir ==> offset <= |n.contents|
    ensures r.0 == EISDIR <==> n.isDir
    ensures r.0 != EISDIR ==> r.0 == ESUCCESS && r.1 == n.(contents := Insert(n.contents, offset, length))
    ensures n.isDir ==> r.1 == n
  {
    if n.isDir then (EISDIR, n) else (ESUCCESS, n.(contents := Insert(n.contents, offset, length)))
  }

  /** `VfsNode::stat`: the file type is derived from the node on every call;
      the stored size is never updated and stays 0. */
  function StatOf(n: Node): (r: FileStat)
    ensures r.filetype == (if n.isDir then FILETYPE_DIRECTORY else FILETYPE_REGULAR)
    ensures r.size == 0 && r.linkCount == 1
    ensures r.aTime == n.aTime && r.mTime == n.mTime
    ensures r.device == 0 && r.inode == 0 && r.cTime == 0
  {
    FileStat(0, 0, if n.isDir then FILETYPE_DIRECTORY else FILETYPE_REGULAR, 1, 0, n.aTime, n.mTime, 0)
  }

  /** The `*_set_times` update: bit 0 sets the access time, bit 1 the
      modification time; nothing else changes. */
  function Touch(n: Node, aTime: u64, mTime: u64, flags: u16): (r: Node)
    ensures r.aTime == (if HasFlag(flags, FSTFLAG_ATIM) then aTime else n.aTime)
    ensures r.mTime == (if HasFlag(flags, FSTFLAG_MTIM) then mTime else n.mTime)
    ensures r == n.(aTime := r.aTime, mTime := r.mTime)
  {
    var withA := if HasFlag(flags, FSTFLAG_ATIM) then n.(aTime := aTime) else n;
    if HasFlag(flags, FSTFLAG_MTIM) then withA.(mTime := mTime) else withA
  }

  // ---- directory creation ----

  /** A name that `path_create_directory` refuses: it holds a '/' or a NUL. */
  function HasBadByte(name: Name): (r: bool)
    ensures r <==> exists i :: 0 <= i < |name| && (name[i] == SLASH || name[i] == NUL)
  {
    if name == [] then false
    else name[0] == SLASH || name[0] == NUL || HasBadByte(name[1..])
  }

  /** `path_create_directory` once the descriptor has resolved to node `dir`. */
  function MakeDir(nodes: Arena, dir: nat, name: Name): (r: (Errno, Arena))
    requires ArenaOk(nodes) && dir < |nodes|
    ensures ArenaOk(r.1)
    ensures r.0 == EINVAL <==> HasBadByte(name)
    ensures r.0 == EEXIST <==> !HasBadByte(name) && ChildNamed(nodes, nodes[dir].children, name).Some?
    ensures r.0 == ESUCCESS || r.0 == EINVAL || r.0 == EEXIST
    ensures r.0 != ESUCCESS ==> r.1 == nodes
    ensures r.0 == ESUCCESS ==>
      && |r.1| == |nodes| + 1 && r.1[|nodes|] == EmptyDir(name)
      && r.1[dir].children == nodes[dir].children + [|nodes|]
      && r.1[dir] == nodes[dir].(children := r.1[dir].children)
      && forall i :: 0 <= i < |nodes| && i != dir ==> r.1[i] == nodes[i]
  {
    assert NodeOk(nodes[dir], |nodes|);
    if HasBadByte(name) then (EINVAL, nodes)
    else if ChildNamed(nodes, nodes[dir].children, name).Some? then (EEXIST, nodes)
    else
      var step := GetChild(nodes, dir, name, true);
      assert Grows(nodes[dir], step.0[dir]);
      (ESUCCESS, step.0)
  }

  /** Creating the same directory twice: the second attempt finds the first. */
  lemma MakeDirTwice(nodes: Arena, dir: nat, name: Name)
    requires ArenaOk(nodes) && dir < |nodes|
    requires MakeDir(nodes, dir, name).0 == ESUCCESS
    ensures MakeDir(MakeDir(nodes, dir, name).1, dir, name).0 == EEXIST
    ensures ChildNamed(MakeDir(nodes, dir, name).1, MakeDir(nodes, dir, name).1[dir].children, name) == Some(|nodes|)
  {
    var after := MakeDir(nodes, dir, name).1;
    var kids := nodes[dir].children;
    assert NodeOk(nodes[dir], |nodes|) && NodeOk(after[dir], |after|);
    ChildNamedConcat(after, kids, [|nodes|], name);
    forall k | k in kids ensures nodes[k].name == after[k].name {
      if k != dir { assert after[k] == nodes[k]; }
    }
    ChildNamedSameNames(nodes, after, kids, name);
  }

  // ---- the loader ----

  /** `vfs_createFile` with the staged path: a path not starting with '/' gives
      no buffer; otherwise the rest of the path is resolved with creation and
      the node becomes a file of exactly `data` (its old children dropped). */
  function CreateFile(nodes: Arena, pendingPath: seq<byte>, data: seq<byte>): (r: (Arena, Option<nat>))
    requires ArenaOk(nodes) && |data| < U32_LIMIT
    ensures ArenaOk(r.0)
    ensures r.1.None? <==> pendingPath == [] || pendingPath[0] != SLASH
    ensures r.1.None? ==> r.0 == nodes
    ensures r.1.Some? ==>
      var found := Walk(nodes, ROOT, Split(pendingPath[1..]), true);
      && found.1 == r.1
      && r.0 == found.0[r.1.value := found.0[r.1.value].(isDir := false, children := [], contents := data)]
  {
    if pendingPath == [] || pendingPath[0] != SLASH then (nodes, None)
    else
      var found := Walk(nodes, ROOT, Split(pendingPath[1..]), true);
      var node := found.1.value;
      var next := found.0[node := found.0[node].(isDir := false, children := [], contents := data)];
      assert ArenaOk(next) by {
        forall i | 0 <= i < |next| ensures NodeOk(next[i], |next|) {
          if i != node { assert next[i] == found.0[i]; }
        }
      }
      (next, found.1)
  }
}
