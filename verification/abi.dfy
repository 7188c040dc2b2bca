/** Fixed-width integers, result codes, flag bits and the plain records that the
    WASI snapshot_preview1 entry points exchange with the guest. */
module Abi {

  datatype Option<+T> = None | Some(value: T)

  const U8_LIMIT: int := 0x100
  const U16_LIMIT: int := 0x1_0000
  const U32_LIMIT: int := 0x1_0000_0000
  const U64_LIMIT: int := 0x1_0000_0000_0000_0000
  const I64_LIMIT: int := 0x8000_0000_0000_0000

  type byte = x: int | 0 <= x < U8_LIMIT
  type u16 = x: int | 0 <= x < U16_LIMIT
  type u32 = x: int | 0 <= x < U32_LIMIT
  type u64 = x: int | 0 <= x < U64_LIMIT
  type i64 = x: int | -I64_LIMIT <= x < I64_LIMIT

  /** `size_t` of the wasm32 target: a conversion to it keeps the low 32 bits. */
  function ToSize(x: int): (r: u32)
    ensures x >= 0 && x < U32_LIMIT ==> r == x
    ensures (r - x) % U32_LIMIT == 0
  {
    x % U32_LIMIT
  }

  const NUL: byte := 0
  const NEWLINE: byte := 10
  const SLASH: byte := 47

  /** The `result_t` values (the preview1 errno enumeration). */
  type Errno = u16
  const ESUCCESS: Errno := 0
  const EBADF: Errno := 8
  const EEXIST: Errno := 20
  const EINVAL: Errno := 28
  const EISDIR: Errno := 31
  const ENOENT: Errno := 44
  const ENOTDIR: Errno := 54
  const ENOTCAPABLE: Errno := 76

  /** File types as reported in fdstat and filestat. */
  const FILETYPE_REGULAR: int := 3
  const FILETYPE_DIRECTORY: int := 4

  /** `x & mask` is non-zero, for a single-bit `mask`. */
  predicate HasFlag(x: nat, mask: nat)
    requires mask > 0
  {
    (x / mask) % 2 == 1
  }

  // path_open oflags
  const OFLAG_CREAT: nat := 1
  const OFLAG_DIRECTORY: nat := 2
  const OFLAG_EXCL: nat := 4
  const OFLAG_TRUNC: nat := 8
  // fdflags
  const FDFLAG_APPEND: nat := 1
  // set_times flags
  const FSTFLAG_ATIM: nat := 1
  const FSTFLAG_MTIM: nat := 2

  /** `fdstat`: the capability snapshot a handle carries. */
  datatype FdStat = FdStat(filetype: int, flags: u16, rightsBase: u64, rightsInheriting: u64)

  /** The snapshot of a default-constructed `fdstat`. */
  const DEFAULT_FDSTAT := FdStat(FILETYPE_DIRECTORY, 0, 0, 0)

  /** `filestat`, field for field. */
  datatype FileStat = FileStat(
    device: u64, inode: u64, filetype: int, linkCount: u64, size: u64,
    aTime: u64, mTime: u64, cTime: u64)

  /** `prestat` of a pre-opened directory. */
  datatype Prestat = Prestat(kind: int, nameLength: u32)

  /** One guest I/O vector: a guest address and a length. */
  datatype IoVec = IoVec(buffer: u32, length: u32)

  /** One `memcpyToOther32` into guest memory: destination and bytes. */
  datatype Copy = Copy(dest: nat, bytes: seq<byte>)

  function Zeros(n: nat): (r: seq<byte>)
    ensures |r| == n && forall i :: 0 <= i < n ==> r[i] == 0
  {
    seq(n, _ => 0)
  }
}
