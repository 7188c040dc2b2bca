/** Entry points that both implementations define identically: the empty
    argument and environment lists, and `random_get`. */
module Preview1 {
  import opened Abi

  /** What `args_sizes_get` / `environ_sizes_get` store through their two
      out-pointers, and the result code. */
  datatype SizesReply = SizesReply(err: Errno, count: Option<u32>, bufferSize: Option<u32>)

  /** `args_sizes_get` and `environ_sizes_get`: the guest has no arguments and no
      environment, so both sizes are stored as 0. */
  function EmptyListSizes(): (r: SizesReply)
    ensures r.err == ESUCCESS && r.count == Some(0) && r.bufferSize == Some(0)
  {
    SizesReply(ESUCCESS, Some(0), Some(0))
  }

  /** `args_get` and `environ_get`: success, and nothing is copied to the guest. */
  function EmptyListGet(): (r: (Errno, seq<Copy>))
    ensures r.0 == ESUCCESS && r.1 == []
  {
    (ESUCCESS, [])
  }

  function Pow256(k: nat): (r: nat)
    ensures r >= 1
  {
    if k == 0 then 1 else 256 * Pow256(k - 1)
  }

  /** The eight bytes of a 64-bit value as they lie in (little-endian) memory. */
  function LittleEndian(v: u64): (r: seq<byte>)
    ensures |r| == 8
  {
    seq(8, i requires 0 <= i < 8 => (v / Pow256(i)) % 256)
  }

  /** Number of `getRandom64` calls for `length` bytes: one per started 8-byte chunk. */
  function Chunks(length: nat): nat {
    (length + 7) / 8
  }

  /** One `memcpyToOther32` of `random_get`: it covers the guest range
      [start, end); only its first bytes, `known`, come from the random value.
      The bounds are unbounded sums; the 32-bit guest addresses of the source
      differ from them only past 2^32, beyond guest memory. */
  datatype RandomCopy = RandomCopy(start: nat, end: nat, known: seq<byte>)

  function Min(a: int, b: int): int {
    if a <= b then a else b
  }

  /** The copies `random_get` makes for `length` bytes at `buffer`, given the
      values the host returns, in call order. */
  predicate IsRandomFill(buffer: nat, length: nat, oracle: seq<u64>, copies: seq<RandomCopy>) {
    && |copies| == Chunks(length)
    && |oracle| >= |copies|
    && forall k :: 0 <= k < |copies| ==>
         && copies[k].start == buffer + 8 * k
         && copies[k].end == buffer + length
         && copies[k].known == LittleEndian(oracle[k])[..Min(8, length - 8 * k)]
  }

  /** The `offset += 8` step of the `random_get` loop as written: `offset` is a
      `uint32_t`, so the addition wraps modulo 2^32. */
  function NextOffsetAsWritten(offset: u32): (r: u32)
    ensures offset < U32_LIMIT - 8 ==> r == offset + 8
    ensures offset >= U32_LIMIT - 8 ==> r == offset + 8 - U32_LIMIT
  {
    (offset + 8) % U32_LIMIT
  }

  /** With the 32-bit offset, a length above 2^32 - 8 never ends the loop: every
      offset the loop can reach (a multiple of 8) is below the length, and the
      step from the last one wraps back to 0. */
  lemma RandomGetAsWrittenNeverExits(length: u32, offset: u32)
    requires length > U32_LIMIT - 8 && offset % 8 == 0
    ensures offset < length
    ensures NextOffsetAsWritten(offset) % 8 == 0
    ensures offset == U32_LIMIT - 8 ==> NextOffsetAsWritten(offset) == 0
  {
    assert offset <= U32_LIMIT - 8 by {
      assert U32_LIMIT % 8 == 0;
    }
  }

  /** `random_get` with the offset held in 64 bits, as intended: one host call
      per started 8-byte chunk, the k-th copy starting at offset 8k and every
      copy ending exactly at buffer+length, for every 32-bit length. */
  method RandomGet(buffer: u32, length: u32, oracle: seq<u64>) returns (err: Errno, copies: seq<RandomCopy>)
    requires |oracle| >= Chunks(length)
    ensures err == ESUCCESS
    ensures IsRandomFill(buffer, length, oracle, copies)
    ensures length == 0 ==> copies == []
  {
    copies := [];
    var offset: u64 := 0;
    while offset < length
      invariant offset == 8 * |copies| && offset <= length + 7
      invariant offset < length ==> |copies| < Chunks(length)
      invariant offset >= length ==> |copies| == Chunks(length)
      invariant forall k :: 0 <= k < |copies| ==>
         && copies[k].start == buffer + 8 * k
         && copies[k].end == buffer + length
         && copies[k].known == LittleEndian(oracle[k])[..Min(8, length - 8 * k)]
    {
      var v64 := oracle[|copies|];
      var bytes := length - offset;
      copies := copies + [RandomCopy(buffer + offset, buffer + offset + bytes, LittleEndian(v64)[..Min(8, bytes)])];
      offset := offset + 8;
    }
    err := ESUCCESS;
  }

  /** Nothing outside [buffer, buffer+length) is written, and although each
      copy but the last runs past its eight random bytes, every byte of the
      range is last written by the copy of its own chunk, inside that copy's
      random bytes: the final contents are the random values, back to back. */
  lemma {:induction false} RandomFillFinalBytes(buffer: nat, length: nat, oracle: seq<u64>, copies: seq<RandomCopy>, j: nat)
    requires IsRandomFill(buffer, length, oracle, copies)
    requires j < length
    ensures forall k :: 0 <= k < |copies| ==> buffer <= copies[k].start && copies[k].end == buffer + length
    ensures j / 8 < |copies|
    ensures copies[j / 8].start <= buffer + j < copies[j / 8].end
    ensures j % 8 < |copies[j / 8].known| && copies[j / 8].known[j % 8] == LittleEndian(oracle[j / 8])[j % 8]
    ensures forall k :: j / 8 < k < |copies| ==> buffer + j < copies[k].start
  {
    var c := j / 8;
    assert j == 8 * c + j % 8;
    assert c < Chunks(length);
    assert length - 8 * c > j % 8;
    forall k | c < k < |copies| ensures buffer + j < copies[k].start {
      assert 8 * k >= 8 * c + 8;
    }
  }
}
