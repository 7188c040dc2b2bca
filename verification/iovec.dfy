/** Scatter/gather I/O vectors. Guest memory is a byte sequence; the iovec list
    is taken already decoded (one `IoVec` per guest `iovec32`). */
module IoVecs {
  import opened Abi

  /** Every vector lies inside guest memory. The host's copy clamps a range
      that runs past the end of guest memory and copies only the part inside
      it, without reporting an error; that case is not modelled. */
  predicate InBounds(mem: seq<byte>, vecs: seq<IoVec>) {
    forall k :: 0 <= k < |vecs| ==> vecs[k].buffer + vecs[k].length <= |mem|
  }

  /** The bytes `memcpyFromOther32` fetches for one vector. */
  function Payload(mem: seq<byte>, v: IoVec): (r: seq<byte>)
    requires v.buffer + v.length <= |mem|
    ensures |r| == v.length
  {
    mem[v.buffer..v.buffer + v.length]
  }

  /** Payloads of all vectors, in order, zero-length ones included. */
  function Payloads(mem: seq<byte>, vecs: seq<IoVec>): (r: seq<seq<byte>>)
    requires InBounds(mem, vecs)
  {
    seq(|vecs|, k requires 0 <= k < |vecs| => Payload(mem, vecs[k]))
  }

  /** Payloads of the vectors with a non-zero length, in order. */
  function NonEmptyPayloads(mem: seq<byte>, vecs: seq<IoVec>): (r: seq<seq<byte>>)
    requires InBounds(mem, vecs)
    decreases |vecs|
  {
    if vecs == [] then []
    else
      var rest := NonEmptyPayloads(mem, vecs[1..]);
      if vecs[0].length == 0 then rest else [Payload(mem, vecs[0])] + rest
  }

  function Flatten(chunks: seq<seq<byte>>): seq<byte> {
    if chunks == [] then [] else chunks[0] + Flatten(chunks[1..])
  }

  function TotalLength(vecs: seq<IoVec>): nat {
    if vecs == [] then 0 else vecs[0].length + TotalLength(vecs[1..])
  }

  function CountNonEmpty(vecs: seq<IoVec>): nat {
    if vecs == [] then 0 else (if vecs[0].length == 0 then 0 else 1) + CountNonEmpty(vecs[1..])
  }

  lemma FlattenAppend(a: seq<seq<byte>>, b: seq<seq<byte>>)
    ensures Flatten(a + b) == Flatten(a) + Flatten(b)
  {
    if a == [] {
      assert a + b == b;
    } else {
      assert (a + b)[1..] == a[1..] + b;
      FlattenAppend(a[1..], b);
    }
  }

  /** Skipping the zero-length vectors changes neither the bytes delivered nor
      their order; the bytes delivered number the sum of the lengths. */
  lemma {:induction false} SkippingEmptyIsHarmless(mem: seq<byte>, vecs: seq<IoVec>)
    requires InBounds(mem, vecs)
    ensures Flatten(NonEmptyPayloads(mem, vecs)) == Flatten(Payloads(mem, vecs))
    ensures |Flatten(Payloads(mem, vecs))| == TotalLength(vecs)
    ensures |NonEmptyPayloads(mem, vecs)| == CountNonEmpty(vecs)
    decreases |vecs|
  {
    if vecs != [] {
      assert InBounds(mem, vecs[1..]) by {
        forall k | 0 <= k < |vecs[1..]| ensures vecs[1..][k].buffer + vecs[1..][k].length <= |mem| {
          assert vecs[1..][k] == vecs[k + 1];
        }
      }
      SkippingEmptyIsHarmless(mem, vecs[1..]);
      var all := Payloads(mem, vecs);
      assert all == [Payload(mem, vecs[0])] + Payloads(mem, vecs[1..]);
      assert all[0] == Payload(mem, vecs[0]) && all[1..] == Payloads(mem, vecs[1..]);
      if vecs[0].length == 0 {
        assert Payload(mem, vecs[0]) == [];
      }
    }
  }

  /** `forEachIoVec` of the stub implementation: one callback per vector, in
      index order, each with exactly `length` bytes (zero-length included). */
  method ForEachIoVec(mem: seq<byte>, vecs: seq<IoVec>) returns (chunks: seq<seq<byte>>)
    requires InBounds(mem, vecs)
    ensures |chunks| == |vecs|
    ensures forall k :: 0 <= k < |vecs| ==> |chunks[k]| == vecs[k].length
    ensures forall k :: 0 <= k < |vecs| ==> chunks[k] == mem[vecs[k].buffer..vecs[k].buffer + vecs[k].length]
  {
    chunks := [];
    var i := 0;
    while i < |vecs|
      invariant 0 <= i <= |vecs|
      invariant |chunks| == i
      invariant forall k :: 0 <= k < i ==> chunks[k] == mem[vecs[k].buffer..vecs[k].buffer + vecs[k].length]
    {
      var vec := vecs[i];
      var buffer := mem[vec.buffer..vec.buffer + vec.length];
      chunks := chunks + [buffer];
      i := i + 1;
    }
  }

  /** `forEachIoVecRead` of the VFS implementation: as above, but zero-length
      vectors are skipped and never reach the callback. */
  method ForEachIoVecRead(mem: seq<byte>, vecs: seq<IoVec>) returns (chunks: seq<seq<byte>>)
    requires InBounds(mem, vecs)
    ensures chunks == NonEmptyPayloads(mem, vecs)
    ensures forall k :: 0 <= k < |chunks| ==> chunks[k] != []
  {
    chunks := [];
    var i := 0;
    while i < |vecs|
      invariant 0 <= i <= |vecs|
      invariant InBounds(mem, vecs[i..])
      invariant NonEmptyPayloads(mem, vecs) == chunks + NonEmptyPayloads(mem, vecs[i..])
      invariant forall k :: 0 <= k < |chunks| ==> chunks[k] != []
    {
      assert vecs[i..][0] == vecs[i] && vecs[i..][1..] == vecs[i + 1..];
      var vec := vecs[i];
      if vec.length != 0 {
        var buffer := mem[vec.buffer..vec.buffer + vec.length];
        chunks := chunks + [buffer];
      }
      i := i + 1;
    }
  }
}
