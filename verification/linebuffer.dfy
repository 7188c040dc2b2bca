/** Line buffering of the console streams (descriptors 1 and 2): bytes are
    collected in a per-stream buffer and every newline hands the buffer, without
    the newline, to the host as one line. Both implementations share this. */
module LineBuffer {
  import opened Abi
  import opened IoVecs

  predicate NoNewline(s: seq<byte>) {
    forall i :: 0 <= i < |s| ==> s[i] != NEWLINE
  }

  function CountNewlines(s: seq<byte>): nat {
    if s == [] then 0 else (if s[0] == NEWLINE then 1 else 0) + CountNewlines(s[1..])
  }

  /** The lines joined back together, each followed by its newline. */
  function Joined(lines: seq<seq<byte>>): seq<byte> {
    if lines == [] then [] else lines[0] + [NEWLINE] + Joined(lines[1..])
  }

  /** Feeding `data` to a stream whose buffer holds `buffer`: the lines emitted,
      in order, and what stays buffered. */
  function Feed(buffer: seq<byte>, data: seq<byte>): (r: (seq<seq<byte>>, seq<byte>))
    ensures |r.0| == CountNewlines(data)
    ensures |r.1| <= |buffer| + |data|
    decreases |data|
  {
    if data == [] then ([], buffer)
    else if data[0] == NEWLINE then
      var rest := Feed([], data[1..]);
      ([buffer] + rest.0, rest.1)
    else Feed(buffer + [data[0]], data[1..])
  }

  /** Nothing is lost or invented: the lines, each with its newline, followed by
      the new buffer, are exactly the old buffer followed by the data. */
  lemma {:induction false} FeedReassembles(buffer: seq<byte>, data: seq<byte>)
    ensures Joined(Feed(buffer, data).0) + Feed(buffer, data).1 == buffer + data
    decreases |data|
  {
    if data == [] {
    } else if data[0] == NEWLINE {
      var rest := Feed([], data[1..]);
      assert Joined(rest.0) + rest.1 == data[1..] by {
        FeedReassembles([], data[1..]);
      }
      assert Joined([buffer] + rest.0) == buffer + [NEWLINE] + Joined(rest.0) by {
        assert ([buffer] + rest.0)[1..] == rest.0;
      }
      AppendNewlineLine(buffer, Joined(rest.0), rest.1, data);
    } else {
      FeedReassembles(buffer + [data[0]], data[1..]);
      assert buffer + [data[0]] + data[1..] == buffer + data;
    }
  }

  lemma AppendNewlineLine(buffer: seq<byte>, joined: seq<byte>, tail: seq<byte>, data: seq<byte>)
    requires data != [] && data[0] == NEWLINE && joined + tail == data[1..]
    ensures buffer + [NEWLINE] + joined + tail == buffer + data
  {
    assert [NEWLINE] + data[1..] == data;
  }

  /** One line per newline in the data; no emitted line and no buffered byte is
      a newline, provided the buffer held none. */
  lemma {:induction false} FeedLines(buffer: seq<byte>, data: seq<byte>)
    requires NoNewline(buffer)
    ensures |Feed(buffer, data).0| == CountNewlines(data)
    ensures forall k :: 0 <= k < |Feed(buffer, data).0| ==> NoNewline(Feed(buffer, data).0[k])
    ensures NoNewline(Feed(buffer, data).1)
    decreases |data|
  {
    if data == [] {
    } else if data[0] == NEWLINE {
      FeedLines([], data[1..]);
      var rest := Feed([], data[1..]);
      forall k | 0 <= k < |[buffer] + rest.0|
        ensures NoNewline(([buffer] + rest.0)[k])
      {
        if k > 0 { assert ([buffer] + rest.0)[k] == rest.0[k - 1]; }
      }
    } else {
      FeedLines(buffer + [data[0]], data[1..]);
    }
  }

  /** A newline-free buffer plus newline-free data emits nothing: the partial
      line is simply kept for a later call. */
  lemma {:induction false} FeedPartialLine(buffer: seq<byte>, data: seq<byte>)
    requires NoNewline(data)
    ensures Feed(buffer, data) == ([], buffer + data)
    decreases |data|
  {
    if data != [] {
      assert data[0] != NEWLINE;
      assert NoNewline(data[1..]) by {
        forall i | 0 <= i < |data[1..]| ensures data[1..][i] != NEWLINE {
          assert data[1..][i] == data[i + 1];
        }
      }
      FeedPartialLine(buffer + [data[0]], data[1..]);
      assert buffer + [data[0]] + data[1..] == buffer + data;
    } else {
      assert buffer + data == buffer;
    }
  }

  /** Feeding in two pieces, the second starting from the buffer the first left
      behind, is feeding the whole: iovec boundaries and call boundaries do not
      matter, and a partial line is prefixed to the next line emitted. */
  lemma {:induction false} FeedConcat(buffer: seq<byte>, x: seq<byte>, y: seq<byte>)
    ensures Feed(buffer, x + y)
         == (Feed(buffer, x).0 + Feed(Feed(buffer, x).1, y).0, Feed(Feed(buffer, x).1, y).1)
    decreases |x|
  {
    if x == [] {
      assert x + y == y;
      assert [] + Feed(buffer, y).0 == Feed(buffer, y).0;
    } else {
      assert (x + y)[0] == x[0] && (x + y)[1..] == x[1..] + y;
      if x[0] == NEWLINE {
        FeedConcat([], x[1..], y);
        var first := Feed([], x[1..]);
        var second := Feed(first.1, y);
        assert Feed([], x[1..] + y) == (first.0 + second.0, second.1);
        assert Feed(buffer, x) == ([buffer] + first.0, first.1);
        assert Feed(buffer, x + y) == ([buffer] + (first.0 + second.0), second.1);
        assert [buffer] + (first.0 + second.0) == ([buffer] + first.0) + second.0;
      } else {
        FeedConcat(buffer + [x[0]], x[1..], y);
      }
    }
  }

  /** The per-byte loop of the console `fd_write` callback: every non-newline
      byte is pushed onto the buffer, every newline sends the buffer as a line
      and clears it. */
  method PushBytes(buffer: seq<byte>, data: seq<byte>) returns (lines: seq<seq<byte>>, rest: seq<byte>)
    ensures (lines, rest) == Feed(buffer, data)
  {
    lines, rest := [], buffer;
    var i := 0;
    assert data[i..] == data;
    assert lines + Feed(rest, data).0 == Feed(rest, data).0;
    while i < |data|
      invariant 0 <= i <= |data|
      invariant Feed(buffer, data) == (lines + Feed(rest, data[i..]).0, Feed(rest, data[i..]).1)
    {
      ghost var tail := Feed(rest, data[i + 1..]);
      assert data[i..][0] == data[i] && data[i..][1..] == data[i + 1..];
      if data[i] == NEWLINE {
        ghost var after := Feed([], data[i + 1..]);
        assert Feed(rest, data[i..]) == ([rest] + after.0, after.1);
        assert lines + ([rest] + after.0) == (lines + [rest]) + after.0;
        lines := lines + [rest];
        rest := [];
      } else {
        assert Feed(rest, data[i..]) == Feed(rest + [data[i]], data[i + 1..]);
        rest := rest + [data[i]];
      }
      i := i + 1;
    }
    assert data[i..] == [];
    assert lines + [] == lines;
  }

  /** The console `fd_write` callback applied to each chunk in turn: the lines
      emitted across all chunks, the buffer left behind, and the running
      32-bit `size_t` total of the chunk lengths. Chunk boundaries do not
      matter: the outcome is that of feeding all the bytes at once. */
  method FeedChunks(buffer: seq<byte>, chunks: seq<seq<byte>>) returns (lines: seq<seq<byte>>, rest: seq<byte>, total: u32)
    ensures (lines, rest) == Feed(buffer, Flatten(chunks))
    ensures total == |Flatten(chunks)| % U32_LIMIT
  {
    lines, rest, total := [], buffer, 0;
    var i := 0;
    assert chunks[..0] == [];
    while i < |chunks|
      invariant 0 <= i <= |chunks|
      invariant (lines, rest) == Feed(buffer, Flatten(chunks[..i]))
      invariant total == |Flatten(chunks[..i])| % U32_LIMIT
    {
      var emitted, left := PushBytes(rest, chunks[i]);
      FeedConcat(buffer, Flatten(chunks[..i]), chunks[i]);
      FlattenAppend(chunks[..i], [chunks[i]]);
      assert Flatten([chunks[i]]) == chunks[i] by {
        assert [chunks[i]][1..] == chunks[..0];
      }
      assert chunks[..i + 1] == chunks[..i] + [chunks[i]];
      assert Flatten(chunks[..i + 1]) == Flatten(chunks[..i]) + chunks[i];
      lines, rest := lines + emitted, left;
      total := (total + |chunks[i]|) % U32_LIMIT;
      i := i + 1;
    }
    assert chunks[..i] == chunks;
  }
}
