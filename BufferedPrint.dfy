/**
 * BufferedPrint: a Print adapter that gathers written bytes in a fixed-size
 * buffer and forwards them to the underlying Print a full buffer at a time,
 * plus whatever is left when it is destroyed.
 */
module Buffering {

  newtype byte = x: int | 0 <= x < 256

  /** The bytes of the writes `chunks`, in order. */
  function Flatten(chunks: seq<seq<byte>>): seq<byte>
    decreases |chunks|
  {
    if chunks == [] then [] else Flatten(chunks[..|chunks| - 1]) + chunks[|chunks| - 1]
  }

  lemma FlattenAppend(chunks: seq<seq<byte>>, c: seq<byte>)
    ensures Flatten(chunks + [c]) == Flatten(chunks) + c
  {
    assert (chunks + [c])[..|chunks|] == chunks;
  }

  /** Flattening a longer history extends the flattening of its prefix. */
  lemma {:induction false} FlattenPrefix(chunks: seq<seq<byte>>, k: nat)
    requires k <= |chunks|
    ensures |Flatten(chunks[..k])| <= |Flatten(chunks)|
    ensures Flatten(chunks)[..|Flatten(chunks[..k])|] == Flatten(chunks[..k])
    decreases |chunks| - k
  {
    if k < |chunks| {
      var last := chunks[..|chunks| - 1];
      assert chunks[..k] == last[..k];
      FlattenPrefix(last, k);
      FlattenAppend(last, chunks[|chunks| - 1]);
      assert chunks == last + [chunks[|chunks| - 1]];
    } else {
      assert chunks[..k] == chunks;
    }
  }

  /** A history that extends another sends the other's bytes first. */
  lemma FlattenExtends(o: seq<seq<byte>>, d: seq<seq<byte>>)
    requires |o| <= |d| && d[..|o|] == o
    ensures |Flatten(o)| <= |Flatten(d)| && Flatten(d)[..|Flatten(o)|] == Flatten(o)
  {
    FlattenPrefix(d, |o|);
  }

  lemma MulAtLeast(k: int, n: int)
    requires k >= 1 && n > 0
    ensures k * n >= n
  {
    assert k * n == (k - 1) * n + n;
  }

  /** Quotient and remainder are the only pair with the remainder in
      range. */
  lemma DivModUnique(x: int, n: int, q: int, r: int)
    requires 0 < n && 0 <= r < n && x == q * n + r
    ensures x / n == q && x % n == r
  {
    var q', r' := x / n, x % n;
    assert (q - q') * n == r' - r;
    if q > q' {
      MulAtLeast(q - q', n);
    } else if q < q' {
      MulAtLeast(q' - q, n);
    }
  }

  /** Adding `c` bytes to a cursor `a % n` either stays within the buffer
      or exactly fills it. */
  lemma DivModStep(a: nat, c: nat, n: nat)
    requires 0 < n && a % n + c <= n
    ensures a % n + c < n ==> (a + c) / n == a / n && (a + c) % n == a % n + c
    ensures a % n + c == n ==> (a + c) / n == a / n + 1 && (a + c) % n == 0
  {
    var q, r := a / n, a % n;
    if r + c < n {
      DivModUnique(a + c, n, q, r + c);
    } else {
      assert a + c == (q + 1) * n + 0;
      DivModUnique(a + c, n, q + 1, 0);
    }
  }

  lemma AppendSlices(prefix: seq<byte>, src: seq<byte>, w: nat, c: nat)
    requires w + c <= |src|
    ensures prefix + src[..w] + src[w..w + c] == prefix + src[..w + c]
  {
    assert src[..w + c] == src[..w] + src[w..w + c];
  }

  /** The cursor and the number of buffers sent after `c` more bytes, when
      they were the remainder and the quotient of `a` by `n` before: a chunk
      that fills the buffer sends it and resets the cursor. */
  lemma CursorStep(a: nat, c: nat, n: nat, sent: int, sent': int, pos': int)
    requires 0 < n && a % n + c <= n && sent == a / n
    requires a % n + c < n ==> sent' == sent && pos' == a % n + c
    requires a % n + c == n ==> sent' == sent + 1 && pos' == 0
    ensures sent' == (a + c) / n && pos' == (a + c) % n
  {
    DivModStep(a, c, n);
  }

  /** A history `d` that began with `o` still begins with `o` after one
      more write. */
  lemma PrefixExtend(o: seq<seq<byte>>, d: seq<seq<byte>>, d': seq<seq<byte>>)
    requires |o| <= |d| && d[..|o|] == o
    requires |d'| == |d| + 1 && d'[..|d|] == d
    ensures d'[..|o|] == o
  {
    assert d'[..|o|] == d'[..|d|][..|o|];
  }

  class BufferedPrint {
    /** The write calls issued to the underlying Print, in order. */
    var downstream: seq<seq<byte>>
    const buffer: array<byte>
    var pos: nat
    /** Every byte written to this object so far. */
    ghost var accepted: seq<byte>

    /** Between calls the buffer is never full, and what went downstream
        followed by the buffered bytes is everything written. */
    ghost predicate Valid()
      reads this, buffer
    {
      && 0 < buffer.Length
      && pos < buffer.Length
      && Flatten(downstream) + buffer[..pos] == accepted
    }

    /** BufferedPrint(print), for a buffer of `size` bytes. */
    constructor(size: nat := 256)
      requires size > 0
      ensures Valid() && fresh(buffer)
      ensures buffer.Length == size && pos == 0 && downstream == [] && accepted == []
    {
      buffer := new byte[size];
      pos := 0;
      downstream := [];
      accepted := [];
    }

    /** flush_buffer: forwards the buffered bytes, if any, as one write. */
    method FlushBuffer()
      requires pos <= buffer.Length
      modifies this
      ensures pos == 0 && accepted == old(accepted)
      ensures old(pos) == 0 ==> downstream == old(downstream)
      ensures old(pos) > 0 ==> downstream == old(downstream) + [buffer[..old(pos)]]
      ensures Flatten(downstream) == Flatten(old(downstream)) + buffer[..old(pos)]
    {
      if pos > 0 {
        FlattenAppend(downstream, buffer[..pos]);
        downstream := downstream + [buffer[..pos]];
        pos := 0;
      } else {
        assert buffer[..pos] == [];
      }
    }

    /** write(src, size): copies `src` into the buffer chunk by chunk,
        forwarding the buffer whenever it fills up; every byte is accepted,
        and every write forwarded meanwhile is one full buffer. */
    method Write(src: seq<byte>) returns (n: nat)
      requires Valid()
      modifies this, buffer
      ensures Valid()
      ensures n == |src|
      ensures accepted == old(accepted) + src
      ensures |old(downstream)| <= |downstream| && downstream[..|old(downstream)|] == old(downstream)
      ensures forall i :: |old(downstream)| <= i < |downstream| ==> |downstream[i]| == buffer.Length
      ensures |downstream| - |old(downstream)| == (old(pos) + |src|) / buffer.Length
      ensures pos == (old(pos) + |src|) % buffer.Length
      ensures |Flatten(old(downstream))| <= |Flatten(downstream)|
      ensures Flatten(downstream)[..|Flatten(old(downstream))|] == Flatten(old(downstream))
    {
      var written := 0;
      while written < |src|
        invariant written <= |src|
        invariant Valid()
        invariant accepted == old(accepted) + src[..written]
        invariant |old(downstream)| <= |downstream| && downstream[..|old(downstream)|] == old(downstream)
        invariant forall i :: |old(downstream)| <= i < |downstream| ==> |downstream[i]| == buffer.Length
        invariant |downstream| - |old(downstream)| == (old(pos) + written) / buffer.Length
        invariant pos == (old(pos) + written) % buffer.Length
        decreases |src| - written
      {
        ghost var sent, fill, before := |downstream| - |old(downstream)|, old(pos) + written, downstream;
        var chunkSize := WriteChunk(src, written);
        AppendSlices(old(accepted), src, written, chunkSize);
        if |downstream| > |before| {
          PrefixExtend(old(downstream), before, downstream);
        }
        CursorStep(fill, chunkSize, buffer.Length, sent, |downstream| - |old(downstream)|, pos);
        written := written + chunkSize;
      }
      assert src[..written] == src;
      n := written;
      FlattenExtends(old(downstream), downstream);
    }

    /** One iteration of the loop of write: copies as much of the rest of
        `src` as fits into the buffer, and forwards the buffer once it is
        full. */
    method WriteChunk(src: seq<byte>, written: nat) returns (chunkSize: nat)
      requires Valid()
      requires written < |src|
      modifies this, buffer
      ensures Valid()
      ensures 0 < chunkSize && written + chunkSize <= |src| && old(pos) + chunkSize <= buffer.Length
      ensures accepted == old(accepted) + src[written..written + chunkSize]
      ensures old(pos) + chunkSize < buffer.Length ==> downstream == old(downstream) && pos == old(pos) + chunkSize
      ensures old(pos) + chunkSize == buffer.Length ==>
        && pos == 0
        && |downstream| == |old(downstream)| + 1
        && downstream[..|old(downstream)|] == old(downstream)
        && |downstream[|old(downstream)|]| == buffer.Length
    {
      var remain := |src| - written;
      var freeSpace := buffer.Length - pos;
      chunkSize := if freeSpace >= remain then remain else freeSpace;
      CopyChunk(src, written, chunkSize);
      if pos == buffer.Length {
        FlushBuffer();
        assert downstream[..|old(downstream)|] == old(downstream);
      }
    }

    /** The memcpy of `chunkSize` bytes of `src` from `written` on into the
        free part of the buffer, then the cursor advance. */
    method CopyChunk(src: seq<byte>, written: nat, chunkSize: nat)
      requires Valid()
      requires 0 < chunkSize <= buffer.Length - pos && written + chunkSize <= |src|
      modifies this, buffer
      ensures pos == old(pos) + chunkSize && downstream == old(downstream)
      ensures accepted == old(accepted) + src[written..written + chunkSize]
      ensures Flatten(downstream) + buffer[..pos] == accepted
      ensures 0 < buffer.Length && pos <= buffer.Length
    {
      forall k | 0 <= k < chunkSize {
        buffer[pos + k] := src[written + k];
      }
      assert buffer[..pos + chunkSize] == old(buffer[..pos]) + src[written..written + chunkSize];
      pos := pos + chunkSize;
      accepted := accepted + src[written..written + chunkSize];
    }

    /** write(c): writing one byte is writing the one-byte array. */
    method WriteByte(c: byte) returns (n: nat)
      requires Valid()
      modifies this, buffer
      ensures Valid()
      ensures n == 1
      ensures accepted == old(accepted) + [c]
      ensures |old(downstream)| <= |downstream| && downstream[..|old(downstream)|] == old(downstream)
      ensures forall i :: |old(downstream)| <= i < |downstream| ==> |downstream[i]| == buffer.Length
      ensures |downstream| - |old(downstream)| == (old(pos) + 1) / buffer.Length
      ensures pos == (old(pos) + 1) % buffer.Length
      ensures |Flatten(old(downstream))| <= |Flatten(downstream)|
      ensures Flatten(downstream)[..|Flatten(old(downstream))|] == Flatten(old(downstream))
    {
      n := Write([c]);
    }

    /** ~BufferedPrint(): forwards what is left as one more write, after
        which the underlying Print has been asked to write every byte passed
        to Write and WriteByte, in order. */
    method Close()
      requires Valid()
      modifies this
      ensures pos == 0 && accepted == old(accepted)
      ensures old(pos) == 0 ==> downstream == old(downstream)
      ensures old(pos) > 0 ==> downstream == old(downstream) + [old(buffer[..pos])]
      ensures Flatten(downstream) == accepted
      ensures |old(downstream)| <= |downstream| && downstream[..|old(downstream)|] == old(downstream)
      ensures |Flatten(old(downstream))| <= |Flatten(downstream)|
      ensures Flatten(downstream)[..|Flatten(old(downstream))|] == Flatten(old(downstream))
    {
      FlushBuffer();
      FlattenExtends(old(downstream), downstream);
    }
  }
}
