/**
 * `Uint8ArrayChunkStream`: a transform stream that re-chunks a byte stream
 * into pieces of exactly `size` bytes, holding the remainder in a buffer
 * until the next write or the final flush.
 */
module ChunkStream {
  import opened Bytes
  import opened Seqs

  /** Every piece in `qs` has exactly `size` bytes. */
  predicate AllSized(qs: seq<seq<byte>>, size: nat)
  {
    forall k :: 0 <= k < |qs| ==> |qs[k]| == size
  }

  lemma AllSizedSnoc(qs: seq<seq<byte>>, q: seq<byte>, size: nat)
    requires AllSized(qs, size) && |q| == size
    ensures AllSized(qs + [q], size)
  {
    assert forall k :: 0 <= k < |qs| ==> (qs + [q])[k] == qs[k];
  }

  /** The full chunks of `size` bytes that `bs` starts with, in order; a shorter tail is not among them. */
  function Chunks(bs: seq<byte>, size: nat): (r: seq<seq<byte>>)
    requires size > 0
    ensures AllSized(r, size)
    decreases |bs|
  {
    if |bs| < size then [] else [bs[..size]] + Chunks(bs[size..], size)
  }

  /** Full chunks followed by a short tail split back into exactly those chunks. */
  lemma {:induction false} ChunksOfSized(qs: seq<seq<byte>>, rest: seq<byte>, size: nat)
    requires size > 0 && AllSized(qs, size) && |rest| < size
    ensures Chunks(Concat(qs) + rest, size) == qs
  {
    if qs != [] {
      var tail := Concat(qs[1..]) + rest;
      assert Concat(qs) + rest == qs[0] + tail;
      assert (qs[0] + tail)[..size] == qs[0];
      assert (qs[0] + tail)[size..] == tail;
      assert AllSized(qs[1..], size) by {
        forall k | 0 <= k < |qs[1..]|
          ensures |qs[1..][k]| == size
        {
          assert qs[1..][k] == qs[k + 1];
        }
      }
      ChunksOfSized(qs[1..], rest, size);
    }
  }

  /** Pieces of `size` bytes each add up to `size` times their number. */
  lemma {:induction false} ConcatSized(qs: seq<seq<byte>>, size: nat)
    requires AllSized(qs, size)
    ensures |Concat(qs)| == |qs| * size
  {
    if qs != [] {
      assert AllSized(qs[1..], size) by {
        forall k | 0 <= k < |qs[1..]|
          ensures |qs[1..][k]| == size
        {
          assert qs[1..][k] == qs[k + 1];
        }
      }
      ConcatSized(qs[1..], size);
      assert |qs| * size == (|qs| - 1) * size + size;
    }
  }

  /**
   * What an open stream holds is fixed by the bytes written: the chunks out
   * are the full chunks of the input, `input.length / size` of them, and the
   * buffer holds the last `input.length % size` bytes.
   */
  lemma Determined(qs: seq<seq<byte>>, rest: seq<byte>, input: seq<byte>, size: nat)
    requires size > 0 && AllSized(qs, size) && |rest| < size && Concat(qs) + rest == input
    ensures qs == Chunks(input, size)
    ensures |qs| == |input| / size && |rest| == |input| % size
    ensures rest == input[|input| - |rest|..]
  {
    ChunksOfSized(qs, rest, size);
    ConcatSized(qs, size);
    DivModUnique(|input|, size, |qs|, |rest|);
  }

  /** Taking one chunk of `size` from `left` bytes leaves one chunk fewer and the same remainder. */
  lemma TakeChunk(left: nat, size: nat)
    requires size > 0 && left / size >= 1
    ensures left >= size
    ensures (left - size) / size == left / size - 1 && (left - size) % size == left % size
  {
    if left < size {
      DivModUnique(left, size, 0, left);
    }
    var q, r := (left - size) / size, (left - size) % size;
    assert left == (q + 1) * size + r;
    DivModUnique(left, size, q + 1, r);
  }

  /** Fewer than one chunk left: the bytes left are their own remainder. */
  lemma NoChunkLeft(left: nat, size: nat)
    requires size > 0 && left / size == 0
    ensures left < size && left % size == left
  {
    assert left == left / size * size + left % size;
  }

  /** After one more chunk goes out, the chunks out and the input still left are the same bytes. */
  lemma EmittedFull(qs: seq<seq<byte>>, before: seq<byte>, chunk: seq<byte>, written: nat, next: nat, input: seq<byte>)
    requires written <= next <= |chunk|
    requires Concat(qs) + before + chunk[written..] == input
    ensures Concat(qs + [before + chunk[written..next]]) + chunk[next..] == input
  {
    ConcatSnoc(qs, before + chunk[written..next]);
    assert chunk[written..] == chunk[written..next] + chunk[next..];
  }

  class ChunkStream {
    /** `_size`: the length of every full chunk. */
    var size: nat
    /** `_buffer`: the chunk being filled. */
    var buffer: array<byte>
    /** `_l`: how much of `buffer` is filled. */
    var l: nat
    /** The chunks passed to `controller.enqueue`, in order. */
    var queue: seq<seq<byte>>
    /** Set by the flush, which deletes `_buffer` and `_size`. */
    var closed: bool
    /** Every byte written to the stream so far. */
    ghost var input: seq<byte>

    /**
     * While the stream is open, every chunk out so far is full, the buffer
     * holds less than one chunk, and the chunks then the buffer are exactly
     * the bytes written.
     */
    ghost predicate Open()
      reads this, buffer
    {
      !closed && size > 0 && buffer.Length == size && l < size &&
      AllSized(queue, size) && Concat(queue) + buffer[..l] == input
    }

    constructor(size: nat)
      requires size > 0
      ensures Open() && fresh(buffer)
      ensures this.size == size && l == 0 && queue == [] && input == []
    {
      this.size := size;
      buffer := new byte[size];
      l := 0;
      queue := [];
      closed := false;
      input := [];
    }

    /**
     * Inside `_transform`: the stream is open, and the chunks out, then the
     * buffer, then `chunk` from `written` on, are exactly the bytes written.
     */
    ghost predicate Pending(chunk: seq<byte>, written: nat)
      reads this, buffer
    {
      written <= |chunk| && !closed && size > 0 && buffer.Length == size && l < size &&
      AllSized(queue, size) && Concat(queue) + buffer[..l] + chunk[written..] == input
    }

    /**
     * `_transform`: fills and enqueues as many full chunks as the buffered
     * bytes and `chunk` make, then keeps the rest in a fresh buffer.
     */
    method Transform(chunk: seq<byte>)
      requires Open()
      modifies this, buffer
      ensures Open() && size == old(size)
      ensures input == old(input) + chunk
      ensures |queue| == |old(queue)| + (old(l) + |chunk|) / size
      ensures queue[..|old(queue)|] == old(queue)
      ensures l == (old(l) + |chunk|) % size
    {
      input := input + chunk;
      ghost var l0, q0 := l, queue;
      var written: nat := 0;
      var numberOfChunks := (l + |chunk|) / size;
      for bufIndex := 0 to numberOfChunks
        invariant Pending(chunk, written) && size == old(size)
        invariant buffer == old(buffer) || fresh(buffer)
        invariant input == old(input) + chunk
        invariant (l + (|chunk| - written)) / size == numberOfChunks - bufIndex
        invariant (l + (|chunk| - written)) % size == (l0 + |chunk|) % size
        invariant |queue| == |q0| + bufIndex && queue[..|q0|] == q0
      {
        TakeChunk(l + (|chunk| - written), size);
        ghost var qb := queue;
        written := EmitFull(chunk, written);
        assert queue[..|q0|] == qb[..|q0|];
      }
      NoChunkLeft(l + (|chunk| - written), size);
      KeepRest(chunk, written);
    }

    /**
     * One turn of the outer loop of `_transform`: tops the buffer up from
     * `chunk` at `written`, enqueues it and starts a fresh one.
     */
    method EmitFull(chunk: seq<byte>, written: nat) returns (next: nat)
      requires Pending(chunk, written) && written + (size - l) <= |chunk|
      modifies this, buffer
      ensures Pending(chunk, next) && fresh(buffer) && l == 0
      ensures next == written + (old(size) - old(l))
      ensures size == old(size) && input == old(input)
      ensures queue == old(queue) + [old(buffer[..l]) + chunk[written..next]]
    {
      var sl := l;
      next := written + (size - sl);
      EmittedFull(queue, buffer[..l], chunk, written, next, input);
      AllSizedSnoc(queue, buffer[..l] + chunk[written..next], size);
      Fill(chunk, written, next);
      assert buffer[..] == buffer[..l];
      queue := queue + [buffer[..]];
      buffer := new byte[size];
      l := 0;
      assert Concat(queue) + buffer[..l] == Concat(queue);
    }

    /** The last loop of `_transform`: the rest of `chunk`, less than a chunk, goes into the buffer. */
    method KeepRest(chunk: seq<byte>, written: nat)
      requires Pending(chunk, written) && l + (|chunk| - written) < size
      modifies this, buffer
      ensures Open() && buffer == old(buffer) && l == old(l) + (|chunk| - written)
      ensures size == old(size) && queue == old(queue) && input == old(input)
    {
      ghost var before := buffer[..l];
      Fill(chunk, written, |chunk|);
      assert buffer[..l] == before + chunk[written..];
    }

    /**
     * Copies `chunk[from..to]` into the buffer after its `l` filled bytes:
     * the inner loop of `_transform`, and its final loop.
     */
    method Fill(chunk: seq<byte>, from: nat, to: nat)
      requires from <= to <= |chunk| && l + (to - from) <= buffer.Length
      modifies this, buffer
      ensures l == old(l) + (to - from) && buffer == old(buffer)
      ensures buffer[..l] == old(buffer[..l]) + chunk[from..to]
      ensures size == old(size) && queue == old(queue)
      ensures closed == old(closed) && input == old(input)
    {
      for n := 0 to to - from
        invariant l == old(l) + n && buffer == old(buffer)
        invariant buffer[..l] == old(buffer[..l]) + chunk[from..from + n]
        invariant size == old(size) && queue == old(queue) && closed == old(closed) && input == old(input)
      {
        buffer[l] := chunk[from + n];
        l := l + 1;
        assert chunk[from..from + n + 1] == chunk[from..from + n] + [chunk[from + n]];
      }
    }

    /**
     * The flush: enqueues the filled part of the buffer when there is one,
     * then closes the stream.  Every byte written has then come out, in order.
     */
    method Flush()
      requires Open()
      modifies this
      ensures closed && l == 0 && input == old(input)
      ensures old(l) != 0 ==> queue == old(queue) + [old(buffer[..l])]
      ensures old(l) == 0 ==> queue == old(queue)
      ensures Concat(queue) == input
    {
      var b := buffer[..l];
      if l != 0 {
        ConcatSnoc(queue, b);
        queue := queue + [b];
      } else {
        assert Concat(queue) + [] == Concat(queue);
      }
      closed := true;
      l := 0;
    }
  }
}
