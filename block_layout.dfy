/**
 * The on-storage layout the upload and download workers share: a file part
 * is cut into blocks of 64 KiB, each block is stored as its ciphertext
 * followed by a 16-byte tag and a 16-byte iv, at a fixed stride of 64 KiB
 * plus 32 bytes.  Also the hex codecs the workers use for keys, tags and ivs.
 */
module BlockLayout {
  import opened Bytes
  import opened Seqs
  import opened Text

  const BLOCK_SIZE: nat := 64 * 1024
  const BLOCK_OVERHEAD: nat := 32
  const BLOCK_SIZE_ON_FS: nat := BLOCK_SIZE + BLOCK_OVERHEAD
  const BLOCKS_PER_PART: nat := 80
  const PART_SIZE_ON_FS: nat := BLOCKS_PER_PART * BLOCK_SIZE_ON_FS
  /** Length of the GCM tag and of the iv stored after each ciphertext. */
  const TAG_LENGTH: nat := 16
  const IV_LENGTH: nat := 16

  // ---------------------------------------------------------------- sizes

  /** `numberOfBlocks`: `Math.ceil(size / blockSize)`, the least count of blocks that holds `size` bytes. */
  function NumberOfBlocks(size: nat): (r: nat)
    ensures r * BLOCK_SIZE >= size && r * BLOCK_SIZE < size + BLOCK_SIZE
  {
    if size % BLOCK_SIZE == 0 then size / BLOCK_SIZE else size / BLOCK_SIZE + 1
  }

  /** `sizeOnFS`: every block costs 32 bytes more on storage. */
  function SizeOnFS(size: nat): (r: nat)
    ensures r == size + BLOCK_OVERHEAD * NumberOfBlocks(size)
    ensures r >= size
  {
    size + BLOCK_OVERHEAD * NumberOfBlocks(size)
  }

  /** `numberOfBlocksOnFS`: `Math.ceil(sizeOnFS / blockSizeOnFS)`. */
  function NumberOfBlocksOnFS(sizeOnFS: nat): (r: nat)
    ensures r * BLOCK_SIZE_ON_FS >= sizeOnFS && r * BLOCK_SIZE_ON_FS < sizeOnFS + BLOCK_SIZE_ON_FS
  {
    if sizeOnFS % BLOCK_SIZE_ON_FS == 0 then sizeOnFS / BLOCK_SIZE_ON_FS else sizeOnFS / BLOCK_SIZE_ON_FS + 1
  }

  /** The download worker counts on storage as many blocks as the upload worker wrote. */
  lemma BlocksOnFSOfSizeOnFS(size: nat)
    ensures NumberOfBlocksOnFS(SizeOnFS(size)) == NumberOfBlocks(size)
  {
    var n := NumberOfBlocks(size);
    var m := NumberOfBlocksOnFS(SizeOnFS(size));
    assert n * BLOCK_SIZE_ON_FS == n * BLOCK_SIZE + n * BLOCK_OVERHEAD;
    assert m * BLOCK_SIZE_ON_FS == m * BLOCK_SIZE + m * BLOCK_OVERHEAD;
  }

  /** A part holds 80 stored blocks: 5,245,440 bytes. */
  lemma PartSize()
    ensures PART_SIZE_ON_FS == 5245440
  {
  }

  // ---------------------------------------------------------------- ranges

  /** The HTTP byte range the download worker asks for part `partIndex`, both ends inclusive. */
  datatype ByteRange = ByteRange(first: nat, last: int)

  function PartRange(partIndex: nat, sizeOnFS: nat): (r: ByteRange)
    ensures r.first == partIndex * PART_SIZE_ON_FS
    ensures r.last < sizeOnFS && r.last - r.first < PART_SIZE_ON_FS
  {
    var end := (partIndex + 1) * PART_SIZE_ON_FS;
    ByteRange(partIndex * PART_SIZE_ON_FS, (if sizeOnFS < end then sizeOnFS else end) - 1)
  }

  /**
   * Consecutive parts ask for adjacent ranges: a part that is not the last
   * asks for exactly one part's bytes, and the next starts right after it;
   * the part holding the last byte ends on it.
   */
  lemma PartRangesTile(partIndex: nat, sizeOnFS: nat)
    ensures (partIndex + 1) * PART_SIZE_ON_FS <= sizeOnFS ==>
              PartRange(partIndex, sizeOnFS).last - PartRange(partIndex, sizeOnFS).first + 1 == PART_SIZE_ON_FS &&
              PartRange(partIndex, sizeOnFS).last + 1 == PartRange(partIndex + 1, sizeOnFS).first
    ensures partIndex * PART_SIZE_ON_FS < sizeOnFS <= (partIndex + 1) * PART_SIZE_ON_FS ==>
              PartRange(partIndex, sizeOnFS).last == sizeOnFS - 1
  {
  }

  // ---------------------------------------------------------------- hex

  /** The digits `toString(16)` writes. */
  predicate IsLowerHexDigit(c: char)
  {
    '0' <= c <= '9' || 'a' <= c <= 'f'
  }

  /** The digits `parseInt(_, 16)` reads. */
  predicate IsHexDigit(c: char)
  {
    IsLowerHexDigit(c) || 'A' <= c <= 'F'
  }

  predicate IsHex(h: string)
  {
    forall k :: 0 <= k < |h| ==> IsHexDigit(h[k])
  }

  /** `parseInt(d, 16)` of one digit. */
  function HexValue(c: char): (v: nat)
    requires IsHexDigit(c)
    ensures v < 16
  {
    if c <= '9' then c as int - '0' as int
    else if c <= 'F' then c as int - 'A' as int + 10
    else c as int - 'a' as int + 10
  }

  /** The digit `Number.prototype.toString(16)` writes for `d`: lower case. */
  function HexDigitChar(d: nat): (c: char)
    requires d < 16
    ensures IsLowerHexDigit(c) && HexValue(c) == d
  {
    if d < 10 then ('0' as int + d) as char else ('a' as int + d - 10) as char
  }

  /**
   * `hexToBytes`: the string cut into pieces of two characters (the last
   * one may be a single character), each read in base 16.
   */
  function HexToBytes(h: string): (r: seq<byte>)
    requires IsHex(h)
    ensures |r| == (|h| + 1) / 2
  {
    if |h| == 0 then []
    else if |h| == 1 then [HexValue(h[0])]
    else [HexValue(h[0]) * 16 + HexValue(h[1])] + HexToBytes(h[2..])
  }

  /** `n.toString(16)`: the base-16 digits of `n`, no leading zeros. */
  function RadixHex(n: nat): (r: string)
    ensures |r| >= 1 && IsHex(r)
  {
    if n < 16 then [HexDigitChar(n)] else RadixHex(n / 16) + [HexDigitChar(n % 16)]
  }

  /** `('00' + n.toString(16)).slice(-2)` for one byte. */
  function ByteHex(b: byte): string
  {
    var padded := "00" + RadixHex(b);
    Slice(padded, -2, |padded|)
  }

  /** Each byte becomes exactly two lower-case digits, the high one first, zero padded. */
  lemma ByteHexDigits(b: byte)
    ensures ByteHex(b) == [HexDigitChar(b / 16), HexDigitChar(b % 16)]
  {
    if b < 16 {
      assert "00" + RadixHex(b) == ['0', '0', HexDigitChar(b)];
    } else {
      assert RadixHex(b / 16) == [HexDigitChar(b / 16)];
      assert "00" + RadixHex(b) == ['0', '0', HexDigitChar(b / 16), HexDigitChar(b % 16)];
    }
  }

  /** `bytesToHex`: the two digits of every byte, joined with nothing between. */
  function BytesToHex(bs: seq<byte>): (r: string)
    ensures |r| == 2 * |bs| && IsHex(r)
  {
    if bs == [] then []
    else
      ByteHexDigits(bs[0]);
      ByteHex(bs[0]) + BytesToHex(bs[1..])
  }

  /** Hex written by the download worker reads back, in the upload worker, as the same bytes. */
  lemma {:induction false} HexToBytesOfBytesToHex(bs: seq<byte>)
    ensures HexToBytes(BytesToHex(bs)) == bs
  {
    if bs != [] {
      ByteHexDigits(bs[0]);
      var h := BytesToHex(bs);
      assert h[2..] == BytesToHex(bs[1..]);
      HexToBytesOfBytesToHex(bs[1..]);
    }
  }

  /** Two lower-case digits read as one byte are written back as themselves. */
  lemma ByteHexOfPair(c0: char, c1: char)
    requires IsLowerHexDigit(c0) && IsLowerHexDigit(c1)
    ensures 0 <= HexValue(c0) * 16 + HexValue(c1) < 256
    ensures ByteHex(HexValue(c0) * 16 + HexValue(c1)) == [c0, c1]
  {
    var b: byte := HexValue(c0) * 16 + HexValue(c1);
    ByteHexDigits(b);
    DivModUnique(b, 16, HexValue(c0), HexValue(c1));
  }

  /** And lower-case hex of even length is what `bytesToHex` gives for the bytes it denotes. */
  lemma {:induction false} BytesToHexOfHexToBytes(h: string)
    requires |h| % 2 == 0 && forall k :: 0 <= k < |h| ==> IsLowerHexDigit(h[k])
    ensures BytesToHex(HexToBytes(h)) == h
  {
    if h != [] {
      ByteHexOfPair(h[0], h[1]);
      var r := HexToBytes(h);
      assert r[0] == HexValue(h[0]) * 16 + HexValue(h[1]);
      assert r[1..] == HexToBytes(h[2..]);
      BytesToHexOfHexToBytes(h[2..]);
      assert h == [h[0], h[1]] + h[2..];
    }
  }

  // ---------------------------------------------------------------- upload

  /** Block `i` of a chunk: `chunk.slice(i * blockSize, (i + 1) * blockSize)`. */
  function BlockAt(chunk: seq<byte>, i: nat): seq<byte>
  {
    Slice(chunk, i * BLOCK_SIZE, (i + 1) * BLOCK_SIZE)
  }

  /** A block below the count is never empty and holds at most 64 KiB; only the last one may be short. */
  lemma BlockAtLength(chunk: seq<byte>, i: nat)
    requires i < NumberOfBlocks(|chunk|)
    ensures i * BLOCK_SIZE < |chunk|
    ensures BlockAt(chunk, i) == chunk[i * BLOCK_SIZE..Min((i + 1) * BLOCK_SIZE, |chunk|)]
    ensures 0 < |BlockAt(chunk, i)| <= BLOCK_SIZE
    ensures i + 1 < NumberOfBlocks(|chunk|) ==> |BlockAt(chunk, i)| == BLOCK_SIZE
    ensures i + 1 == NumberOfBlocks(|chunk|) ==> |BlockAt(chunk, i)| == |chunk| - i * BLOCK_SIZE
    ensures |BlockAt(chunk, i)| == BlockLength(|chunk|, i)
  {
  }

  /** The length of block `k` of `size` bytes, by arithmetic alone. */
  function BlockLength(size: nat, k: nat): nat
  {
    if (k + 1) * BLOCK_SIZE <= size then BLOCK_SIZE
    else if k * BLOCK_SIZE < size then size - k * BLOCK_SIZE
    else 0
  }

  function Min(a: int, b: int): int
  {
    if a < b then a else b
  }

  /** What the crypto library returns for one block: the ciphertext, its tag and the iv used. */
  datatype Sealed = Sealed(content: seq<byte>, tag: seq<byte>, iv: seq<byte>)

  /** `new Uint8Array([...content, ...tag, ...iv])`: the bytes stored for one block. */
  function Stored(s: Sealed): seq<byte>
  {
    s.content + s.tag + s.iv
  }

  /** The stored form of each block, in order. */
  function StoredAll(ss: seq<Sealed>): (r: seq<seq<byte>>)
    ensures |r| == |ss|
    ensures forall k :: 0 <= k < |ss| ==> r[k] == Stored(ss[k])
  {
    if ss == [] then [] else [Stored(ss[0])] + StoredAll(ss[1..])
  }

  /**
   * The library's output for each block of `chunk`: AES-GCM keeps the
   * length of the plaintext, and the tag and the iv are 16 bytes each.
   */
  predicate SealsBlocks(chunk: seq<byte>, ss: seq<Sealed>)
  {
    |ss| == NumberOfBlocks(|chunk|) &&
    forall k :: 0 <= k < |ss| ==>
      |ss[k].content| == |BlockAt(chunk, k)| && |ss[k].tag| == TAG_LENGTH && |ss[k].iv| == IV_LENGTH
  }

  /**
   * The first loop of `createBody`: the chunk cut into its blocks, in
   * order; together they are the chunk.
   */
  method SplitIntoBlocks(chunk: seq<byte>) returns (blocks: seq<seq<byte>>)
    ensures |blocks| == NumberOfBlocks(|chunk|)
    ensures forall k :: 0 <= k < |blocks| ==> blocks[k] == BlockAt(chunk, k)
    ensures Concat(blocks) == chunk
  {
    blocks := [];
    var n := NumberOfBlocks(|chunk|);
    for i := 0 to n
      invariant |blocks| == i
      invariant forall k :: 0 <= k < i ==> blocks[k] == BlockAt(chunk, k)
      invariant Concat(blocks) == chunk[..Min(i * BLOCK_SIZE, |chunk|)]
    {
      BlockAtLength(chunk, i);
      var block := Slice(chunk, i * BLOCK_SIZE, (i + 1) * BLOCK_SIZE);
      ConcatSnoc(blocks, block);
      assert chunk[..i * BLOCK_SIZE] + block == chunk[..Min((i + 1) * BLOCK_SIZE, |chunk|)];
      blocks := blocks + [block];
    }
    assert chunk[..|chunk|] == chunk;
  }

  /** Stored blocks whose lengths are those of the blocks of `size` bytes, each 32 bytes longer. */
  predicate Strided(enc: seq<seq<byte>>, size: nat)
  {
    |enc| == NumberOfBlocks(size) &&
    forall k :: 0 <= k < |enc| ==> |enc[k]| == BlockLength(size, k) + BLOCK_OVERHEAD
  }

  lemma SealedStrided(chunk: seq<byte>, ss: seq<Sealed>)
    requires SealsBlocks(chunk, ss)
    ensures Strided(StoredAll(ss), |chunk|)
  {
    forall k | 0 <= k < |ss|
      ensures |StoredAll(ss)[k]| == BlockLength(|chunk|, k) + BLOCK_OVERHEAD
    {
      BlockAtLength(chunk, k);
    }
  }

  /** Block `i - 1` is full unless it is the last, which ends the body. */
  lemma StrideStep(size: nat, i: nat)
    requires 1 <= i <= NumberOfBlocks(size)
    ensures i < NumberOfBlocks(size) ==> BlockLength(size, i - 1) == BLOCK_SIZE
    ensures i == NumberOfBlocks(size) ==>
              (i - 1) * BLOCK_SIZE_ON_FS + BlockLength(size, i - 1) + BLOCK_OVERHEAD == SizeOnFS(size)
  {
    var n := NumberOfBlocks(size);
    assert n * BLOCK_SIZE < size + BLOCK_SIZE;
  }

  /** Where the stored blocks before block `i` end: a whole stride per block, and the whole body after the last. */
  lemma {:induction false} StoredPrefixLength(enc: seq<seq<byte>>, size: nat, i: nat)
    requires Strided(enc, size) && i <= |enc|
    ensures i < |enc| ==> |Concat(enc[..i])| == i * BLOCK_SIZE_ON_FS
    ensures i == |enc| ==> |Concat(enc[..i])| == SizeOnFS(size)
    ensures |Concat(enc[..i])| <= SizeOnFS(size)
  {
    if i == 0 {
      assert enc[..0] == [];
    } else {
      var prev := enc[..i - 1];
      StoredPrefixLength(enc, size, i - 1);
      assert |Concat(enc[..i])| == |Concat(prev)| + |enc[i - 1]| by {
        assert enc[..i] == prev + [enc[i - 1]];
        ConcatSnoc(prev, enc[i - 1]);
      }
      StrideStep(size, i);
    }
  }

  /**
   * `createBody`: an output of `sizeOnFS(chunk.length)` bytes with the
   * stored form of block `i` written from offset `i * blockSizeOnFS`.
   * The stored blocks fill it exactly, in order.
   */
  method CreateBody(chunk: seq<byte>, ss: seq<Sealed>) returns (p: array<byte>)
    requires SealsBlocks(chunk, ss)
    ensures fresh(p) && p.Length == SizeOnFS(|chunk|)
    ensures p[..] == Concat(StoredAll(ss))
  {
    p := new byte[SizeOnFS(|chunk|)];
    ghost var enc := StoredAll(ss);
    SealedStrided(chunk, ss);
    for i := 0 to |ss|
      invariant |Concat(enc[..i])| <= p.Length
      invariant p[..|Concat(enc[..i])|] == Concat(enc[..i])
    {
      StoredPrefixLength(enc, |chunk|, i);
      StoredPrefixLength(enc, |chunk|, i + 1);
      ConcatPrefixStep(enc, i);
      assert enc[i] == Stored(ss[i]);
      WriteAt(p, i * BLOCK_SIZE_ON_FS, Stored(ss[i]));
    }
    StoredPrefixLength(enc, |chunk|, |ss|);
    assert enc[..|ss|] == enc;
  }

  /** The inner loop of `createBody`: `bytes` copied into `p` from `at` on; what comes before is kept. */
  method WriteAt(p: array<byte>, at: nat, bytes: seq<byte>)
    requires at + |bytes| <= p.Length
    modifies p
    ensures p[..at + |bytes|] == old(p[..at]) + bytes
  {
    for byteIndex := 0 to |bytes|
      invariant p[..at + byteIndex] == old(p[..at]) + bytes[..byteIndex]
    {
      p[at + byteIndex] := bytes[byteIndex];
      assert bytes[..byteIndex + 1] == bytes[..byteIndex] + [bytes[byteIndex]];
    }
    assert bytes[..|bytes|] == bytes;
  }

  // ---------------------------------------------------------------- download

  /** Stored block `j` of a part: `part.slice(j * blockSizeOnFS, (j + 1) * blockSizeOnFS)`. */
  function StoredBlockAt(part: seq<byte>, j: nat): seq<byte>
  {
    Slice(part, j * BLOCK_SIZE_ON_FS, (j + 1) * BLOCK_SIZE_ON_FS)
  }

  /**
   * One stored block taken apart: the last 16 bytes are the iv, the 16
   * before them the tag, and the rest the ciphertext (`subarray` with
   * JavaScript's reading of negative offsets, so a block under 32 bytes is
   * cut as the engine cuts it).
   */
  function Unstore(block: seq<byte>): (r: Sealed)
    ensures |block| >= TAG_LENGTH + IV_LENGTH ==>
              |r.iv| == IV_LENGTH && |r.tag| == TAG_LENGTH && r.content + r.tag + r.iv == block
  {
    var n := |block|;
    Sealed(Slice(block, 0, n - 32), Slice(block, n - 32, n - 16), Slice(block, n - 16, n))
  }

  /** Taking apart what the upload worker stored gives back the ciphertext, tag and iv. */
  lemma UnstoreStored(s: Sealed)
    requires |s.tag| == TAG_LENGTH && |s.iv| == IV_LENGTH
    ensures Unstore(Stored(s)) == s
  {
    var b := Stored(s);
    assert b[..|b| - 32] == s.content;
    assert b[|b| - 32..|b| - 16] == s.tag;
    assert b[|b| - 16..] == s.iv;
  }

  /**
   * The block loop of the download worker: every stored block of the part,
   * taken apart, in order, ready for the decryption call.
   */
  method ReadPart(part: seq<byte>) returns (data: array<Sealed>)
    ensures fresh(data) && data.Length == NumberOfBlocksOnFS(|part|)
    ensures forall j :: 0 <= j < data.Length ==> data[j] == Unstore(StoredBlockAt(part, j))
  {
    var n := NumberOfBlocksOnFS(|part|);
    data := new Sealed[n](_ => Sealed([], [], []));
    for j := 0 to n
      invariant forall k :: 0 <= k < j ==> data[k] == Unstore(StoredBlockAt(part, k))
    {
      var block := Slice(part, j * BLOCK_SIZE_ON_FS, (j + 1) * BLOCK_SIZE_ON_FS);
      data[j] := Unstore(block);
    }
  }

  /** Stored block `j` of a body made of strided blocks is exactly block `j`. */
  lemma StoredBlockOfBody(enc: seq<seq<byte>>, size: nat, j: nat)
    requires Strided(enc, size) && j < |enc|
    ensures StoredBlockAt(Concat(enc), j) == enc[j]
  {
    ConcatAt(enc, j);
    var at := j * BLOCK_SIZE_ON_FS;
    StoredPrefixLength(enc, size, j);
    if j + 1 < |enc| {
      StrideStep(size, j + 1);
    } else {
      StrideStep(size, j + 1);
      StoredPrefixLength(enc, size, |enc|);
      assert enc[..|enc|] == enc;
    }
  }

  /**
   * Upload then download: the download worker finds as many blocks in a
   * body as the upload worker wrote, and takes each apart into the
   * ciphertext, tag and iv it was made of.
   */
  lemma ReadBackBody(chunk: seq<byte>, ss: seq<Sealed>)
    requires SealsBlocks(chunk, ss)
    ensures NumberOfBlocksOnFS(|Concat(StoredAll(ss))|) == |ss|
    ensures forall j :: 0 <= j < |ss| ==> Unstore(StoredBlockAt(Concat(StoredAll(ss)), j)) == ss[j]
  {
    var enc := StoredAll(ss);
    SealedStrided(chunk, ss);
    StoredPrefixLength(enc, |chunk|, |ss|);
    assert enc[..|ss|] == enc;
    BlocksOnFSOfSizeOnFS(|chunk|);
    forall j | 0 <= j < |ss|
      ensures Unstore(StoredBlockAt(Concat(enc), j)) == ss[j]
    {
      StoredBlockOfBody(enc, |chunk|, j);
      UnstoreStored(ss[j]);
    }
  }
}
