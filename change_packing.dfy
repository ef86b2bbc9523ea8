/**
 * The length-prefixed packing of document changes stored in a metadata DAG
 * node: a big-endian change count, then each change as a big-endian 4-byte
 * length followed by its bytes, in order.
 */
module ChangePacking {
  import opened Wrappers
  import opened Bytes

  type Change = seq<byte>

  /** `changes.reduce((acc, cur) => acc + cur.length, 0)`. */
  function TotalLength(cs: seq<Change>): nat
  {
    if cs == [] then 0 else |cs[0]| + TotalLength(cs[1..])
  }

  /** The records after the count: each change's length word, then the change. */
  function Records(cs: seq<Change>): seq<byte>
  {
    if cs == [] then [] else BE32(|cs[0]|) + cs[0] + Records(cs[1..])
  }

  /** The packed form of `cs`. */
  function Pack(cs: seq<Change>): seq<byte>
  {
    BE32(|cs|) + Records(cs)
  }

  /** The packed length is `4 + 4·n + Σ len(change)`, as `packChanges` allocates. */
  lemma {:induction false} RecordsLength(cs: seq<Change>)
    ensures |Records(cs)| == 4 * |cs| + TotalLength(cs)
  {
    if cs != [] {
      RecordsLength(cs[1..]);
    }
  }

  lemma PackLength(cs: seq<Change>)
    ensures |Pack(cs)| == 4 + 4 * |cs| + TotalLength(cs)
  {
    RecordsLength(cs);
  }

  /** Appending one change to the list appends its record and adds its length. */
  lemma {:induction false} RecordsSnoc(cs: seq<Change>, k: nat)
    requires k < |cs|
    ensures Records(cs[..k + 1]) == Records(cs[..k]) + BE32(|cs[k]|) + cs[k]
    ensures TotalLength(cs[..k + 1]) == TotalLength(cs[..k]) + |cs[k]|
  {
    if k > 0 {
      RecordsSnoc(cs[1..], k - 1);
      assert cs[1..][..k] == cs[..k + 1][1..];
      assert cs[1..][..k - 1] == cs[..k][1..];
    } else {
      assert cs[..1][1..] == [];
    }
  }

  lemma {:induction false} TotalLengthPrefix(cs: seq<Change>, k: nat)
    requires k <= |cs|
    ensures TotalLength(cs[..k]) <= TotalLength(cs)
    decreases k
  {
    if k > 0 {
      TotalLengthPrefix(cs[1..], k - 1);
      assert cs[1..][..k - 1] == cs[..k][1..];
    }
  }

  /**
   * `packChanges`: allocates the exact length and fills it front to back, the
   * count first, then each change's length word and bytes.
   */
  method PackChanges(changes: seq<Change>) returns (packed: array<byte>)
    ensures fresh(packed)
    ensures packed[..] == Pack(changes)
  {
    var len := 4 + 4 * |changes| + TotalLength(changes);
    packed := new byte[len];
    var i := 0;
    PutWord(packed, i, |changes|);
    i := i + 4;
    for k := 0 to |changes|
      invariant i == 4 + 4 * k + TotalLength(changes[..k])
      invariant TotalLength(changes[..k]) <= TotalLength(changes)
      invariant packed.Length == len
      invariant packed[..i] == BE32(|changes|) + Records(changes[..k])
    {
      RecordsSnoc(changes, k);
      TotalLengthPrefix(changes, k + 1);
      var change := changes[k];
      ghost var written := packed[..i];
      PutWord(packed, i, |change|);
      i := i + 4;
      ghost var withWord := packed[..i];
      PutBytes(packed, i, change);
      i := i + |change|;
      PackedStep(changes, k, written, withWord, packed[..i]);
    }
    assert changes[..|changes|] == changes;
    assert packed[..] == packed[..i];
  }

  /** The filled prefix after one more change's length word and bytes. */
  lemma PackedStep(cs: seq<Change>, k: nat, written: seq<byte>, withWord: seq<byte>, now: seq<byte>)
    requires k < |cs|
    requires written == BE32(|cs|) + Records(cs[..k])
    requires withWord == written + BE32(|cs[k]|) && now == withWord + cs[k]
    ensures now == BE32(|cs|) + Records(cs[..k + 1])
  {
    RecordsSnoc(cs, k);
  }

  /** The four bytes of one length word, written at `i`. */
  method PutWord(packed: array<byte>, i: nat, w: nat)
    requires i + 4 <= packed.Length
    modifies packed
    ensures packed[..i + 4] == old(packed[..i]) + BE32(w)
  {
    var lArr := BE32(w);
    packed[i + 0], packed[i + 1], packed[i + 2], packed[i + 3] := lArr[0], lArr[1], lArr[2], lArr[3];
    assert packed[..i + 4] == packed[..i] + lArr;
  }

  /** The inner loop of `packChanges`: the bytes of one change, copied to `i` on. */
  method PutBytes(packed: array<byte>, i: nat, change: Change)
    requires i + |change| <= packed.Length
    modifies packed
    ensures packed[..i + |change|] == old(packed[..i]) + change
  {
    for n := 0 to |change|
      invariant packed[..i + n] == old(packed[..i]) + change[..n]
    {
      packed[i + n] := change[n];
      assert packed[..i + n + 1] == packed[..i + n] + [change[n]];
    }
    assert change[..|change|] == change;
  }

  /**
   * `count` records read from position `i` on, as the loop of
   * `unpackChanges` reads them.  A length word that runs past the end of the
   * input fails; the bytes of a record are taken as `Uint8Array.slice` takes
   * them, cut short at the end of the input.
   */
  function UnpackAt(p: seq<byte>, i: nat, count: nat): (r: Option<seq<Change>>)
    ensures r.Some? ==> |r.value| == count
    decreases count
  {
    if count == 0 then Some([])
    else if i + 4 > |p| then None
    else
      var l := ReadBE32(p, i);
      var end := if i + 4 + l <= |p| then i + 4 + l else |p|;
      Prepend([p[i + 4..end]], UnpackAt(p, i + 4 + l, count - 1))
  }

  /** `unpackChanges`: exactly as many records as the leading count says. */
  function Unpack(p: seq<byte>): (r: Option<seq<Change>>)
    ensures r.Some? ==> |p| >= 4 && |r.value| == ReadBE32(p, 0)
  {
    if |p| < 4 then None else UnpackAt(p, 4, ReadBE32(p, 0))
  }

  /** Results of reading records so far, followed by those still to read. */
  function Prepend(done: seq<Change>, rest: Option<seq<Change>>): (r: Option<seq<Change>>)
    ensures r.Some? <==> rest.Some?
  {
    match rest
    case None => None
    case Some(cs) => Some(done + cs)
  }

  lemma PrependNothing(x: Option<seq<Change>>)
    ensures Prepend([], x) == x
  {
    if x.Some? {
      assert [] + x.value == x.value;
    }
  }

  lemma PrependAssoc(a: seq<Change>, b: seq<Change>, x: Option<seq<Change>>)
    ensures Prepend(a, Prepend(b, x)) == Prepend(a + b, x)
  {
    if x.Some? {
      assert a + (b + x.value) == (a + b) + x.value;
    }
  }

  /**
   * `unpackChanges`, with its loop: reads the count, then for each record its
   * length word and bytes, advancing past both.
   */
  method UnpackChanges(packed: seq<byte>) returns (r: Option<seq<Change>>)
    ensures r == Unpack(packed)
  {
    if |packed| < 4 {
      return None;
    }
    var i: nat := 0;
    var changes: seq<Change> := [];
    var len := ReadBE32(packed, i);
    i := i + 4;
    PrependNothing(UnpackAt(packed, i, len));
    for c := 0 to len
      invariant Unpack(packed) == Prepend(changes, UnpackAt(packed, i, len - c))
    {
      if i + 4 > |packed| {
        return None;
      }
      var l := ReadBE32(packed, i);
      i := i + 4;
      var end := if i + l <= |packed| then i + l else |packed|;
      PrependAssoc(changes, [packed[i..end]], UnpackAt(packed, i + l, len - c - 1));
      changes := changes + [packed[i..end]];
      i := i + l;
    }
    assert Prepend(changes, UnpackAt(packed, i, 0)) == Some(changes + []);
    assert changes + [] == changes;
    return Some(changes);
  }

  /** The word at `|pre| + j` of `pre + q` is the word at `j` of `q`. */
  lemma ShiftedWord(pre: seq<byte>, q: seq<byte>, j: nat)
    requires j + 4 <= |q|
    ensures ReadBE32(pre + q, |pre| + j) == ReadBE32(q, j)
  {
    var p := pre + q;
    assert p[|pre| + j] == q[j] && p[|pre| + j + 1] == q[j + 1];
    assert p[|pre| + j + 2] == q[j + 2] && p[|pre| + j + 3] == q[j + 3];
  }

  lemma ShiftedSlice(pre: seq<byte>, q: seq<byte>, a: nat, b: nat)
    requires a <= b <= |q|
    ensures (pre + q)[|pre| + a..|pre| + b] == q[a..b]
  {
    assert (pre + q)[|pre|..] == q;
  }

  /** Reading records does not depend on the bytes before them. */
  lemma {:induction false} UnpackShift(pre: seq<byte>, q: seq<byte>, j: nat, k: nat)
    ensures UnpackAt(pre + q, |pre| + j, k) == UnpackAt(q, j, k)
    decreases k
  {
    if k > 0 && j + 4 <= |q| {
      ShiftedWord(pre, q, j);
      var l := ReadBE32(q, j);
      var end := if j + 4 + l <= |q| then j + 4 + l else |q|;
      ShiftedSlice(pre, q, j + 4, end);
      UnpackShift(pre, q, j + 4 + l, k - 1);
    }
  }

  /** Every change's length fits its 32-bit length word. */
  predicate LengthsFit(cs: seq<Change>)
  {
    forall k :: 0 <= k < |cs| ==> |cs[k]| < TWO_32
  }

  /** A length word at the front of `q`, read back. */
  lemma WordFront(n: nat, rest: seq<byte>)
    ensures ReadBE32(BE32(n) + rest, 0) == n % TWO_32
  {
    var q := BE32(n) + rest;
    assert q[0..4] == BE32(n);
    ReadBE32OfBE32(n, q, 0);
  }

  /** A record at the front of `q`: its length word, its bytes, then `tail`. */
  lemma RecordFront(c: Change, tail: seq<byte>, q: seq<byte>)
    requires |c| < TWO_32 && q == BE32(|c|) + c + tail
    ensures |q| >= 4 + |c| && ReadBE32(q, 0) == |c| && q[4..4 + |c|] == c
  {
    assert q == BE32(|c|) + (c + tail);
    WordFront(|c|, c + tail);
    assert q[4..4 + |c|] == (BE32(|c|) + c)[4..];
  }

  /** One record, then whatever `tail` holds: `c`, then what `tail` reads as. */
  lemma RecordStep(c: Change, tail: seq<byte>, k: nat)
    requires |c| < TWO_32
    ensures UnpackAt(BE32(|c|) + c + tail, 0, k + 1) == Prepend([c], UnpackAt(tail, 0, k))
  {
    var head := BE32(|c|) + c;
    RecordFront(c, tail, head + tail);
    UnpackShift(head, tail, 0, k);
  }

  lemma LengthsFitTail(cs: seq<Change>)
    requires cs != [] && LengthsFit(cs)
    ensures |cs[0]| < TWO_32 && LengthsFit(cs[1..])
  {
    forall k | 0 <= k < |cs| - 1 ensures |cs[1..][k]| < TWO_32 {
      assert cs[1..][k] == cs[k + 1];
    }
  }

  lemma RecordsCons(cs: seq<Change>, post: seq<byte>)
    requires cs != []
    ensures Records(cs) + post == BE32(|cs[0]|) + cs[0] + (Records(cs[1..]) + post)
  {
  }

  /** Reading `cs`'s records, whatever follows them, gives back `cs`. */
  lemma {:induction false} UnpackRecords(cs: seq<Change>, post: seq<byte>)
    requires LengthsFit(cs)
    ensures UnpackAt(Records(cs) + post, 0, |cs|) == Some(cs)
  {
    if cs != [] {
      var c, rest := cs[0], cs[1..];
      var tail := Records(rest) + post;
      RecordsCons(cs, post);
      RecordStep(c, tail, |rest|);
      LengthsFitTail(cs);
      UnpackRecords(rest, post);
      assert [c] + rest == cs;
    }
  }

  /**
   * The round trip: unpacking a packing gives back the changes, as long as
   * the count and every length fit the 32-bit words.
   */
  lemma UnpackPack(cs: seq<Change>)
    requires |cs| < TWO_32 && LengthsFit(cs)
    ensures Unpack(Pack(cs)) == Some(cs)
  {
    var p := Pack(cs);
    WordFront(|cs|, Records(cs));
    assert ReadBE32(p, 0) == |cs|;
    UnpackRecords(cs, []);
    assert Records(cs) + [] == Records(cs);
    UnpackShift(BE32(|cs|), Records(cs), 0, |cs|);
    assert UnpackAt(p, 4, |cs|) == Some(cs);
  }
}
