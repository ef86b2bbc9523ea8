/** Generic facts about sequences of sequences. */
module Seqs {
  /** The pieces of `ss`, joined in order. */
  function Concat<T>(ss: seq<seq<T>>): seq<T>
  {
    if ss == [] then [] else ss[0] + Concat(ss[1..])
  }

  /** Joining after one more piece appends that piece. */
  lemma {:induction false} ConcatSnoc<T>(ss: seq<seq<T>>, s: seq<T>)
    ensures Concat(ss + [s]) == Concat(ss) + s
  {
    if ss == [] {
      assert [] + [s] == [s];
      assert [s][1..] == [];
    } else {
      assert (ss + [s])[1..] == ss[1..] + [s];
      ConcatSnoc(ss[1..], s);
    }
  }

  /** Joining two lists of pieces joins their joins. */
  lemma {:induction false} ConcatAppend<T>(a: seq<seq<T>>, b: seq<seq<T>>)
    ensures Concat(a + b) == Concat(a) + Concat(b)
  {
    if a == [] {
      assert [] + b == b;
    } else {
      assert (a + b)[1..] == a[1..] + b;
      ConcatAppend(a[1..], b);
    }
  }

  /** Piece `j` sits in the join right after the pieces before it. */
  lemma ConcatAt<T>(ss: seq<seq<T>>, j: nat)
    requires j < |ss|
    ensures |Concat(ss[..j])| + |ss[j]| <= |Concat(ss)|
    ensures Concat(ss)[|Concat(ss[..j])|..|Concat(ss[..j])| + |ss[j]|] == ss[j]
  {
    var head := Concat(ss[..j]);
    assert Concat(ss) == head + ss[j] + Concat(ss[j + 1..]) by {
      assert ss == ss[..j] + [ss[j]] + ss[j + 1..];
      ConcatAppend(ss[..j] + [ss[j]], ss[j + 1..]);
      ConcatSnoc(ss[..j], ss[j]);
    }
  }

  /** The join of one more leading piece. */
  lemma ConcatPrefixStep<T>(ss: seq<seq<T>>, i: nat)
    requires i < |ss|
    ensures Concat(ss[..i + 1]) == Concat(ss[..i]) + ss[i]
  {
    assert ss[..i + 1] == ss[..i] + [ss[i]];
    ConcatSnoc(ss[..i], ss[i]);
  }
}
