/** Bytes and the big-endian 32-bit words the storage formats use. */
module Bytes {
  /** One element of a `Uint8Array`. */
  type byte = x: int | 0 <= x < 256

  const TWO_32: int := 0x1_0000_0000

  function Pow256(k: nat): (r: nat)
    ensures r > 0
  {
    if k == 0 then 1 else Pow256(k - 1) * 0x100
  }

  /** The `k` lowest base-256 digits of `n`, most significant first. */
  function Digits(n: nat, k: nat): (r: seq<byte>)
    ensures |r| == k
  {
    if k == 0 then [] else Digits(n / 0x100, k - 1) + [n % 0x100]
  }

  /** The number the bytes of `q` spell, most significant first. */
  function ReadDigits(q: seq<byte>): (n: nat)
    ensures n < Pow256(|q|)
  {
    if q == [] then 0 else ReadDigits(q[..|q| - 1]) * 0x100 + q[|q| - 1]
  }

  /**
   * `uint32ToUint8BE(n)`: the low 32 bits of `n`, most significant byte
   * first; a value of 2^32 or more keeps only its low 32 bits.
   */
  function BE32(n: nat): (r: seq<byte>)
    ensures |r| == 4
  {
    Digits(n, 4)
  }

  /** `readUInt32BE(p, i)`: the four bytes at `i`, most significant first. */
  function ReadBE32(p: seq<byte>, i: nat): (n: nat)
    requires i + 4 <= |p|
    ensures n < TWO_32
  {
    p[i] as int * 0x100_0000 + p[i + 1] as int * 0x1_0000 + p[i + 2] as int * 0x100 + p[i + 3]
  }

  /** The word read at `i` is the number its four bytes spell. */
  lemma ReadBE32Digits(p: seq<byte>, i: nat)
    requires i + 4 <= |p|
    ensures ReadBE32(p, i) == ReadDigits(p[i..i + 4])
  {
    var q := p[i..i + 4];
    assert q[..1][..0] == [];
    assert ReadDigits(q[..1]) == q[0];
    assert q[..2][..1] == q[..1];
    assert ReadDigits(q[..2]) == q[0] as int * 0x100 + q[1];
    assert q[..3][..2] == q[..2];
    assert ReadDigits(q[..3]) == q[0] as int * 0x1_0000 + q[1] as int * 0x100 + q[2];
    assert q[..3] == q[..|q| - 1];
  }

  lemma DivModUnique(n: int, d: int, q: int, r: int)
    requires d > 0 && n == q * d + r && 0 <= r < d
    ensures n / d == q && n % d == r
  {
    var q0, r0 := n / d, n % d;
    assert (q - q0) * d == r0 - r;
    if q > q0 {
      MulAtLeast(q - q0, d);
    } else if q < q0 {
      MulAtLeast(q0 - q, d);
    }
  }

  lemma MulAtLeast(x: int, d: int)
    requires x >= 1 && d > 0
    ensures x * d >= d
  {
    assert x * d == (x - 1) * d + d;
  }

  /** Dropping the last digit: `(n / 256) mod m`, shifted back, plus that digit is `n mod 256m`. */
  lemma ModStep(n: nat, m: nat)
    requires m > 0
    ensures (n / 0x100) % m * 0x100 + n % 0x100 == n % (m * 0x100)
  {
    var q, r := n / (m * 0x100), n % (m * 0x100);
    assert n == q * (m * 0x100) + r;
    var hi, lo := r / 0x100, r % 0x100;
    assert n == (q * m + hi) * 0x100 + lo;
    DivModUnique(n, 0x100, q * m + hi, lo);
    assert hi < m;
    DivModUnique(q * m + hi, m, q, hi);
  }

  /** Reading back written digits gives the value modulo 256^k. */
  lemma {:induction false} ReadDigitsOfDigits(n: nat, k: nat)
    ensures ReadDigits(Digits(n, k)) == n % Pow256(k)
  {
    if k > 0 {
      var d := Digits(n, k);
      assert d[..k - 1] == Digits(n / 0x100, k - 1);
      ReadDigitsOfDigits(n / 0x100, k - 1);
      ModStep(n, Pow256(k - 1));
    }
  }

  /** Writing read digits gives back the same bytes. */
  lemma {:induction false} DigitsOfReadDigits(q: seq<byte>)
    ensures Digits(ReadDigits(q), |q|) == q
  {
    if q != [] {
      var k := |q|;
      var hi := ReadDigits(q[..k - 1]);
      DivModUnique(hi * 0x100 + q[k - 1], 0x100, hi, q[k - 1]);
      DigitsOfReadDigits(q[..k - 1]);
      assert q == q[..k - 1] + [q[k - 1]];
    }
  }

  /** Reading back a written word gives the value modulo 2^32. */
  lemma ReadBE32OfBE32(n: nat, p: seq<byte>, i: nat)
    requires i + 4 <= |p| && p[i..i + 4] == BE32(n)
    ensures ReadBE32(p, i) == n % TWO_32
  {
    ReadDigitsOfDigits(n, 4);
    ReadBE32Digits(p, i);
    assert Pow256(4) == TWO_32;
  }

  /** Writing a read word gives back the same four bytes. */
  lemma BE32OfReadBE32(p: seq<byte>, i: nat)
    requires i + 4 <= |p|
    ensures BE32(ReadBE32(p, i)) == p[i..i + 4]
  {
    DigitsOfReadDigits(p[i..i + 4]);
    ReadBE32Digits(p, i);
  }
}
