/** Little-endian layouts of fixed-width integers, as `BitConverter` and raw
    pointer stores lay them out on x86, and the unchecked (wrapping) integer
    arithmetic of C#. */
module Bytes {

  /** An 8-bit byte. */
  newtype byte = x: int | 0 <= x < 256

  /** 256^n: the number of distinct n-byte patterns. */
  function Pow256(n: nat): (r: nat)
    ensures r >= 1
  {
    if n == 0 then 1 else 256 * Pow256(n - 1)
  }

  /** The smallest n-byte pattern whose two's-complement reading is negative. */
  function Half(n: nat): nat
  {
    Pow256(n) / 2
  }

  /** The n low-order bytes of `v`, least significant first. */
  function EncodeLE(v: nat, n: nat): (r: seq<byte>)
    ensures |r| == n
  {
    if n == 0 then [] else [(v % 256) as byte] + EncodeLE(v / 256, n - 1)
  }

  /** The unsigned number whose little-endian layout is `bs`. */
  function DecodeLE(bs: seq<byte>): (r: nat)
    ensures r < Pow256(|bs|)
  {
    if |bs| == 0 then 0 else bs[0] as nat + 256 * DecodeLE(bs[1..])
  }

  /** Two's-complement reading of an n-byte unsigned pattern. */
  function ToSigned(u: nat, n: nat): int
  {
    if u >= Half(n) then u - Pow256(n) else u
  }

  /** Reduction modulo 2^(8n): what an unchecked n-byte store keeps. */
  function Wrap(v: int, n: nat): (r: nat)
    ensures r < Pow256(n)
  {
    v % Pow256(n)
  }

  /** The value an unchecked signed n-byte C# operation yields for the
      mathematical result `v` (e.g. `int` arithmetic for n = 4). */
  function WrapSigned(v: int, n: nat): int
  {
    ToSigned(Wrap(v, n), n)
  }

  predicate InSigned(v: int, n: nat)
  {
    -(Half(n) as int) <= v < Half(n)
  }

  /** For a non-empty width the signed range splits the patterns evenly. */
  lemma HalfTwice(n: nat)
    requires n >= 1
    ensures Half(n) * 2 == Pow256(n)
  {
    var p := Pow256(n - 1);
    assert Pow256(n) == 128 * p * 2;
    assert Half(n) == 128 * p;
  }

  /** Decoding undoes encoding for every value that fits in n bytes. */
  lemma {:induction false} DecodeEncode(v: nat, n: nat)
    requires v < Pow256(n)
    ensures DecodeLE(EncodeLE(v, n)) == v
  {
    if n > 0 {
      var e := EncodeLE(v, n);
      var lo := v % 256;
      var hi := v / 256;
      assert v == lo + 256 * hi;
      assert e[0] == lo as byte;
      assert e[1..] == EncodeLE(hi, n - 1);
      assert hi < Pow256(n - 1);
      DecodeEncode(hi, n - 1);
      assert DecodeLE(e) == lo + 256 * hi;
    }
  }

  /** Encoding undoes decoding: every byte pattern is the layout of its reading. */
  lemma {:induction false} EncodeDecode(bs: seq<byte>)
    ensures EncodeLE(DecodeLE(bs), |bs|) == bs
  {
    if |bs| > 0 {
      var d := DecodeLE(bs);
      var hi := DecodeLE(bs[1..]);
      assert d == hi * 256 + bs[0] as nat;
      ModUnique(d, 256, hi, bs[0] as nat);
      assert d / 256 == hi;
      EncodeDecode(bs[1..]);
      assert [bs[0]] + bs[1..] == bs;
    }
  }

  /** Euclidean remainder is determined by any decomposition with a remainder in range. */
  lemma ModUnique(v: int, m: int, q: int, r: int)
    requires m > 0 && v == q * m + r && 0 <= r < m
    ensures v % m == r
  {
    var q' := v / m;
    var r' := v % m;
    assert q * m + r == q' * m + r';
    assert (q - q') * m == r' - r;
    if q > q' {
      MulAtLeast(q - q', m);
    } else if q < q' {
      MulAtLeast(q' - q, m);
    }
  }

  lemma {:induction false} MulAtLeast(d: int, m: int)
    requires d >= 1 && m > 0
    ensures d * m >= m
  {
    if d > 1 {
      MulAtLeast(d - 1, m);
      assert d * m == (d - 1) * m + m;
    }
  }

  /** Wrapping then reading as signed is the identity on the signed n-byte range. */
  lemma WrapSignedInRange(v: int, n: nat)
    requires n >= 1 && InSigned(v, n)
    ensures WrapSigned(v, n) == v
  {
    HalfTwice(n);
    if v >= 0 {
      ModUnique(v, Pow256(n), 0, v);
    } else {
      ModUnique(v, Pow256(n), -1, v + Pow256(n));
    }
  }

  /** The signed reading of a wrapped value lies in the signed range and
      leaves the same residue as the unwrapped value. */
  lemma WrapSignedCongruent(v: int, n: nat)
    requires n >= 1
    ensures InSigned(WrapSigned(v, n), n)
    ensures Wrap(WrapSigned(v, n), n) == Wrap(v, n)
  {
    HalfTwice(n);
    var u := Wrap(v, n);
    if u >= Half(n) {
      ModUnique(u - Pow256(n), Pow256(n), -1, u);
    } else {
      ModUnique(u, Pow256(n), 0, u);
    }
  }

  /** Wrapping undoes the signed reading of an n-byte pattern. */
  lemma WrapToSigned(u: nat, n: nat)
    requires n >= 1 && u < Pow256(n)
    ensures Wrap(ToSigned(u, n), n) == u
  {
    HalfTwice(n);
    if u >= Half(n) {
      ModUnique(u - Pow256(n), Pow256(n), -1, u);
    } else {
      ModUnique(u, Pow256(n), 0, u);
    }
  }

  /** A byte wrapped to one byte and laid out is itself. */
  lemma EncodeOneByte(b: byte)
    ensures Wrap(b as int, 1) == b as int
    ensures EncodeLE(Wrap(b as int, 1), 1) == [b]
  {
    var n := b as int;
    assert Pow256(1) == 256;
    ModUnique(n, 256, 0, n);
    assert EncodeLE(n, 1) == [(n % 256) as byte] + EncodeLE(n / 256, 0);
  }

  lemma MulStep(a: int, s: int)
    ensures (a + 1) * s == a * s + s
  {
  }

  lemma MulMono(a: nat, b: nat, s: nat)
    requires a <= b
    ensures a * s <= b * s
  {
  }

  /** Reducing an operand first does not change a wrapped sum: chained
      unchecked additions agree with one addition of the total. */
  lemma WrapAdd(x: int, y: int, n: nat)
    ensures Wrap(Wrap(x, n) + y, n) == Wrap(x + y, n)
  {
    var p := Pow256(n);
    var q := (x + y) / p - x / p;
    assert x == (x / p) * p + Wrap(x, n);
    assert x + y == ((x + y) / p) * p + Wrap(x + y, n);
    assert q * p == ((x + y) / p) * p - (x / p) * p;
    ModUnique(Wrap(x, n) + y, p, q, Wrap(x + y, n));
  }

  lemma Pow256Four()
    ensures Pow256(4) == 0x1_0000_0000
  {
  }
}
