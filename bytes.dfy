/** Octets and the little-endian unsigned 64-bit integers of the `<Q` struct format. */
module Bytes {

  /** One octet, as Python's `bytes`/`bytearray` elements are. */
  newtype byte = x: int | 0 <= x < 256

  /** 2^64: the first length that `<Q` cannot pack. */
  const U64_LIMIT: nat := 0x1_0000_0000_0000_0000

  /** Width of a packed `<Q` value in bytes. */
  const U64_WIDTH: nat := 8

  function Pow256(k: nat): (p: nat)
    ensures p > 0
  {
    if k == 0 then 1 else 256 * Pow256(k - 1)
  }

  lemma Pow256Eight()
    ensures Pow256(U64_WIDTH) == U64_LIMIT
  {
    assert Pow256(1) == 256;
    assert Pow256(2) == 0x1_0000;
    assert Pow256(4) == 0x1_0000_0000 by {
      assert Pow256(3) == 0x100_0000;
    }
    assert Pow256(6) == 0x1_0000_0000_0000 by {
      assert Pow256(5) == 0x100_0000_0000;
    }
    assert Pow256(7) == 0x100_0000_0000_0000;
  }

  /** `n` written least significant byte first in exactly `width` bytes. */
  function ToLE(n: nat, width: nat): (r: seq<byte>)
    requires n < Pow256(width)
    ensures |r| == width
    decreases width
  {
    if width == 0 then []
    else [(n % 256) as byte] + ToLE(n / 256, width - 1)
  }

  /** The unsigned integer whose least significant byte comes first in `b`. */
  function FromLE(b: seq<byte>): (n: nat)
    ensures n < Pow256(|b|)
  {
    if b == [] then 0
    else
      var high := FromLE(b[1..]);
      assert high <= Pow256(|b| - 1) - 1;
      assert 256 * high <= 256 * Pow256(|b| - 1) - 256;
      b[0] as nat + 256 * high
  }

  /** Byte `i` of a little-endian encoding holds the `i`-th base-256 digit. */
  lemma {:induction false} ToLEDigit(n: nat, width: nat, i: nat)
    requires n < Pow256(width) && i < width
    ensures ToLE(n, width)[i] as int == n / Pow256(i) % 256
    decreases width
  {
    if i > 0 {
      ToLEDigit(n / 256, width - 1, i - 1);
      DivDiv(n, 256, Pow256(i - 1));
    }
  }

  lemma DivDiv(n: nat, a: nat, b: nat)
    requires a > 0 && b > 0
    ensures n / a / b == n / (a * b)
  {
    var q := n / a / b;
    var r := n / a % b;
    assert n / a == b * q + r;
    assert n == a * (b * q + r) + n % a;
    assert n == (a * b) * q + (a * r + n % a);
    MulMono(a, r, b - 1);
    DivUnique(n, a * b, q, a * r + n % a);
  }

  lemma DivUnique(n: int, d: int, q: int, r: int)
    requires d > 0 && 0 <= r < d && n == d * q + r
    ensures n / d == q
  {
    var q', r' := n / d, n % d;
    assert n == d * q' + r';
    if q' < q {
      MulMono(d, q' + 1, q);
    } else if q < q' {
      MulMono(d, q + 1, q');
    }
  }

  lemma MulMono(d: int, a: int, b: int)
    requires d > 0 && a <= b
    ensures d * a <= d * b
  {
    assert d * b - d * a == d * (b - a);
  }

  /** Reading back a little-endian encoding gives the number that was written. */
  lemma {:induction false} FromToLE(n: nat, width: nat)
    requires n < Pow256(width)
    ensures FromLE(ToLE(n, width)) == n
    decreases width
  {
    if width > 0 {
      FromToLE(n / 256, width - 1);
      assert ToLE(n, width)[1..] == ToLE(n / 256, width - 1);
    }
  }

  /** Every byte string of length `|b|` is the little-endian encoding of what it reads as. */
  lemma {:induction false} ToFromLE(b: seq<byte>)
    ensures ToLE(FromLE(b), |b|) == b
  {
    if b != [] {
      ToFromLE(b[1..]);
      var n := FromLE(b);
      assert n % 256 == b[0] as int && n / 256 == FromLE(b[1..]);
    }
  }

  /** `struct.pack("<Q", n)`: defined only below 2^64, where struct raises otherwise. */
  function PackU64(n: nat): (r: seq<byte>)
    requires n < U64_LIMIT
    ensures |r| == U64_WIDTH
  {
    Pow256Eight();
    ToLE(n, U64_WIDTH)
  }

  /** Byte `i` of `struct.pack("<Q", n)` is the `i`-th base-256 digit of `n`. */
  lemma PackU64Digits(n: nat)
    requires n < U64_LIMIT
    ensures forall i :: 0 <= i < U64_WIDTH ==> PackU64(n)[i] as int == n / Pow256(i) % 256
  {
    Pow256Eight();
    forall i | 0 <= i < U64_WIDTH
      ensures ToLE(n, U64_WIDTH)[i] as int == n / Pow256(i) % 256
    {
      ToLEDigit(n, U64_WIDTH, i);
    }
  }

  /** `struct.unpack("<Q", b)[0]` on exactly eight bytes. */
  function UnpackU64(b: seq<byte>): (n: nat)
    requires |b| == U64_WIDTH
    ensures n < U64_LIMIT
  {
    Pow256Eight();
    FromLE(b)
  }

  lemma UnpackPack(n: nat)
    requires n < U64_LIMIT
    ensures UnpackU64(PackU64(n)) == n
  {
    Pow256Eight();
    FromToLE(n, U64_WIDTH);
  }

  lemma PackUnpack(b: seq<byte>)
    requires |b| == U64_WIDTH
    ensures PackU64(UnpackU64(b)) == b
  {
    Pow256Eight();
    ToFromLE(b);
  }
}
