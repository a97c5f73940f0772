/** Bytes, the fixed-width integers of the console and their big-endian form. */
module Octets {

  type Octet = x: int | 0 <= x < 256
  type Bytes = seq<Octet>

  /** A 256-bit hash or public key: exactly 32 bytes. */
  type Key = b: Bytes | |b| == 32 witness seq(32, _ => 0)

  const ZERO_KEY: Key := seq(32, _ => 0)

  const MIN_I32: int := -0x8000_0000
  const MAX_I32: int := 0x7fff_ffff
  const MIN_I64: int := -0x8000_0000_0000_0000
  const MAX_I64: int := 0x7fff_ffff_ffff_ffff
  const MAX_U64: int := 0xffff_ffff_ffff_ffff

  type I32 = x: int | -0x8000_0000 <= x <= 0x7fff_ffff
  type I64 = x: int | -0x8000_0000_0000_0000 <= x <= 0x7fff_ffff_ffff_ffff
  type U32 = x: int | 0 <= x < 0x1_0000_0000
  type U64 = x: int | 0 <= x < 0x1_0000_0000_0000_0000
  type U128 = x: int | 0 <= x < 0x1_0000_0000_0000_0000_0000_0000_0000_0000

  /** Two's complement truncation to 32 bits: a release build's `-` on i32, and an `as i32` cast. */
  function WrapI32(x: int): (r: I32)
    ensures (x - r) % 0x1_0000_0000 == 0
    ensures r == x <==> MIN_I32 <= x <= MAX_I32
  {
    (x + 0x8000_0000) % 0x1_0000_0000 - 0x8000_0000
  }

  /** The bit pattern of an i32 read as a u32. */
  function Unsigned32(x: I32): (r: U32)
    ensures Signed32(r) == x
    ensures (r - x) % 0x1_0000_0000 == 0
  {
    if x < 0 then x + 0x1_0000_0000 else x
  }

  function Signed32(x: U32): I32 {
    if x < 0x8000_0000 then x else x - 0x1_0000_0000
  }

  /** An `as u64` cast of an i32: the sign is extended. */
  function SignExtend64(x: I32): (r: U64)
    ensures (r - x) % 0x1_0000_0000_0000_0000 == 0
    ensures r == x <==> x >= 0
  {
    if x < 0 then x + 0x1_0000_0000_0000_0000 else x
  }

  function Pow256(width: nat): (r: nat)
    ensures r > 0
  {
    if width == 0 then 1 else 256 * Pow256(width - 1)
  }

  /** `to_be_bytes` of an unsigned integer of `width` bytes. */
  function ToBigEndian(n: nat, width: nat): (b: Bytes)
    ensures |b| == width
  {
    if width == 0 then [] else ToBigEndian(n / 256, width - 1) + [n % 256]
  }

  function FromBigEndian(b: Bytes): nat {
    if |b| == 0 then 0 else FromBigEndian(b[..|b| - 1]) * 256 + b[|b| - 1]
  }

  lemma FromAppended(front: Bytes, last: Octet)
    ensures FromBigEndian(front + [last]) == FromBigEndian(front) * 256 + last
  {
    var b := front + [last];
    assert b[..|b| - 1] == front;
  }

  lemma Divided(n: nat, p: nat)
    requires n < 256 * p
    ensures n / 256 < p && n / 256 * 256 + n % 256 == n
  {
  }

  /** One more digit at the end. */
  lemma ToAppended(n: nat, last: Octet, width: nat)
    ensures ToBigEndian(n * 256 + last, width + 1) == ToBigEndian(n, width) + [last]
  {
    assert (n * 256 + last) / 256 == n && (n * 256 + last) % 256 == last;
  }

  lemma PowStep(width: nat)
    requires width > 0
    ensures Pow256(width) == 256 * Pow256(width - 1)
  {
  }

  lemma NoBytes(n: nat)
    ensures ToBigEndian(n, 0) == [] && FromBigEndian([]) == 0 && Pow256(0) == 1
  {
  }

  lemma {:induction false} DecodesBigEndian(n: nat, width: nat)
    requires n < Pow256(width)
    ensures FromBigEndian(ToBigEndian(n, width)) == n
  {
    hide Pow256, ToBigEndian, FromBigEndian;
    if width == 0 {
      NoBytes(n);
    } else {
      PowStep(width);
      Divided(n, Pow256(width - 1));
      DecodesBigEndian(n / 256, width - 1);
      ToAppended(n / 256, n % 256, width - 1);
      FromAppended(ToBigEndian(n / 256, width - 1), n % 256);
    }
  }

  lemma {:induction false} EncodesBigEndian(b: Bytes)
    ensures FromBigEndian(b) < Pow256(|b|)
    ensures ToBigEndian(FromBigEndian(b), |b|) == b
  {
    if |b| == 0 {
    } else {
      EncodesBigEndian(b[..|b| - 1]);
      assert b == b[..|b| - 1] + [b[|b| - 1]];
    }
  }

  lemma DivideTwice(n: nat, p: nat)
    requires p > 0
    ensures n / 256 / p == n / (256 * p)
  {
    var q, r := n / 256 / p, n / 256 % p;
    assert n / 256 == q * p + r && n == 256 * (n / 256) + n % 256;
    assert n == (256 * p) * q + (256 * r + n % 256);
    Quotient(n, 256 * p, q, 256 * r + n % 256);
  }

  lemma Quotient(n: nat, d: nat, q: nat, r: nat)
    requires r < d && n == d * q + r
    ensures n / d == q
  {
    assert n / d - q == 0 by {
      assert d * (n / d - q) == r - n % d;
      Small(d, n / d - q);
    }
  }

  lemma Grows(d: nat, k: int)
    requires k >= 1
    ensures d * k >= d
  {
  }

  lemma Small(d: nat, k: int)
    requires 0 - d < d * k < d
    ensures k == 0
  {
    if k >= 1 {
      Grows(d, k);
    } else if k <= -1 {
      Grows(d, -k);
    }
  }

  /** Each byte by itself: the first has the greatest weight. */
  lemma {:induction false} ByteAt(n: nat, width: nat, i: nat)
    requires i < width
    ensures ToBigEndian(n, width)[i] == n / Pow256(width - 1 - i) % 256
  {
    if i < width - 1 {
      ByteAt(n / 256, width - 1, i);
      DivideTwice(n, Pow256(width - 2 - i));
    }
  }

  lemma Widths()
    ensures Pow256(4) == 0x1_0000_0000
    ensures Pow256(8) == 0x1_0000_0000_0000_0000
  {
    assert Pow256(2) == 0x1_0000;
    assert Pow256(4) == 0x1_0000_0000;
    assert Pow256(6) == 0x1_0000_0000_0000;
  }
}
