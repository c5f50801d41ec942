/** Machine words: bytes, 64-bit addresses, and the sign-extended displacements of relative operands. */
module Words {

  type byte = x: int | 0 <= x < 256

  const TWO64 := 0x1_0000_0000_0000_0000
  const TWO63 := 0x8000_0000_0000_0000
  const TWO32 := 0x1_0000_0000
  const TWO31 := 0x8000_0000

  type Addr = x: int | 0 <= x < TWO64

  /** 64-bit wrap-around. */
  function W64(x: int): Addr { x % TWO64 }

  /** The signed reading of the low 64, 32 or 8 bits of `x`. */
  function Signed64(x: int): int { (x + TWO63) % TWO64 - TWO63 }
  function Sext32(x: int): int { (x + TWO31) % TWO32 - TWO31 }
  function Sext8(x: int): int { (x + 128) % 256 - 128 }

  predicate Fits32(x: int) { -TWO31 <= x < TWO31 }
  predicate Fits8(x: int) { -128 <= x < 128 }

  lemma {:induction false} SextFits(x: int)
    ensures Fits32(Sext32(x)) && Fits8(Sext8(x))
    ensures Fits32(x) ==> Sext32(x) == x
    ensures Fits8(x) ==> Sext8(x) == x
  {
  }

  lemma {:induction false} W64Id(a: Addr)
    ensures W64(a) == a
  {
  }

  lemma {:induction false} W64Absorbs(x: int, y: int)
    ensures W64(W64(x) + y) == W64(x + y)
  {
    assert W64(x) == x - TWO64 * (x / TWO64);
    assert (x + y) % TWO64 == (x + y - TWO64 * (x / TWO64)) % TWO64;
  }

  /** What follows an entry moves with it: shifting by `d` and growing by `g` commute. */
  lemma {:induction false} W64Shift(a: Addr, size: int, d: int, g: int)
    ensures W64(W64(a + size) + (d + g)) == W64(W64(a + d) + (size + g))
  {
    W64Absorbs(a + size, d + g);
    W64Absorbs(a + d, size + g);
  }

  /** Congruence modulo 2^64 is equality after wrapping. */
  lemma {:induction false} W64Equal(x: int, y: int)
    ensures W64(x) == W64(y) <==> (x - y) % TWO64 == 0
  {
    assert x == TWO64 * (x / TWO64) + W64(x) && y == TWO64 * (y / TWO64) + W64(y);
    var q := x / TWO64 - y / TWO64;
    assert x - y == TWO64 * q + (W64(x) - W64(y));
  }

  lemma {:induction false} W64Distinct(x: int, y: int)
    requires -TWO64 < x - y < TWO64 && x != y
    ensures W64(x) != W64(y)
  {
    W64Equal(x, y);
  }

  /** A displacement of the given width, added to `from`, reaches `to` exactly when the signed distance fits it. */
  lemma {:induction false} ReachIff(from: int, to: Addr)
    ensures W64(from + Sext32(to - from)) == to <==> Fits32(Signed64(to - from))
    ensures W64(from + Sext8(to - from)) == to <==> Fits8(Signed64(to - from))
  {
    var x := to - from;
    W64Equal(from + Sext32(x), to);
    W64Equal(from + Sext8(x), to);
    SignedIff(x, Sext32(x));
    SignedIff(x, Sext8(x));
    SextOfSigned(x);
  }

  lemma {:induction false} SignedIff(x: int, y: int)
    requires -TWO63 <= y < TWO63
    ensures (y - x) % TWO64 == 0 <==> Signed64(x) == y
  {
    var q := (x + TWO63) / TWO64;
    assert Signed64(x) == x - TWO64 * q;
    if (y - x) % TWO64 == 0 {
      var r := (y - x) / TWO64;
      assert y == x + TWO64 * r;
      assert y - Signed64(x) == TWO64 * (r + q);
    }
    if Signed64(x) == y {
      assert y - x == TWO64 * -q;
    }
  }

  lemma {:induction false} SextOfSigned(x: int)
    ensures Fits32(Signed64(x)) ==> Sext32(x) == Signed64(x)
    ensures Fits8(Signed64(x)) ==> Sext8(x) == Signed64(x)
  {
    var q := (x + TWO63) / TWO64;
    assert Signed64(x) == x - TWO64 * q;
    SextPeriod(x, q);
    SextFits(x - TWO64 * q);
  }

  lemma {:induction false} SextPeriod(x: int, q: int)
    ensures Sext32(x - TWO64 * q) == Sext32(x) && Sext8(x - TWO64 * q) == Sext8(x)
  {
    ModPeriod(x + TWO31, TWO32, TWO32 * q);
    ModPeriod(x + 128, 256, 0x100_0000_0000_0000 * q);
  }

  lemma {:induction false} ModPeriod(x: int, m: int, k: int)
    requires m == TWO32 || m == 256
    ensures (x - m * k) % m == x % m
  {
    if m == 256 {
      assert (x - 256 * k) % 256 == x % 256;
    }
  }

  /** Little-endian two's complement, four bytes. */
  function LE32(x: int): (r: seq<byte>)
    ensures |r| == 4
  {
    var u := x % TWO32;
    [u % 256, u / 0x100 % 256, u / 0x1_0000 % 256, u / 0x100_0000]
  }

  function FromLE32(bs: seq<byte>): int
    requires |bs| == 4
  {
    var b0: int, b1: int, b2: int, b3: int := bs[0], bs[1], bs[2], bs[3];
    Sext32(b0 + 0x100 * b1 + 0x1_0000 * b2 + 0x100_0000 * b3)
  }

  lemma {:induction false} FromLE32LE32(x: int)
    ensures FromLE32(LE32(x)) == Sext32(x)
  {
    var u := x % TWO32;
    var q1, q2, q3 := u / 0x100, u / 0x1_0000, u / 0x100_0000;
    assert q2 == q1 / 0x100 && q3 == q2 / 0x100;
    assert u == u % 256 + 0x100 * q1 && q1 == q1 % 256 + 0x100 * q2 && q2 == q2 % 256 + 0x100 * q3;
    SextModulo(x);
    hide Sext32;
    assert u == u % 256 + 0x100 * (q1 % 256) + 0x1_0000 * (q2 % 256) + 0x100_0000 * q3;
  }

  lemma {:induction false} SextModulo(x: int)
    ensures Sext32(x % TWO32) == Sext32(x)
  {
    assert (x % TWO32 + TWO31) % TWO32 == (x + TWO31) % TWO32;
  }

  lemma {:induction false} LE32Back(bs: seq<byte>)
    requires |bs| == 4
    ensures LE32(FromLE32(bs)) == bs
  {
    var b0: int, b1: int, b2: int, b3: int := bs[0], bs[1], bs[2], bs[3];
    var u := b0 + 0x100 * (b1 + 0x100 * (b2 + 0x100 * b3));
    assert FromLE32(bs) == Sext32(u);
    SextLow(u);
    LastByte(b0, b1 + 0x100 * (b2 + 0x100 * b3));
    LastByte(b1, b2 + 0x100 * b3);
    LastByte(b2, b3);
    assert u / 0x1_0000 == u / 0x100 / 0x100 && u / 0x100_0000 == u / 0x1_0000 / 0x100;
  }

  lemma {:induction false} SextLow(u: int)
    requires 0 <= u < TWO32
    ensures Sext32(u) % TWO32 == u
  {
    assert Sext32(u) == u || Sext32(u) == u - TWO32;
  }

  lemma {:induction false} LastByte(b: int, q: int)
    requires 0 <= b < 0x100
    ensures (b + 0x100 * q) / 0x100 == q && (b + 0x100 * q) % 0x100 == b
  {
  }

  function Signed8(b: byte): int { if b < 128 then b else b - 256 }

  lemma {:induction false} Signed8Low(x: int)
    ensures Signed8(x % 256) == Sext8(x)
  {
  }
}
