/** A pixel: four 8-bit channels, compared channel by channel, plus the
    cache-bucket hash the codec files pixels under. */
module Pixels {
  import opened Consts

  /** An unsigned 8-bit value. Wrapping arithmetic is written out with Wrap. */
  newtype byte = x: int | 0 <= x < 256

  /** Reduces an unbounded result to 8 bits, as the u8 wrapping operations do. */
  function Wrap(x: int): (b: byte)
    ensures b as int == x % 256
  {
    (x % 256) as byte
  }

  /** A pixel is a plain value: `new` is the constructor, the accessors are
      the fields, and equality is the datatype's own (all four channels). */
  datatype Pixel = Pixel(r: byte, g: byte, b: byte, a: byte)

  /** The pixel every codec state starts from as its previous pixel. */
  const DEFAULT_PIXEL: Pixel := Pixel(0, 0, 0, 255)

  /** The value every cache slot holds in a fresh state. */
  const ZERO_PIXEL: Pixel := Pixel(0, 0, 0, 0)

  /** The cache slot of a pixel: (r*3 + g*5 + b*7 + a*11) mod 64. The source
      computes it in 8-bit wrapping arithmetic; EightBitHash shows that the
      wrap-around before the final mod 64 changes nothing. */
  function Hash(p: Pixel): (h: nat)
    ensures h < SEEN_PIXEL_ARRAY_SIZE
  {
    (p.r as int * 3 + p.g as int * 5 + p.b as int * 7 + p.a as int * 11) % 64
  }

  /** The hash as the source computes it: every product and sum wrapped to 8 bits. */
  function WrappingHash(p: Pixel): nat
  {
    var s := Wrap(Wrap(Wrap(Wrap(p.r as int * 3) as int + Wrap(p.g as int * 5) as int) as int
                  + Wrap(p.b as int * 7) as int) as int + Wrap(p.a as int * 11) as int);
    s as int % 64
  }

  /** Wrapping every step to 8 bits gives the same slot, because 64 divides 256. */
  lemma {:induction false} EightBitHash(p: Pixel)
    ensures WrappingHash(p) == Hash(p)
  {
    WrappedSumOfFour(p.r as int * 3, p.g as int * 5, p.b as int * 7, p.a as int * 11);
  }

  lemma WrappedSumOfFour(x1: int, x2: int, x3: int, x4: int)
    ensures Wrap(Wrap(Wrap(Wrap(x1) as int + Wrap(x2) as int) as int + Wrap(x3) as int) as int
                 + Wrap(x4) as int) as int % 64 == (x1 + x2 + x3 + x4) % 64
  {
    var s1 := Wrap(Wrap(x1) as int + Wrap(x2) as int);
    WrapSum(x1, x2);
    var s2 := Wrap(s1 as int + Wrap(x3) as int);
    assert Wrap(s1 as int) == s1;
    WrapSum(s1 as int, x3);
    Congruent(s1 as int, x1 + x2, x3);
    var s3 := Wrap(s2 as int + Wrap(x4) as int);
    assert Wrap(s2 as int) == s2;
    WrapSum(s2 as int, x4);
    Congruent(s2 as int, x1 + x2 + x3, x4);
  }

  lemma WrapSum(x: int, y: int)
    ensures Wrap(Wrap(x) as int + Wrap(y) as int) as int % 64 == (x + y) % 64
  {
    var qx, qy := x / 256, y / 256;
    assert Wrap(x) as int == x - 256 * qx;
    assert Wrap(y) as int == y - 256 * qy;
    var t := Wrap(x) as int + Wrap(y) as int;
    var qt := t / 256;
    assert Wrap(t) as int == t - 256 * qt;
    ModShift(x + y, -4 * (qx + qy + qt));
  }

  lemma ModShift(a: int, k: int)
    ensures (a + 64 * k) % 64 == a % 64
  {
    var q := a / 64;
    assert a + 64 * k == 64 * (q + k) + a % 64;
  }

  lemma Congruent(x: int, y: int, z: int)
    requires x % 64 == y % 64
    ensures (x + z) % 64 == (y + z) % 64
  {
    var qx, qy := x / 64, y / 64;
    assert x - y == 64 * (qx - qy);
    assert (x + z) == (y + z) + 64 * (qx - qy);
  }

  /** Distinct channel tuples give distinct pixels, and two pixels are equal
      exactly when all four channels are. */
  lemma PixelEquality(p: Pixel, q: Pixel)
    ensures p == q <==> (p.r == q.r && p.g == q.g && p.b == q.b && p.a == q.a)
  {
  }
}
