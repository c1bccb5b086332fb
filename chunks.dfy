/** The six chunk kinds of the QOI stream: their fields, tags, sizes, the
    `matches` test on a first byte, the `encode` byte layout, and the
    conversions between chunks and pixels that the codec relies on.

    Bit fields are written arithmetically: `flag << 6 | low` is
    `flag * 64 + low` for a low part below 64, `byte >> 6` is `byte / 64`,
    and a field of w bits at offset k is `(byte / 2^k) % 2^w`. */
module Chunks {
  import opened Consts
  import opened Pixels

  /** One chunk. `Rgb` also carries the alpha of the pixel it stands for
      (the codec builds it from the whole pixel), but only r, g and b are
      written out. `Run` holds the stored, biased value: run length - 1. */
  datatype Chunk =
    | Rgb(r: byte, g: byte, b: byte, a: byte)
    | Rgba(r: byte, g: byte, b: byte, a: byte)
    | Index(index: byte)
    | Diff(dr: byte, dg: byte, db: byte)
    | Luma(diffGreen: byte, drDg: byte, dbDg: byte)
    | Run(run: byte)

  const RGB_FLAG: byte := 0xFE
  const RGBA_FLAG: byte := 0xFF
  const INDEX_FLAG: byte := 0
  const DIFF_FLAG: byte := 1
  const LUMA_FLAG: byte := 2
  const RUN_FLAG: byte := 3

  const RGB_SIZE: nat := 4
  const RGBA_SIZE: nat := 5
  const INDEX_SIZE: nat := 1
  const DIFF_SIZE: nat := 1
  const LUMA_SIZE: nat := 2
  const RUN_SIZE: nat := 1

  /** The fields fit their bit widths: 6-bit index, 2-bit diffs, a 6-bit
      and two 4-bit luma fields, and a stored run of at most 61. */
  predicate WellFormed(c: Chunk) {
    match c
    case Rgb(_, _, _, _) => true
    case Rgba(_, _, _, _) => true
    case Index(i) => i < 64
    case Diff(dr, dg, db) => dr < 4 && dg < 4 && db < 4
    case Luma(dg, drDg, dbDg) => dg < 64 && drDg < 16 && dbDg < 16
    case Run(run) => run as nat < MAX_RUN_LENGTH
  }

  // ----- matches: the test each kind applies to a first byte -----

  predicate RgbMatches(byte0: byte) { byte0 == RGB_FLAG }
  predicate RgbaMatches(byte0: byte) { byte0 == RGBA_FLAG }
  predicate IndexMatches(byte0: byte) { byte0 / 64 == INDEX_FLAG }
  predicate DiffMatches(byte0: byte) { byte0 / 64 == DIFF_FLAG }
  predicate LumaMatches(byte0: byte) { byte0 / 64 == LUMA_FLAG }
  predicate RunMatches(byte0: byte) { byte0 / 64 == RUN_FLAG }

  /** `flag << 6 | low` for a 2-bit flag and a 6-bit low part. */
  function Tagged(flag: byte, low: int): (b: byte)
    requires flag < 4 && 0 <= low < 64
    ensures b as int / 64 == flag as int && b as int % 64 == low
  {
    (flag as int * 64 + low) as byte
  }

  /** The byte layout of a chunk. */
  function Encode(c: Chunk): (bytes: seq<byte>)
    requires WellFormed(c)
  {
    match c
    case Rgb(r, g, b, _) => [RGB_FLAG, r, g, b]
    case Rgba(r, g, b, a) => [RGBA_FLAG, r, g, b, a]
    case Index(i) => [Tagged(INDEX_FLAG, i as int)]
    case Diff(dr, dg, db) => [Tagged(DIFF_FLAG, dr as int * 16 + dg as int * 4 + db as int)]
    case Luma(dg, drDg, dbDg) => [Tagged(LUMA_FLAG, dg as int), (drDg as int * 16 + dbDg as int) as byte]
    case Run(run) => [Tagged(RUN_FLAG, run as int)]
  }

  /** The SIZE constant of each kind. */
  function Size(c: Chunk): nat {
    match c
    case Rgb(_, _, _, _) => RGB_SIZE
    case Rgba(_, _, _, _) => RGBA_SIZE
    case Index(_) => INDEX_SIZE
    case Diff(_, _, _) => DIFF_SIZE
    case Luma(_, _, _) => LUMA_SIZE
    case Run(_) => RUN_SIZE
  }

  /** The `matches` test of a chunk's own kind. */
  predicate KindMatches(c: Chunk, byte0: byte) {
    match c
    case Rgb(_, _, _, _) => RgbMatches(byte0)
    case Rgba(_, _, _, _) => RgbaMatches(byte0)
    case Index(_) => IndexMatches(byte0)
    case Diff(_, _, _) => DiffMatches(byte0)
    case Luma(_, _, _) => LumaMatches(byte0)
    case Run(_) => RunMatches(byte0)
  }

  /** Encoding gives SIZE bytes whose first byte its own kind matches. */
  lemma EncodeShape(c: Chunk)
    requires WellFormed(c)
    ensures |Encode(c)| == Size(c)
    ensures KindMatches(c, Encode(c)[0])
  {
  }

  /** Raw chunks: the flag, then the channels in order. */
  lemma EncodeRaw(r: byte, g: byte, b: byte, a: byte)
    ensures Encode(Rgb(r, g, b, a)) == [0xFE, r, g, b] && |Encode(Rgb(r, g, b, a))| == RGB_SIZE
    ensures Encode(Rgba(r, g, b, a)) == [0xFF, r, g, b, a] && |Encode(Rgba(r, g, b, a))| == RGBA_SIZE
  {
  }

  // ----- field recovery: what the decoder reads back -----

  function DecodeIndex(byte0: byte): (c: Chunk)
    ensures WellFormed(c)
  {
    Index(byte0 % 64)
  }

  function DecodeDiff(byte0: byte): (c: Chunk)
    ensures WellFormed(c)
  {
    Diff((byte0 / 16) % 4, (byte0 / 4) % 4, byte0 % 4)
  }

  function DecodeLuma(byte0: byte, byte1: byte): (c: Chunk)
    ensures WellFormed(c)
  {
    Luma(byte0 % 64, byte1 / 16, byte1 % 16)
  }

  function DecodeRun(byte0: byte): Chunk
  {
    Run(byte0 % 64)
  }

  /** The index chunk is its index byte itself (tag 00), and reads back. */
  lemma IndexLayout(i: byte)
    requires i < 64
    ensures Encode(Index(i)) == [i]
    ensures IndexMatches(i) && DecodeIndex(i) == Index(i)
  {
  }

  /** Diff: tag 01, and shift-and-mask recovers each 2-bit field. */
  lemma DiffLayout(dr: byte, dg: byte, db: byte)
    requires dr < 4 && dg < 4 && db < 4
    ensures var b := Encode(Diff(dr, dg, db))[0];
      b / 64 == 1 && (b / 16) % 4 == dr && (b / 4) % 4 == dg && b % 4 == db
    ensures DecodeDiff(Encode(Diff(dr, dg, db))[0]) == Diff(dr, dg, db)
  {
    var b := Encode(Diff(dr, dg, db))[0];
    assert b as int == 64 + dr as int * 16 + dg as int * 4 + db as int;
    assert (b / 16) as int == 4 + dr as int;
    assert (b / 4) as int == 16 + dr as int * 4 + dg as int;
  }

  /** Luma: two bytes, tag 10 on the first; all three fields read back. */
  lemma LumaLayout(dg: byte, drDg: byte, dbDg: byte)
    requires dg < 64 && drDg < 16 && dbDg < 16
    ensures var bs := Encode(Luma(dg, drDg, dbDg));
      |bs| == 2 && bs[0] / 64 == 2 && bs[0] % 64 == dg && bs[1] / 16 == drDg && bs[1] % 16 == dbDg
    ensures var bs := Encode(Luma(dg, drDg, dbDg)); DecodeLuma(bs[0], bs[1]) == Luma(dg, drDg, dbDg)
  {
  }

  /** Run: tag 11; a stored run of at most 61 stays at or below 0xFD, so
      neither raw tag can be mistaken for it. */
  lemma RunLayout(run: byte)
    requires run < 64
    ensures Tagged(RUN_FLAG, run as int) / 64 == 3
    ensures run as nat < MAX_RUN_LENGTH ==>
      var b := Encode(Run(run))[0];
      b <= 0xFD && !RgbMatches(b) && !RgbaMatches(b) && DecodeRun(b) == Run(run)
  {
  }

  /** Every byte has exactly one 2-bit prefix; the two raw tags sit inside
      the run prefix, so they must be tested before the run test. */
  lemma PrefixClassification(b: byte)
    ensures IndexMatches(b) || DiffMatches(b) || LumaMatches(b) || RunMatches(b)
    ensures !(IndexMatches(b) && DiffMatches(b)) && !(IndexMatches(b) && LumaMatches(b))
    ensures !(IndexMatches(b) && RunMatches(b)) && !(DiffMatches(b) && LumaMatches(b))
    ensures !(DiffMatches(b) && RunMatches(b)) && !(LumaMatches(b) && RunMatches(b))
    ensures (RgbMatches(b) || RgbaMatches(b)) ==> RunMatches(b)
    ensures !(RgbMatches(b) && RgbaMatches(b))
  {
  }

  // ----- chunks built from pixels, and pixels rebuilt from chunks -----

  /** The run chunk for a run of `len` pixels (stored with bias -1). */
  function RunOf(len: nat): (c: Chunk)
    requires 1 <= len <= MAX_RUN_LENGTH
    ensures WellFormed(c) && c.Run?
  {
    Run((len - 1) as byte)
  }

  /** The number of pixels a run chunk stands for. */
  function RunLength(c: Chunk): (n: nat)
    requires c.Run?
    ensures 1 <= n <= 256
  {
    c.run as nat + 1
  }

  lemma RunLengthOf(len: nat)
    requires 1 <= len <= MAX_RUN_LENGTH
    ensures RunLength(RunOf(len)) == len
    ensures Encode(RunOf(len)) == [(0xC0 + len - 1) as byte]
  {
  }

  function RgbOf(p: Pixel): Chunk { Rgb(p.r, p.g, p.b, p.a) }
  function RgbaOf(p: Pixel): Chunk { Rgba(p.r, p.g, p.b, p.a) }

  /** The pixel a raw chunk carries. */
  function RawPixel(c: Chunk): (p: Pixel)
    requires c.Rgb? || c.Rgba?
  {
    Pixel(c.r, c.g, c.b, c.a)
  }

  /** A small diff: every channel delta in [-2, 1] (biased by +2 into 0..3,
      wrapping at 8 bits) and the same alpha. */
  function TryDiff(last: Pixel, p: Pixel): (res: Option<Chunk>)
    ensures res.Some? ==> res.value.Diff? && WellFormed(res.value)
  {
    var dr := Wrap(p.r as int - last.r as int + 2);
    var dg := Wrap(p.g as int - last.g as int + 2);
    var db := Wrap(p.b as int - last.b as int + 2);
    if p.a == last.a && dr < 4 && dg < 4 && db < 4 then Some(Diff(dr, dg, db)) else None
  }

  /** A luma diff: green delta in [-32, 31] (bias +32), red and blue deltas
      relative to green in [-8, 7] (bias +8), and the same alpha. */
  function TryLuma(last: Pixel, p: Pixel): (res: Option<Chunk>)
    ensures res.Some? ==> res.value.Luma? && WellFormed(res.value)
  {
    var vr := p.r as int - last.r as int;
    var vg := p.g as int - last.g as int;
    var vb := p.b as int - last.b as int;
    var dg := Wrap(vg + 32);
    var drDg := Wrap(vr - vg + 8);
    var dbDg := Wrap(vb - vg + 8);
    if p.a == last.a && dg < 64 && drDg < 16 && dbDg < 16 then Some(Luma(dg, drDg, dbDg)) else None
  }

  /** The pixel a diff chunk describes, relative to the previous pixel. */
  function ApplyDiff(last: Pixel, c: Chunk): Pixel
    requires c.Diff?
  {
    Pixel(Wrap(last.r as int + c.dr as int - 2), Wrap(last.g as int + c.dg as int - 2),
          Wrap(last.b as int + c.db as int - 2), last.a)
  }

  /** The pixel a luma chunk describes, relative to the previous pixel. */
  function ApplyLuma(last: Pixel, c: Chunk): Pixel
    requires c.Luma?
  {
    var vg := c.diffGreen as int - 32;
    Pixel(Wrap(last.r as int + vg + c.drDg as int - 8), Wrap(last.g as int + vg),
          Wrap(last.b as int + vg + c.dbDg as int - 8), last.a)
  }

  datatype Option<T> = None | Some(value: T)

  /** A diff chunk, when one is found, rebuilds exactly the pixel. */
  lemma DiffRoundTrip(last: Pixel, p: Pixel)
    requires TryDiff(last, p).Some?
    ensures ApplyDiff(last, TryDiff(last, p).value) == p
  {
    var c := TryDiff(last, p).value;
    assert c == Diff(Wrap(p.r as int - last.r as int + 2), Wrap(p.g as int - last.g as int + 2), Wrap(p.b as int - last.b as int + 2));
    assert p.a == last.a;
    DiffBack(last.r, p.r);
    DiffBack(last.g, p.g);
    DiffBack(last.b, p.b);
  }

  /** A channel comes back from its biased delta. */
  lemma DiffBack(l: byte, p: byte)
    ensures Wrap(l as int + Wrap(p as int - l as int + 2) as int - 2) == p
  {
    var v := p as int - l as int + 2;
    WrapQuotient(v);
    WrapSameClass(l as int + Wrap(v) as int - 2, p as int, -(v / 256));
  }

  /** A luma chunk, when one is found, rebuilds exactly the pixel. */
  lemma LumaRoundTrip(last: Pixel, p: Pixel)
    requires TryLuma(last, p).Some?
    ensures ApplyLuma(last, TryLuma(last, p).value) == p
  {
    var vg := p.g as int - last.g as int;
    var c := TryLuma(last, p).value;
    assert c == Luma(Wrap(vg + 32), Wrap(p.r as int - last.r as int - vg + 8), Wrap(p.b as int - last.b as int - vg + 8));
    assert p.a == last.a;
    LumaBack(last, p, c);
  }

  /** The three channels of a luma chunk built from `last` and `p` come
      back to those of `p`. */
  lemma LumaBack(last: Pixel, p: Pixel, c: Chunk)
    requires var vg := p.g as int - last.g as int;
      c == Luma(Wrap(vg + 32), Wrap(p.r as int - last.r as int - vg + 8), Wrap(p.b as int - last.b as int - vg + 8))
    ensures ApplyLuma(last, c) == Pixel(p.r, p.g, p.b, last.a)
  {
    LumaGreenBack(last.g, p.g);
    LumaSideBack(last.r, p.r, last.g, p.g);
    LumaSideBack(last.b, p.b, last.g, p.g);
  }

  /** The green channel comes back from its biased delta. */
  lemma LumaGreenBack(l: byte, p: byte)
    ensures Wrap(l as int + (Wrap(p as int - l as int + 32) as int - 32)) == p
  {
    var v := p as int - l as int + 32;
    WrapQuotient(v);
    WrapSameClass(l as int + (Wrap(v) as int - 32), p as int, -(v / 256));
  }

  /** Red and blue come back from the green delta plus their delta
      relative to green. */
  lemma LumaSideBack(l: byte, p: byte, lg: byte, pg: byte)
    ensures var vg := pg as int - lg as int;
      Wrap(l as int + (Wrap(vg + 32) as int - 32) + (Wrap(p as int - l as int - vg + 8) as int - 8)) == p
  {
    var vg := pg as int - lg as int;
    var x, y := vg + 32, p as int - l as int - vg + 8;
    WrapQuotient(x);
    WrapQuotient(y);
    WrapSameClass(l as int + (Wrap(x) as int - 32) + (Wrap(y) as int - 8), p as int, -(x / 256) - (y / 256));
  }

  /** Wrapping subtracts a multiple of 256. */
  lemma WrapQuotient(x: int)
    ensures Wrap(x) as int == x - 256 * (x / 256)
  {
  }

  /** Values that differ by a multiple of 256 wrap to the same byte. */
  lemma WrapSameClass(x: int, y: int, k: int)
    requires x == y + 256 * k
    ensures Wrap(x) == Wrap(y)
  {
    var qy := y / 256;
    assert x == 256 * (qy + k) + y % 256;
  }

  /** Every channel delta in [-2, 1] with equal alpha yields a diff chunk. */
  lemma DiffFound(last: Pixel, d: int)
    requires -2 <= d <= 1
    ensures var p := Pixel(Wrap(last.r as int + d), Wrap(last.g as int + d), Wrap(last.b as int + d), last.a);
      TryDiff(last, p).Some?
  {
    DeltaBack(last.r, d, 2);
    DeltaBack(last.g, d, 2);
    DeltaBack(last.b, d, 2);
  }

  /** A delta applied with wrap-around and measured again with a bias comes
      back biased. */
  lemma DeltaBack(l: byte, d: int, bias: int)
    requires 0 <= d + bias < 256
    ensures Wrap(Wrap(l as int + d) as int - l as int + bias) as int == d + bias
  {
    var x := l as int + d;
    WrapQuotient(x);
    WrapSameClass(Wrap(x) as int - l as int + bias, d + bias, -(x / 256));
  }

  /** Two channels moved by the same delta keep their difference. */
  lemma SameDeltaBack(l: byte, lg: byte, d: int)
    requires -128 <= d < 128
    ensures Wrap((Wrap(l as int + d) as int - l as int) - (Wrap(lg as int + d) as int - lg as int) + 8) as int == 8
  {
    var x, y := l as int + d, lg as int + d;
    WrapQuotient(x);
    WrapQuotient(y);
    WrapSameClass((Wrap(x) as int - l as int) - (Wrap(y) as int - lg as int) + 8, 8, (y / 256) - (x / 256));
  }

  /** A green delta in [-32, 31] applied to all three channels (so red and
      blue move with green) yields a luma chunk. */
  lemma LumaFound(last: Pixel, d: int)
    requires -32 <= d <= 31
    ensures var p := Pixel(Wrap(last.r as int + d), Wrap(last.g as int + d), Wrap(last.b as int + d), last.a);
      TryLuma(last, p).Some?
  {
    DeltaBack(last.g, d, 32);
    SameDeltaBack(last.r, last.g, d);
    SameDeltaBack(last.b, last.g, d);
  }
}
