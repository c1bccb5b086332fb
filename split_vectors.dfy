// Concrete inputs for the two-segment encoder: ones on which it goes
// wrong in ways the byte comparisons of the test vectors do not show (a
// pixel that decodes to another one, a segment that panics, an image cut
// inside a pixel), and one on which its early write of a capped run at
// the boundary comes out right.

module ZeroSlotVectors {
  import opened Consts
  import opened Pixels
  import opened Chunks
  import opened Codec
  import opened Encoder
  import opened Decoder
  import RoundTrip
  import Stitch

  /** Slot 0 of the hash: (0,0,0,64) lands there, and so does (0,0,0,0). */
  const X := Pixel(0, 0, 0, 64)
  const Y := Pixel(1, 1, 1, 64)

  const XX: seq<byte> := [0, 0, 0, 64, 0, 0, 0, 64]
  const YZ: seq<byte> := [1, 1, 1, 64, 0, 0, 0, 0]
  const IMAGE: seq<byte> := XX + YZ

  /** The written stream: X raw, a run of one, Y as a small diff, index 0. */
  const SPLIT_STREAM: seq<byte> := [0xFF, 0, 0, 0, 64, 0xC0, 0x7F, 0x00] + END_MARKER

  lemma Hashes()
    ensures Hash(X) == 0 && Hash(Y) == 15 && Hash(ZERO_PIXEL) == 0
  {
  }

  lemma ImagePixels()
    ensures PixelsOf(XX, 4) == [X, X] && PixelsOf(YZ, 4) == [Y, ZERO_PIXEL]
    ensures PixelsOf(IMAGE, 4) == [X, X, Y, ZERO_PIXEL]
  {
  }

  lemma Misses()
    ensures MissChunk(DEFAULT_PIXEL, X, 4) == Rgba(0, 0, 0, 64)
    ensures MissChunk(DEFAULT_PIXEL, Y, 4) == Rgba(1, 1, 1, 64)
    ensures MissChunk(X, Y, 4) == Diff(3, 3, 3)
  {
    assert TryDiff(DEFAULT_PIXEL, X).None? && TryLuma(DEFAULT_PIXEL, X).None?;
    assert TryDiff(DEFAULT_PIXEL, Y).None? && TryLuma(DEFAULT_PIXEL, Y).None?;
  }

  /** The first segment: X is new, then it repeats once. */
  lemma FirstHalf()
    ensures var (out, g) := SegmentChunks(XX, 4);
            out == [Resolved(Rgba(0, 0, 0, 64))] && g.run == 1 && g.last == X
            && g.cache[0] == X && g.cache[15] == ZERO_PIXEL
  {
    Hashes();
    Misses();
    ImagePixels();
    var s0 := New();
    EncodePixelsSnoc(s0, [], X, 4);
    assert [] + [X] == [X];
    var (s1, o1) := EncodePixels(s0, [X], 4);
    assert s1.last == X && s1.run == 0 && s1.cache[0] == X && s1.cache[15] == ZERO_PIXEL;
    assert o1 == [Resolved(Rgba(0, 0, 0, 64))];
    EncodePixelsSnoc(s0, [X], X, 4);
    assert [X] + [X] == [X, X];
  }

  /** The second segment from a fresh state: Y is new, and (0,0,0,0) is
      found at slot 0 of the fresh cache, so it is an index chunk marked
      resolved although this segment never wrote that slot. */
  lemma SecondHalf()
    ensures var (out, s) := SegmentChunks(YZ, 4);
            out == [Resolved(Rgba(1, 1, 1, 64)), Resolved(Index(0))] && s.run == 0
  {
    Hashes();
    Misses();
    ImagePixels();
    var s0 := New();
    EncodePixelsSnoc(s0, [], Y, 4);
    assert [] + [Y] == [Y];
    var (s1, o1) := EncodePixels(s0, [Y], 4);
    assert s1.last == Y && s1.run == 0 && s1.cache[0] == ZERO_PIXEL;
    assert o1 == [Resolved(Rgba(1, 1, 1, 64))];
    EncodePixelsSnoc(s0, [Y], ZERO_PIXEL, 4);
    assert [Y] + [ZERO_PIXEL] == [Y, ZERO_PIXEL];
  }

  /** At the boundary Y closes the global run of one and is a diff from X. */
  lemma BoundaryY(g: State)
    requires Valid(g) && g.run == 1 && g.last == X && g.cache[15] == ZERO_PIXEL
    ensures Boundary(g, Rgba(1, 1, 1, 64), 4) == ([], 0, [Resolved(Run(0)), Resolved(Diff(3, 3, 3))])
  {
    Hashes();
    Misses();
    assert LookupChunk(New(), Rgba(1, 1, 1, 64)) == Y;
    assert RunOf(1) == Run(0);
    var s1 := g.(run := 0);
    var s2 := s1.(cache := s1.cache[15 := Y], modified := s1.modified + {15});
    assert s1.cache[15] != Y;
    assert ProcessPixel(g, Y, 4) == Cleanup(s2, [Resolved(Run(0))], Some(Diff(3, 3, 3)), Y);
    assert IsResolved(s2, Diff(3, 3, 3));
    assert [Resolved(Run(0))] + [Resolved(Diff(3, 3, 3))] == [Resolved(Run(0)), Resolved(Diff(3, 3, 3))];
    assert ProcessPixel(g, Y, 4) == (s2.(last := Y), [Resolved(Run(0)), Resolved(Diff(3, 3, 3))]);
  }

  /** Y closes the run with a run chunk written early; the diff takes
      Y's place ahead of the index chunk. */
  lemma StitchPlaced(g: State, out: seq<ChunkState>, s: State)
    requires Valid(g) && g.run == 1 && g.last == X && g.cache[15] == ZERO_PIXEL
    requires Valid(s) && out == [Resolved(Rgba(1, 1, 1, 64)), Resolved(Index(0))]
    ensures StitchSegment(g, out, s, 4) ==
      Finish(g, [0xC0], [Resolved(Diff(3, 3, 3)), Resolved(Index(0))], s)
  {
    BoundaryY(g);
    assert out[0].chunk == Rgba(1, 1, 1, 64);
    assert out[1..] == [Resolved(Index(0))];
    var rest := [Resolved(Diff(3, 3, 3))] + out[1..];
    assert rest == [Resolved(Diff(3, 3, 3)), Resolved(Index(0))];
    assert Encode(Run(0)) == [0xC0];
    assert Placed(0, [Resolved(Run(0)), Resolved(Diff(3, 3, 3))], out[1..]) == Some(([0xC0], rest));
    var early: seq<byte> := [];
    assert early + [0xC0] == [0xC0];
  }

  /** Both entries are resolved, so they are written as they are. */
  lemma RestBytes(g: State)
    requires Valid(g)
    ensures Serialize(ResolveAll(g, [Resolved(Diff(3, 3, 3)), Resolved(Index(0))])) == [0x7F, 0x00]
  {
    assert ResolveAll(g, [Resolved(Diff(3, 3, 3)), Resolved(Index(0))]) == [Diff(3, 3, 3), Index(0)];
    assert [Diff(3, 3, 3), Index(0)][..1] == [Diff(3, 3, 3)];
    assert [Diff(3, 3, 3)][..0] == [];
  }

  lemma StitchYZ(g: State, out: seq<ChunkState>, s: State)
    requires Valid(g) && g.run == 1 && g.last == X && g.cache[15] == ZERO_PIXEL
    requires Valid(s) && s.run == 0
    requires out == [Resolved(Rgba(1, 1, 1, 64)), Resolved(Index(0))]
    ensures var (w, g1) := StitchSegment(g, out, s, 4);
            w == Written([0xC0, 0x7F, 0x00], None) && Drained(g1) == []
  {
    StitchPlaced(g, out, s);
    RestBytes(g);
  }

  lemma FirstBytes(out0: seq<ChunkState>)
    requires out0 == [Resolved(Rgba(0, 0, 0, 64))]
    ensures Serialize(ChunksOf(out0)) == [0xFF, 0, 0, 0, 64]
  {
    assert ChunksOf(out0) == [Rgba(0, 0, 0, 64)];
    assert [Rgba(0, 0, 0, 64)][..0] == [];
  }

  lemma Concatenated(first: seq<byte>, w: Written, drained: seq<byte>)
    requires first == [0xFF, 0, 0, 0, 64] && w == Written([0xC0, 0x7F, 0x00], None) && drained == []
    ensures Written(first + w.bytes + drained + END_MARKER, None) == Written(SPLIT_STREAM, None)
  {
  }

  /** The two segments as the source stitches them. */
  lemma SplitStream()
    ensures EncodeSegments(IMAGE, 4, 2) == Written(SPLIT_STREAM, None)
  {
    TwoSegments(IMAGE, XX, YZ, 4);
    FirstHalf();
    SecondHalf();
    var (out0, g) := SegmentChunks(XX, 4);
    var (out1, s) := SegmentChunks(YZ, 4);
    StitchYZ(g, out1, s);
    FirstBytes(out0);
    var (w, g1) := StitchSegment(g, out1, s, 4);
    Concatenated(Serialize(ChunksOf(out0)), w, Drained(g1));
  }

  /** Reading the stream: X, X again (the run), Y, and then index 0, which
      the reader filled with X. */
  lemma ReadSplitStream()
    ensures var res := ReadPixels(Fresh(), SPLIT_STREAM, 4);
            res.Ok? && res.value.2 == [X, X, Y, X]
  {
    Hashes();
    var r0, in0 := Fresh(), SPLIT_STREAM;
    assert ParseChunk(in0, r0.last) == Ok((Rgba(0, 0, 0, 64), 5));
    var in1 := in0[5..];
    var r1 := ReaderState(X, r0.cache[0 := X], 0);
    assert ReadStep(r0, in0) == Ok((r1, in1, X));
    RoundTrip.ReadOne(r0, in0);
    assert ParseChunk(in1, X) == Ok((Run(0), 1));
    var in2 := in1[1..];
    var r2 := ReaderState(X, r1.cache, 0);
    assert r1.cache[0 := X] == r1.cache;
    assert ReadStep(r1, in1) == Ok((r2, in2, X));
    RoundTrip.ReadOne(r1, in1);
    RoundTrip.ReadThen(r0, in0, 1, 1, r1, in1, [X], r2, in2, [X]);
    assert [X] + [X] == [X, X];
    assert ParseChunk(in2, X) == Ok((Diff(3, 3, 3), 1));
    assert ApplyDiff(X, Diff(3, 3, 3)) == Y;
    var in3 := in2[1..];
    var r3 := ReaderState(Y, r2.cache[15 := Y], 0);
    assert ReadStep(r2, in2) == Ok((r3, in3, Y));
    RoundTrip.ReadOne(r2, in2);
    RoundTrip.ReadThen(r0, in0, 2, 1, r2, in2, [X, X], r3, in3, [Y]);
    assert [X, X] + [Y] == [X, X, Y];
    assert ParseChunk(in3, Y) == Ok((Index(0), 1));
    assert r3.cache[0] == X;
    var in4 := in3[1..];
    var r4 := ReaderState(X, r3.cache, 0);
    assert r3.cache[0 := X] == r3.cache;
    assert ReadStep(r3, in3) == Ok((r4, in4, X));
    RoundTrip.ReadOne(r3, in3);
    RoundTrip.ReadThen(r0, in0, 3, 1, r3, in3, [X, X, Y], r4, in4, [X]);
    assert [X, X, Y] + [X] == [X, X, Y, X];
  }

  /** Split in two, the image (its pixels are [X, X, Y, (0,0,0,0)], see
      ImagePixels) reads back with (0,0,0,0) replaced by X: the
      index chunk refers to the fresh cache of the second segment, not to
      the cache the reader keeps. */
  lemma ZeroPixelLost()
    ensures var res := ReadPixels(Fresh(), EncodeSegments(IMAGE, 4, 2).bytes, 4);
            res.Ok? && res.value.2 == [X, X, Y, X] && res.value.2 != [X, X, Y, ZERO_PIXEL]
  {
    SplitStream();
    ReadSplitStream();
    LostFrom(EncodeSegments(IMAGE, 4, 2).bytes, [X, X, Y, ZERO_PIXEL]);
  }

  lemma LostFrom(bytes: seq<byte>, image: seq<Pixel>)
    requires bytes == SPLIT_STREAM && image == [X, X, Y, ZERO_PIXEL]
    requires var res := ReadPixels(Fresh(), SPLIT_STREAM, 4); res.Ok? && res.value.2 == [X, X, Y, X]
    ensures var res := ReadPixels(Fresh(), bytes, 4);
            res.Ok? && res.value.2 == [X, X, Y, X] && res.value.2 != image
  {
    Differs([X, X, Y, X], image);
  }

  lemma Differs(read: seq<Pixel>, image: seq<Pixel>)
    requires read == [X, X, Y, X] && image == [X, X, Y, ZERO_PIXEL]
    ensures read != image
  {
    assert read[3] != image[3];
  }

  /** The corrected stitching reads the same image back. */
  lemma ZeroPixelKept()
    ensures var res := ReadPixels(Fresh(), Stitch.EncodeSplit(PixelsOf(IMAGE, 4), 4, 2), 4);
            res.Ok? && res.value.2 == PixelsOf(IMAGE, 4)
  {
    ImagePixels();
    Stitch.SplitRoundTrip(PixelsOf(IMAGE, 4), 4, 2);
  }
}

module DefaultSegmentVectors {
  import opened Consts
  import opened Pixels
  import opened Chunks
  import opened Codec
  import opened Encoder
  import opened Decoder
  import Stitch

  /** A raw pixel, then the default previous pixel (0,0,0,255). */
  const IMAGE: seq<byte> := [100, 100, 0, 0, 0, 0]

  /** The second segment holds only the default pixel: encoded from a fresh
      state it extends the run the state starts from and yields no chunk, so
      taking its first chunk panics. */
  lemma DefaultSegmentPanics()
    ensures EncodeSegments(IMAGE, 3, 2).panic == Some(EmptyChunkList)
  {
    var first, second := [100 as byte, 100, 0], [0 as byte, 0, 0];
    assert IMAGE == first + second;
    TwoSegments(IMAGE, first, second, 3);
    assert PixelsOf(second, 3) == [DEFAULT_PIXEL];
    EncodePixelsSnoc(New(), [], DEFAULT_PIXEL, 3);
    assert [] + [DEFAULT_PIXEL] == [DEFAULT_PIXEL];
    assert SegmentChunks(second, 3).0 == [];
  }

  /** The corrected stitching reads both pixels back. */
  lemma DefaultSegmentKept()
    ensures var res := ReadPixels(Fresh(), Stitch.EncodeSplit(PixelsOf(IMAGE, 3), 3, 2), 2);
            res.Ok? && res.value.2 == [Pixel(100, 100, 0, 255), DEFAULT_PIXEL]
  {
    assert PixelsOf(IMAGE, 3) == [Pixel(100, 100, 0, 255), DEFAULT_PIXEL];
    Stitch.SplitRoundTrip(PixelsOf(IMAGE, 3), 3, 2);
  }
}

module EarlyRunVectors {
  import opened Consts
  import opened Pixels
  import opened Chunks
  import opened Codec
  import opened Encoder

  /** A raw pixel after the default one. */
  const P := Pixel(100, 100, 0, 255)

  /** The second segment: the default pixel, then P. */
  const SEGMENT: seq<byte> := [0, 0, 0, 100, 100, 0]

  /** Default pixels from a fresh state, up to the cap, only lengthen the
      run the state starts from. */
  lemma {:induction false} DefaultRun(k: nat)
    requires k <= MAX_RUN_LENGTH
    ensures EncodePixels(New(), seq(k, _ => DEFAULT_PIXEL), 3) == (New().(run := k), [])
  {
    if k > 0 {
      var ps := seq(k, _ => DEFAULT_PIXEL);
      assert ps == seq(k - 1, _ => DEFAULT_PIXEL) + [DEFAULT_PIXEL];
      DefaultRun(k - 1);
      EncodePixelsSnoc(New(), seq(k - 1, _ => DEFAULT_PIXEL), DEFAULT_PIXEL, 3);
      RepeatExtendsRun(New().(run := k - 1), DEFAULT_PIXEL, 3);
      var none: seq<ChunkState> := [];
      assert none + none == none;
    }
  }

  /** From a fresh state the default pixel opens a run, and P closes it
      and is a raw dump. */
  lemma SegmentOut()
    ensures SegmentChunks(SEGMENT, 3).0 == [Resolved(Run(0)), Resolved(Rgb(100, 100, 0, 255))]
  {
    assert PixelsOf(SEGMENT, 3) == [DEFAULT_PIXEL] + [P];
    DefaultRun(1);
    assert seq(1, _ => DEFAULT_PIXEL) == [DEFAULT_PIXEL];
    var s1 := New().(run := 1);
    EncodePixelsSnoc(New(), [DEFAULT_PIXEL], P, 3);
    assert Hash(P) == 21;
    CacheMissStoresPixel(s1, P, 3);
    assert RunOf(1) == Run(0);
  }

  /** The state after 62 default pixels: the global run is at the cap. */
  const CAPPED: State := New().(run := MAX_RUN_LENGTH)

  /** The boundary pixel (the default one again) ends the capped run: the
      hack writes the capped run at once and a run of one goes on. */
  lemma EarlyRun()
    ensures Boundary(CAPPED, Run(0), 3) == ([0xFD], 1, [])
  {
    assert LookupChunk(New(), Run(0)) == CAPPED.last;
    assert Encode(RunOf(MAX_RUN_LENGTH)) == [0xFD];
  }

  /** The run of one is then written by the run fix-up, before P. */
  lemma EarlyThenFixUp(out: seq<ChunkState>, s: State)
    requires Valid(s) && out == [Resolved(Run(0)), Resolved(Rgb(100, 100, 0, 255))]
    ensures StitchSegment(CAPPED, out, s, 3).0 == Written([0xFD, 0xC0, 0xFE, 100, 100, 0], None)
  {
    EarlyRun();
    var rest := [Resolved(Rgb(100, 100, 0, 255))];
    assert out[0].chunk == Run(0) && out[1..] == rest;
    assert RunChunks(1) == [Run(0)];
    assert Serialize([Run(0)]) == [0xC0];
    assert Placed(1, [], rest) == Some(([0xC0], rest));
    assert ResolveAll(CAPPED, rest) == [Rgb(100, 100, 0, 255)];
    assert Serialize([Rgb(100, 100, 0, 255)]) == [0xFE, 100, 100, 0];
  }

  /** A second segment that starts with the default pixel, stitched after
      62 default pixels: the capped run is written early, then a run of
      one, then P. */
  lemma EarlyRunWritten(s: State)
    requires Valid(s)
    ensures StitchSegment(EncodePixels(New(), seq(MAX_RUN_LENGTH, _ => DEFAULT_PIXEL), 3).0,
                          SegmentChunks(SEGMENT, 3).0, s, 3).0
            == Written([0xFD, 0xC0, 0xFE, 100, 100, 0], None)
  {
    DefaultRun(MAX_RUN_LENGTH);
    SegmentOut();
    EarlyThenFixUp(SegmentChunks(SEGMENT, 3).0, s);
  }
}

module OddImageVectors {
  import opened Consts
  import opened Pixels
  import opened Chunks
  import opened Encoder
  import opened Decoder
  import Stitch

  /** Three RGB pixels, and one RGBA pixel. */
  const RGB_IMAGE: seq<byte> := [1, 2, 3, 4, 5, 6, 7, 8, 9]
  const RGBA_IMAGE: seq<byte> := [1, 2, 3, 4]

  /** Halving cuts the middle pixel of the first, and the only pixel of
      the second. */
  lemma OddImagesPanic()
    ensures EncodeSegments(RGB_IMAGE, 3, 2).panic == Some(PartialPixel)
    ensures EncodeSegments(RGBA_IMAGE, 4, 2).panic == Some(PartialPixel)
  {
    OddPixelsPanic(RGB_IMAGE, 3);
    OddPixelsPanic(RGBA_IMAGE, 4);
  }

  /** Cut on pixel boundaries instead, the three pixels are read back. */
  lemma OddImageKept()
    ensures var ps := PixelsOf(RGB_IMAGE, 3);
            var res := ReadPixels(Fresh(), Stitch.EncodeSplit(ps, 3, 2), 3);
            res.Ok? && res.value.2 == [Pixel(1, 2, 3, 255), Pixel(4, 5, 6, 255), Pixel(7, 8, 9, 255)]
  {
    assert PixelsOf(RGB_IMAGE, 3) == [Pixel(1, 2, 3, 255), Pixel(4, 5, 6, 255), Pixel(7, 8, 9, 255)];
    Stitch.SplitRoundTrip(PixelsOf(RGB_IMAGE, 3), 3, 2);
  }
}
