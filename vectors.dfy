/** The 2x2 RGB images of the encoding tests in lib.rs, encoded with the
    source's two segments and with a single segment. The tests compare the
    bytes between the header and the end marker. */
module Vectors {
  import opened Pixels
  import opened Chunks
  import opened Codec
  import opened Encoder

  const A := Pixel(100, 100, 0, 255)
  const B := Pixel(150, 100, 0, 255)
  const C := Pixel(100, 150, 0, 255)
  const D := Pixel(150, 150, 0, 255)

  const RGB_A: seq<byte> := [254, 100, 100, 0]
  const RGB_B: seq<byte> := [254, 150, 100, 0]
  const RGB_C: seq<byte> := [254, 100, 150, 0]
  const RGB_D: seq<byte> := [254, 150, 150, 0]

  lemma Hashes()
    ensures Hash(A) == 21 && Hash(B) == 43 && Hash(C) == 15 && Hash(D) == 37
  {
  }

  lemma SerializeRaw(c: Chunk, d: Chunk)
    requires WellFormed(c) && WellFormed(d)
    ensures Serialize([c]) == Encode(c)
    ensures Serialize([c, d]) == Encode(c) + Encode(d)
  {
    assert [c, d][..1] == [c];
    assert [c][..0] == [];
  }

  /** Two outcomes differ when their bytes differ at some index. */
  lemma DifferAt(w: Written, v: Written, i: nat)
    requires i < |w.bytes| && i < |v.bytes| && w.bytes[i] != v.bytes[i]
    ensures w != v
  {
  }

  // test_rle_rgb: four copies of one pixel.

  const RLE_HALF: seq<byte> := [100, 100, 0, 100, 100, 0]
  const RLE_IMAGE: seq<byte> := RLE_HALF + RLE_HALF

  lemma RlePixels()
    ensures PixelsOf(RLE_HALF, 3) == [A, A]
    ensures PixelsOf(RLE_IMAGE, 3) == [A, A, A, A]
  {
  }

  lemma RleEncodeOne()
    ensures var (s, out) := EncodePixels(New(), [A], 3);
            out == [Resolved(Rgb(100, 100, 0, 255))] && s.run == 0 && s.last == A && Valid(s)
  {
    Hashes();
    EncodePixelsSnoc(New(), [], A, 3);
    assert [] + [A] == [A];
  }

  /** A pixel equal to the previous one with no run pending starts a run
      and writes nothing. */
  lemma RepeatStartsRun(s: State)
    requires Valid(s) && s.run == 0 && s.last == A
    ensures ProcessPixel(s, A, 3).1 == [] && ProcessPixel(s, A, 3).0.run == 1
            && ProcessPixel(s, A, 3).0.last == A
  {
  }

  lemma RleEncodeTwo()
    ensures var (s, out) := EncodePixels(New(), [A, A], 3);
            out == [Resolved(Rgb(100, 100, 0, 255))] && s.run == 1 && s.last == A
  {
    RleEncodeOne();
    var (s1, o1) := EncodePixels(New(), [A], 3);
    RepeatStartsRun(s1);
    EncodePixelsSnoc(New(), [A], A, 3);
    assert [A] + [A] == [A, A];
    assert o1 + [] == o1;
  }

  lemma RleEncodeFour()
    ensures var (s, out) := EncodePixels(New(), [A, A, A, A], 3);
            out == [Resolved(Rgb(100, 100, 0, 255))] && s.run == 3 && s.last == A
  {
    RleEncodeTwo();
    var s0 := New();
    var (s2, o2) := EncodePixels(s0, [A, A], 3);
    EncodePixelsSnoc(s0, [A, A], A, 3);
    assert [A, A] + [A] == [A, A, A];
    var (s3, o3) := EncodePixels(s0, [A, A, A], 3);
    assert o3 == o2 && s3.last == A && s3.run == 2;
    EncodePixelsSnoc(s0, [A, A, A], A, 3);
    assert [A, A, A] + [A] == [A, A, A, A];
  }

  lemma RleWhole()
    ensures var (out, g) := SegmentChunks(RLE_IMAGE, 3);
            out == [Resolved(Rgb(100, 100, 0, 255))] && g.run == 3 && g.last == A
  {
    RlePixels();
    RleEncodeFour();
  }

  lemma RleHalf()
    ensures var (out, g) := SegmentChunks(RLE_HALF, 3);
            out == [Resolved(Rgb(100, 100, 0, 255))] && g.run == 1 && g.last == A
  {
    RlePixels();
    RleEncodeTwo();
  }

  lemma ChunkBytes(c: Chunk)
    requires WellFormed(c)
    ensures Serialize(ChunksOf([Resolved(c)])) == Encode(c)
  {
    assert ChunksOf([Resolved(c)]) == [c];
    SerializeRaw(c, c);
  }

  /** As one segment: the raw pixel, then a run of three (0xC2). */
  lemma RleSingleSegment(img: seq<byte>)
    requires img == RLE_IMAGE
    ensures EncodeSegments(img, 3, 1) == Written(RGB_A + [0xC2] + END_MARKER, None)
  {
    OneSegment(img, 3);
    RleWhole();
    ChunkBytes(Rgb(100, 100, 0, 255));
    var g := SegmentChunks(RLE_IMAGE, 3).1;
    assert Drain(g) == Some(Resolved(Run(2)));
  }

  lemma RleStitch()
    ensures var (out, g) := SegmentChunks(RLE_HALF, 3);
            var (w, g1) := StitchSegment(g, out, g, 3);
            w == Written([0xC1], None) && Drained(g1) == []
  {
    RleHalf();
    var (out, g) := SegmentChunks(RLE_HALF, 3);
    assert LookupChunk(New(), out[0].chunk) == A;
    var (temp, chunks1) := ProcessPixel(g, A, 3);
    assert temp.run == 2 && chunks1 == [];
    assert RunChunks(2) == [Run(1)];
    SerializeRaw(Run(1), Run(1));
  }

  /** As the source's two segments: the second segment's pixels continue
      the first one's run, which is written as a run of two (0xC1) while
      the merged state still holds a pending run of one, which the drain
      drops. */
  lemma RleTwoSegments(img: seq<byte>)
    requires img == RLE_IMAGE
    ensures EncodeSegments(img, 3, 2) == Written(RGB_A + [0xC1] + END_MARKER, None)
  {
    TwoSegments(img, RLE_HALF, RLE_HALF, 3);
    RleHalf();
    ChunkBytes(Rgb(100, 100, 0, 255));
    RleStitch();
    assert RGB_A + [0xC1] + [] == RGB_A + [0xC1];
  }

  lemma RleOutcomesDiffer(w: Written, v: Written)
    requires w == Written(RGB_A + [0xC1] + END_MARKER, None)
    requires v == Written(RGB_A + [0xC2] + END_MARKER, None)
    ensures w != v
  {
    DifferAt(w, v, 4);
  }

  /** test_rle_rgb: the split encoding differs from the single-segment one. */
  lemma RleSplitDiffers()
    ensures EncodeSegments(RLE_IMAGE, 3, 2) != EncodeSegments(RLE_IMAGE, 3, 1)
  {
    RleTwoSegments(RLE_IMAGE);
    RleSingleSegment(RLE_IMAGE);
    RleOutcomesDiffer(EncodeSegments(RLE_IMAGE, 3, 2), EncodeSegments(RLE_IMAGE, 3, 1));
  }

  // test_indexing: two pixels, then the same two again.

  const AB: seq<byte> := [100, 100, 0, 150, 100, 0]
  const ABAB: seq<byte> := AB + AB

  lemma IndexPixels()
    ensures PixelsOf(AB, 3) == [A, B]
    ensures PixelsOf(ABAB, 3) == [A, B, A, B]
  {
  }

  lemma MissAB()
    ensures MissChunk(DEFAULT_PIXEL, A, 3) == Rgb(100, 100, 0, 255)
    ensures MissChunk(A, B, 3) == Rgb(150, 100, 0, 255)
  {
    assert TryDiff(DEFAULT_PIXEL, A).None? && TryLuma(DEFAULT_PIXEL, A).None?;
    assert TryDiff(A, B).None? && TryLuma(A, B).None?;
  }

  lemma EncodeA()
    ensures var (s, out) := EncodePixels(New(), [A], 3);
            out == [Resolved(Rgb(100, 100, 0, 255))] && s.run == 0 && s.last == A
            && s.cache == New().cache[21 := A]
  {
    Hashes();
    EncodePixelsSnoc(New(), [], A, 3);
    assert [] + [A] == [A];
  }

  /** Both pixels are new: two raw chunks, each stored in its slot. */
  lemma EncodeAB()
    ensures var (s, out) := EncodePixels(New(), [A, B], 3);
            out == [Resolved(Rgb(100, 100, 0, 255)), Resolved(Rgb(150, 100, 0, 255))]
            && s.run == 0 && s.last == B && s.cache == New().cache[21 := A][43 := B]
  {
    Hashes();
    MissAB();
    EncodeA();
    assert New().cache[43] == ZERO_PIXEL;
    EncodePixelsSnoc(New(), [A], B, 3);
    assert [A] + [B] == [A, B];
  }

  /** A pixel found in the cache with no run pending: one index chunk, and
      only the last pixel changes. */
  lemma HitStep(s: State, p: Pixel)
    requires Valid(s) && s.run == 0 && p != s.last && s.cache[Hash(p)] == p
    ensures ProcessPixel(s, p, 3) == (s.(last := p), [Resolved(Index(Hash(p) as byte))])
  {
    assert s.(run := 0) == s;
    var none: seq<ChunkState> := [];
    assert none + [Resolved(Index(Hash(p) as byte))] == [Resolved(Index(Hash(p) as byte))];
  }

  /** The repeated pixels are found in the cache: index chunks 21 and 43. */
  lemma EncodeABAB()
    ensures var (s, out) := EncodePixels(New(), [A, B, A, B], 3);
            out == [Resolved(Rgb(100, 100, 0, 255)), Resolved(Rgb(150, 100, 0, 255)), Resolved(Index(21)), Resolved(Index(43))]
            && s.run == 0
  {
    Hashes();
    EncodeAB();
    var s0 := New();
    var (s2, o2) := EncodePixels(s0, [A, B], 3);
    assert s2.cache[21] == A && s2.cache[43] == B;
    HitStep(s2, A);
    EncodePixelsSnoc(s0, [A, B], A, 3);
    assert [A, B] + [A] == [A, B, A];
    HitStep(s2.(last := A), B);
    EncodePixelsSnoc(s0, [A, B, A], B, 3);
    assert [A, B, A] + [B] == [A, B, A, B];
  }

  lemma IndexHalf()
    ensures var (out, g) := SegmentChunks(AB, 3);
            out == [Resolved(Rgb(100, 100, 0, 255)), Resolved(Rgb(150, 100, 0, 255))]
            && g.run == 0 && g.last == B && g.cache == New().cache[21 := A][43 := B]
  {
    IndexPixels();
    EncodeAB();
  }

  lemma IndexHalfBytes()
    ensures Serialize(ChunksOf([Resolved(Rgb(100, 100, 0, 255)), Resolved(Rgb(150, 100, 0, 255))])) == RGB_A + RGB_B
  {
    assert ChunksOf([Resolved(Rgb(100, 100, 0, 255)), Resolved(Rgb(150, 100, 0, 255))]) == [Rgb(100, 100, 0, 255), Rgb(150, 100, 0, 255)];
    SerializeRaw(Rgb(100, 100, 0, 255), Rgb(150, 100, 0, 255));
  }

  lemma IndexWholeBytes()
    ensures Serialize(ChunksOf([Resolved(Rgb(100, 100, 0, 255)), Resolved(Rgb(150, 100, 0, 255)), Resolved(Index(21)), Resolved(Index(43))]))
            == RGB_A + RGB_B + [21, 43]
  {
    var cs := [Rgb(100, 100, 0, 255), Rgb(150, 100, 0, 255), Index(21), Index(43)];
    assert ChunksOf([Resolved(Rgb(100, 100, 0, 255)), Resolved(Rgb(150, 100, 0, 255)), Resolved(Index(21)), Resolved(Index(43))]) == cs;
    SerializeRaw(cs[0], cs[1]);
    assert cs[..2] == [cs[0], cs[1]];
    assert cs[..3][..2] == cs[..2] && cs[..3] == cs[..2] + [cs[2]];
    assert Serialize(cs[..3]) == RGB_A + RGB_B + [21];
    assert cs[..3] == cs[..|cs| - 1];
  }

  /** As one segment: two raw chunks, then index chunks 21 and 43. */
  lemma IndexSingleSegment(img: seq<byte>)
    requires img == ABAB
    ensures EncodeSegments(img, 3, 1) == Written(RGB_A + RGB_B + [21, 43] + END_MARKER, None)
  {
    OneSegment(img, 3);
    IndexPixels();
    EncodeABAB();
    IndexWholeBytes();
  }

  /** The second segment, stitched: its first pixel becomes index chunk 21
      against the global cache, but its second chunk was resolved locally
      and stays a raw chunk. */
  lemma IndexStitch(out: seq<ChunkState>, g: State)
    requires Valid(g) && g.run == 0 && g.last == B && g.cache[21] == A && g.cache[43] == B
    requires out == [Resolved(Rgb(100, 100, 0, 255)), Resolved(Rgb(150, 100, 0, 255))]
    ensures var (w, g1) := StitchSegment(g, out, g, 3);
            w == Written([21] + RGB_B, None) && Drained(g1) == []
  {
    IndexPlaced(out, g);
    var rest := [Resolved(Index(21)), Resolved(Rgb(150, 100, 0, 255))];
    assert ResolveAll(g, rest) == [Index(21), Rgb(150, 100, 0, 255)];
    SerializeRaw(Index(21), Rgb(150, 100, 0, 255));
  }

  /** A repeats nothing at the boundary and is found in the global cache:
      its index chunk takes its place, and nothing is written early. */
  lemma IndexPlaced(out: seq<ChunkState>, g: State)
    requires Valid(g) && g.run == 0 && g.last == B && g.cache[21] == A && g.cache[43] == B
    requires out == [Resolved(Rgb(100, 100, 0, 255)), Resolved(Rgb(150, 100, 0, 255))]
    ensures StitchSegment(g, out, g, 3) ==
      Finish(g, [], [Resolved(Index(21)), Resolved(Rgb(150, 100, 0, 255))], g)
  {
    Hashes();
    assert LookupChunk(New(), out[0].chunk) == A;
    var (temp, chunks1) := ProcessPixel(g, A, 3);
    assert temp.run == 0 && chunks1 == [Resolved(Index(21))];
    var rest := [Resolved(Index(21))] + out[1..];
    assert rest == [Resolved(Index(21)), Resolved(Rgb(150, 100, 0, 255))];
    var early: seq<byte> := [];
    assert early + [] == [];
  }

  lemma IndexTwoSegmentParts(img: seq<byte>, half: seq<byte>)
    requires half == AB && img == half + half
    ensures EncodeSegments(img, 3, 2) == Written(RGB_A + RGB_B + ([21] + RGB_B) + [] + END_MARKER, None)
  {
    TwoSegments(img, half, half, 3);
    IndexHalf();
    IndexHalfBytes();
    var (out, g) := SegmentChunks(half, 3);
    assert g.cache[21] == A && g.cache[43] == B;
    IndexStitch(out, g);
  }

  lemma Regroup(x: seq<byte>, y: seq<byte>, z: seq<byte>, e: seq<byte>)
    ensures x + (y + z) + [] + e == x + y + z + e
  {
  }

  /** test_indexing expects index chunks 21 and 43; the two segments as
      the source stitches them end in 21 and a raw chunk. */
  lemma IndexTwoSegments(img: seq<byte>, half: seq<byte>)
    requires half == AB && img == half + half
    ensures EncodeSegments(img, 3, 2) == Written(RGB_A + RGB_B + [21] + RGB_B + END_MARKER, None)
  {
    IndexTwoSegmentParts(img, half);
    Regroup(RGB_A + RGB_B, [21], RGB_B, END_MARKER);
  }

  lemma IndexOutcomesDiffer(w: Written, v: Written)
    requires w == Written(RGB_A + RGB_B + [21] + RGB_B + END_MARKER, None)
    requires v == Written(RGB_A + RGB_B + [21, 43] + END_MARKER, None)
    ensures w != v
  {
    DifferAt(w, v, 9);
  }

  /** test_indexing: the split encoding differs from the single-segment one. */
  lemma IndexSplitDiffers()
    ensures EncodeSegments(ABAB, 3, 2) != EncodeSegments(ABAB, 3, 1)
  {
    IndexTwoSegments(ABAB, AB);
    IndexSingleSegment(ABAB);
    IndexOutcomesDiffer(EncodeSegments(ABAB, 3, 2), EncodeSegments(ABAB, 3, 1));
  }

  // test_only_pixels_rgb: four different pixels, none a small step from
  // the one before.

  const CD: seq<byte> := [100, 150, 0, 150, 150, 0]
  const ABCD: seq<byte> := AB + CD

  lemma OnlyPixels()
    ensures PixelsOf(CD, 3) == [C, D]
    ensures PixelsOf(ABCD, 3) == [A, B, C, D]
  {
  }

  lemma MissCD()
    ensures MissChunk(B, C, 3) == Rgb(100, 150, 0, 255)
    ensures MissChunk(C, D, 3) == Rgb(150, 150, 0, 255)
  {
    assert TryDiff(B, C).None? && TryLuma(B, C).None?;
    assert TryDiff(C, D).None? && TryLuma(C, D).None?;
  }

  lemma EncodeABCD()
    ensures var (s, out) := EncodePixels(New(), [A, B, C, D], 3);
            out == [Resolved(Rgb(100, 100, 0, 255)), Resolved(Rgb(150, 100, 0, 255)),
                    Resolved(Rgb(100, 150, 0, 255)), Resolved(Rgb(150, 150, 0, 255))]
            && s.run == 0
  {
    Hashes();
    EncodeAB();
    MissCD();
    var s0 := New();
    var (s2, o2) := EncodePixels(s0, [A, B], 3);
    assert s2.cache[15] == ZERO_PIXEL;
    EncodePixelsSnoc(s0, [A, B], C, 3);
    assert [A, B] + [C] == [A, B, C];
    var (s3, o3) := EncodePixels(s0, [A, B, C], 3);
    assert o3 == o2 + [Resolved(Rgb(100, 150, 0, 255))] && s3.last == C && s3.run == 0;
    assert s3.cache == s2.cache[15 := C] && s3.cache[37] == ZERO_PIXEL;
    EncodePixelsSnoc(s0, [A, B, C], D, 3);
    assert [A, B, C] + [D] == [A, B, C, D];
  }

  lemma EncodeC()
    ensures var (s, out) := EncodePixels(New(), [C], 3);
            out == [Resolved(Rgb(100, 150, 0, 255))] && s.run == 0 && s.last == C
            && s.cache == New().cache[15 := C]
  {
    Hashes();
    EncodePixelsSnoc(New(), [], C, 3);
    assert [] + [C] == [C];
  }

  lemma EncodeCD()
    ensures var (s, out) := EncodePixels(New(), [C, D], 3);
            out == [Resolved(Rgb(100, 150, 0, 255)), Resolved(Rgb(150, 150, 0, 255))] && s.run == 0
  {
    Hashes();
    MissCD();
    EncodeC();
    assert New().cache[15 := C][37] == ZERO_PIXEL;
    EncodePixelsSnoc(New(), [C], D, 3);
    assert [C] + [D] == [C, D];
  }

  lemma OnlyPixelsBytes()
    ensures Serialize(ChunksOf([Resolved(Rgb(100, 150, 0, 255)), Resolved(Rgb(150, 150, 0, 255))])) == RGB_C + RGB_D
    ensures Serialize(ChunksOf([Resolved(Rgb(100, 100, 0, 255)), Resolved(Rgb(150, 100, 0, 255)),
                                Resolved(Rgb(100, 150, 0, 255)), Resolved(Rgb(150, 150, 0, 255))]))
            == RGB_A + RGB_B + RGB_C + RGB_D
  {
    var cs := [Rgb(100, 100, 0, 255), Rgb(150, 100, 0, 255), Rgb(100, 150, 0, 255), Rgb(150, 150, 0, 255)];
    assert ChunksOf([Resolved(cs[2]), Resolved(cs[3])]) == [cs[2], cs[3]];
    SerializeRaw(cs[2], cs[3]);
    assert ChunksOf([Resolved(cs[0]), Resolved(cs[1]), Resolved(cs[2]), Resolved(cs[3])]) == cs;
    SerializeRaw(cs[0], cs[1]);
    assert cs[..2] == [cs[0], cs[1]];
    assert cs[..3][..2] == cs[..2] && cs[..3] == cs[..2] + [cs[2]];
    assert Serialize(cs[..3]) == RGB_A + RGB_B + RGB_C;
    assert cs[..3] == cs[..|cs| - 1];
  }

  lemma OnlyPixelsSingleSegment(img: seq<byte>)
    requires img == ABCD
    ensures EncodeSegments(img, 3, 1) == Written(RGB_A + RGB_B + RGB_C + RGB_D + [] + END_MARKER, None)
  {
    OneSegment(img, 3);
    OnlyPixels();
    EncodeABCD();
    OnlyPixelsBytes();
  }

  /** The second segment's first pixel is not in the global cache either,
      so the stitched chunks are the raw chunks the test expects. */
  lemma OnlyPixelsStitch(out: seq<ChunkState>, s: State, g: State)
    requires Valid(g) && g.run == 0 && g.last == B && g.cache == New().cache[21 := A][43 := B]
    requires Valid(s) && s.run == 0
    requires out == [Resolved(Rgb(100, 150, 0, 255)), Resolved(Rgb(150, 150, 0, 255))]
    ensures var (w, g1) := StitchSegment(g, out, s, 3);
            w == Written(RGB_C + RGB_D, None) && Drained(g1) == []
  {
    Hashes();
    MissCD();
    assert LookupChunk(New(), out[0].chunk) == C;
    assert g.cache[15] == ZERO_PIXEL;
    var (temp, chunks1) := ProcessPixel(g, C, 3);
    assert temp.run == 0 && chunks1 == [Resolved(Rgb(100, 150, 0, 255))];
    var rest := [chunks1[0]] + out[1..];
    assert rest == out;
    assert ResolveAll(g, rest) == [Rgb(100, 150, 0, 255), Rgb(150, 150, 0, 255)];
    SerializeRaw(Rgb(100, 150, 0, 255), Rgb(150, 150, 0, 255));
  }

  lemma OnlyPixelsTwoSegmentParts(img: seq<byte>, first: seq<byte>, second: seq<byte>)
    requires first == AB && second == CD && img == first + second
    ensures EncodeSegments(img, 3, 2) == Written(RGB_A + RGB_B + (RGB_C + RGB_D) + [] + END_MARKER, None)
  {
    TwoSegments(img, first, second, 3);
    IndexHalf();
    IndexHalfBytes();
    OnlyPixels();
    EncodeCD();
    OnlyPixelsBytes();
    var (out0, g) := SegmentChunks(first, 3);
    var (out1, s) := SegmentChunks(second, 3);
    OnlyPixelsStitch(out1, s, g);
  }

  /** test_only_pixels_rgb: here the two segments agree with one. */
  lemma OnlyPixelsSplitAgrees()
    ensures EncodeSegments(ABCD, 3, 2) == EncodeSegments(ABCD, 3, 1)
  {
    OnlyPixelsTwoSegmentParts(ABCD, AB, CD);
    OnlyPixelsSingleSegment(ABCD);
    Regroup(RGB_A + RGB_B, RGB_C, RGB_D, END_MARKER);
  }
}

/** The decoding test of lib.rs: an RGB chunk followed by a run of three. */
module DecodeVectors {
  import opened Pixels
  import opened Chunks
  import opened Decoder

  const RLE_STREAM: seq<byte> := [254, 100, 100, 0, 0xC2]

  const RLE_PIXEL := Pixel(100, 100, 0, 255)

  /** The reader after the RGB chunk and the RUN chunk of RLE_STREAM:
      the run chunk has yielded its first pixel and owes two more. */
  function AfterRunChunk(): (r: ReaderState)
    ensures ReaderValid(r) && r.last == RLE_PIXEL && r.run == 2
  {
    var c := Fresh().cache[Hash(RLE_PIXEL) := RLE_PIXEL];
    ReaderState(RLE_PIXEL, c[Hash(RLE_PIXEL) := RLE_PIXEL], 2)
  }

  /** The first two pixels of test_rle_decoding: one from the RGB chunk,
      one from the RUN chunk, and both chunks are consumed. */
  lemma RleOpening()
    ensures ReadPixels(Fresh(), RLE_STREAM, 2) == Ok((AfterRunChunk(), [], [RLE_PIXEL, RLE_PIXEL]))
  {
    var a := RLE_PIXEL;
    var r0 := Fresh();
    assert ParseChunk(RLE_STREAM, r0.last) == Ok((Rgb(100, 100, 0, 255), 4));
    assert ChunkPixel(r0, Rgb(100, 100, 0, 255)) == a;
    assert RLE_STREAM[4..] == [0xC2];
    var r1 := ReaderState(a, r0.cache[Hash(a) := a], 0);
    assert ReadStep(r0, RLE_STREAM) == Ok((r1, [0xC2], a));
    assert ReadPixels(r0, RLE_STREAM, 0) == Ok((r0, RLE_STREAM, []));
    assert [] + [a] == [a];
    assert ReadPixels(r0, RLE_STREAM, 1) == Ok((r1, [0xC2], [a]));
    assert ParseChunk([0xC2], a) == Ok((Run(2), 1));
    assert ReadStep(r1, [0xC2]) == Ok((AfterRunChunk(), [], a));
    assert [a] + [a] == [a, a];
  }

  /** Four copies of the pixel, flattened to 3 channels. */
  lemma RleBytes(ps: seq<Pixel>)
    requires ps == [RLE_PIXEL, RLE_PIXEL, RLE_PIXEL, RLE_PIXEL]
    ensures Flatten(ps, 3) == [100, 100, 0, 100, 100, 0, 100, 100, 0, 100, 100, 0]
  {
    var p := RLE_PIXEL;
    assert PixelBytes(p, 3) == [100, 100, 0];
    assert [p][..0] == [];
    assert Flatten([p], 3) == [100, 100, 0];
    assert [p, p][..1] == [p];
    assert Flatten([p, p], 3) == [100, 100, 0, 100, 100, 0];
    assert [p, p, p][..2] == [p, p];
    assert Flatten([p, p, p], 3) == [100, 100, 0, 100, 100, 0, 100, 100, 0];
    assert ps[..3] == [p, p, p];
  }

  /** test_rle_decoding: four pixels (100, 100, 0) come out, the last
      three from the run, and the whole stream is consumed. */
  lemma RleDecoding()
    ensures ReadPixels(Fresh(), RLE_STREAM, 4)
            == Ok((AfterRunChunk().(run := 0), [], [RLE_PIXEL, RLE_PIXEL, RLE_PIXEL, RLE_PIXEL]))
    ensures Flatten([RLE_PIXEL, RLE_PIXEL, RLE_PIXEL, RLE_PIXEL], 3)
            == [100, 100, 0, 100, 100, 0, 100, 100, 0, 100, 100, 0]
  {
    var a := RLE_PIXEL;
    RleOpening();
    ReadPixelsAdd(Fresh(), RLE_STREAM, 2, 2);
    Countdown(AfterRunChunk(), [], 2);
    assert Copies(a, 2) == [a, a];
    assert [a, a] + Copies(a, 2) == [a, a, a, a];
    RleBytes([a, a, a, a]);
  }
}

/** A run of one pixel left pending at the end: `encode` with one segment
    of the image (100,100,0), (100,100,0) writes only the raw pixel, and the
    reader, asked for two pixels, takes the end marker's first zero byte
    as INDEX 0 and yields the cache's initial (0,0,0,0) as the second. The
    corrected drain writes the run and reads back. */
module DrainVectors {
  import opened Pixels
  import opened Chunks
  import opened Codec
  import opened Encoder
  import opened Decoder
  import Vectors
  import RoundTrip

  /** The bytes, as written: the raw pixel and the end marker. */
  lemma LoneRepeatEncoded()
    ensures EncodeSegments(Vectors.RLE_HALF, 3, 1) == Written(Vectors.RGB_A + END_MARKER, None)
  {
    OneSegment(Vectors.RLE_HALF, 3);
    Vectors.RleHalf();
    Vectors.ChunkBytes(Rgb(100, 100, 0, 255));
    assert Vectors.RGB_A + [] + END_MARKER == Vectors.RGB_A + END_MARKER;
  }

  /** Reading two pixels from those bytes. */
  lemma LoneRepeatRead()
    ensures var res := ReadPixels(Fresh(), Vectors.RGB_A + END_MARKER, 2);
            res.Ok? && res.value.2 == [Vectors.A, ZERO_PIXEL]
  {
    var a, input := Vectors.A, Vectors.RGB_A + END_MARKER;
    var r0 := Fresh();
    assert ParseChunk(input, r0.last) == Ok((Rgb(100, 100, 0, 255), 4));
    assert input[4..] == END_MARKER;
    var r1 := ReaderState(a, r0.cache[Hash(a) := a], 0);
    assert ReadStep(r0, input) == Ok((r1, END_MARKER, a));
    RoundTrip.ReadOne(r0, input);
    assert ParseChunk(END_MARKER, a) == Ok((Index(0), 1));
    Vectors.Hashes();
    assert r1.cache[0] == ZERO_PIXEL;
    assert ReadStep(r1, END_MARKER).value.2 == ZERO_PIXEL;
    RoundTrip.ReadOne(r1, END_MARKER);
    var (r2, input2, p) := ReadStep(r1, END_MARKER).value;
    RoundTrip.ReadThen(r0, input, 1, 1, r1, END_MARKER, [a], r2, input2, [p]);
  }

  /** The single-segment encoding of the two equal pixels does not read
      back: the second pixel comes out as (0,0,0,0). */
  lemma LoneRepeatLost()
    ensures var res := ReadPixels(Fresh(), EncodeSegments(Vectors.RLE_HALF, 3, 1).bytes, 2);
            res.Ok? && res.value.2 == [Vectors.A, ZERO_PIXEL] && res.value.2 != PixelsOf(Vectors.RLE_HALF, 3)
  {
    LoneRepeatEncoded();
    LoneRepeatRead();
    Vectors.RlePixels();
  }

  /** With the corrected drain the same pixels read back. */
  lemma LoneRepeatFixed()
    ensures var res := ReadPixels(Fresh(), RoundTrip.EncodeFixed(PixelsOf(Vectors.RLE_HALF, 3), 3), 2);
            res.Ok? && res.value.2 == PixelsOf(Vectors.RLE_HALF, 3)
  {
    Vectors.RlePixels();
    RoundTrip.PixelsRoundTrip([Vectors.A, Vectors.A], 3);
  }
}
