/** The encoder of encoder.rs: `to_chunks` encodes one segment of the pixel
    buffer from a fresh codec state, and `encode` writes the header, cuts the
    buffer into segments, stitches the segments' chunk lists together
    against one global state, drains it and writes the end marker.

    The functions give the bytes the source writes, as written, including
    where it panics; the class QoiEncoder writes them to its sink step by
    step and is proved to write exactly those bytes. */
module Encoder {
  import opened Consts
  import opened Pixels
  import opened Chunks
  import opened Codec
  import opened CodecState

  /** The places where `encode` panics. */
  datatype Fault =
    | ZeroSegmentSize    // buf.chunks(0): the buffer has fewer bytes than segments
    | PartialPixel       // a segment ends inside a pixel: chunk[i] is out of bounds
    | EmptyChunkList     // chunks[0] of a later segment that produced no chunk
    | RunsExhaustChunks  // chunks[0] after the run loop consumed every chunk

  /** The bytes written to the sink, and the panic that stopped the writing, if any. */
  datatype Written = Written(bytes: seq<byte>, panic: Option<Fault>)

  const MAGIC: seq<byte> := [0x71, 0x6F, 0x69, 0x66]   // "qoif"
  const END_MARKER: seq<byte> := [0, 0, 0, 0, 0, 0, 0, 1]
  const U32_LIMIT: nat := 0x1_0000_0000

  /** `to_be_bytes` of a u32. */
  function BigEndian(x: nat): (bs: seq<byte>)
    requires x < U32_LIMIT
    ensures |bs| == 4
  {
    [(x / 0x100_0000) as byte, ((x / 0x1_0000) % 256) as byte, ((x / 0x100) % 256) as byte, (x % 256) as byte]
  }

  /** The 14 header bytes: magic, width and height big-endian, channel
      count, colour space. */
  function Header(width: nat, height: nat, channels: byte, colorSpace: byte): (h: seq<byte>)
    requires width < U32_LIMIT && height < U32_LIMIT
    ensures |h| == 14 && h[..4] == MAGIC && h[12] == channels && h[13] == colorSpace
  {
    MAGIC + BigEndian(width) + BigEndian(height) + [channels, colorSpace]
  }

  /** The bytes of a list of chunks, in order. */
  function Serialize(cs: seq<Chunk>): (bs: seq<byte>)
    requires forall c | c in cs :: WellFormed(c)
  {
    if cs == [] then [] else Serialize(cs[..|cs| - 1]) + Encode(cs[|cs| - 1])
  }

  predicate AllWellFormed(states: seq<ChunkState>) {
    forall cs | cs in states :: WellFormed(cs.chunk)
  }

  /** `get_chunk` of every entry. */
  function ChunksOf(states: seq<ChunkState>): (cs: seq<Chunk>)
    ensures |cs| == |states| && forall i | 0 <= i < |cs| :: cs[i] == states[i].chunk
  {
    if states == [] then [] else ChunksOf(states[..|states| - 1]) + [states[|states| - 1].chunk]
  }

  /** The pixels of an interleaved buffer, alpha 255 in a 3-channel one. */
  function PixelAt(buf: seq<byte>, i: nat, channels: nat): Pixel
    requires channels == RGB_CHANNELS || channels == RGBA_CHANNELS
    requires (i + 1) * channels <= |buf|
  {
    var k := i * channels;
    if channels == RGB_CHANNELS then Pixel(buf[k], buf[k + 1], buf[k + 2], 255)
    else Pixel(buf[k], buf[k + 1], buf[k + 2], buf[k + 3])
  }

  function PixelsOf(buf: seq<byte>, channels: nat): (ps: seq<Pixel>)
    requires channels == RGB_CHANNELS || channels == RGBA_CHANNELS
    requires |buf| % channels == 0
    ensures |ps| == |buf| / channels
    ensures forall i | 0 <= i < |ps| :: ps[i] == PixelAt(buf, i, channels)
  {
    seq(|buf| / channels, i requires 0 <= i < |buf| / channels => PixelAt(buf, i, channels))
  }

  /** Encoding pixels one after another, collecting every chunk. */
  function EncodePixels(s: State, ps: seq<Pixel>, channels: nat): (res: (State, seq<ChunkState>))
    requires Valid(s)
    ensures Valid(res.0) && AllWellFormed(res.1)
    ensures forall cs | cs in res.1 :: cs.Resolved?
  {
    if ps == [] then (s, [])
    else
      var (s1, out1) := EncodePixels(s, ps[..|ps| - 1], channels);
      var (s2, out2) := ProcessPixel(s1, ps[|ps| - 1], channels);
      (s2, out1 + out2)
  }

  /** Encoding one more pixel continues from the state the prefix left. */
  lemma EncodePixelsSnoc(s: State, ps: seq<Pixel>, p: Pixel, channels: nat)
    requires Valid(s)
    ensures var (s1, out1) := EncodePixels(s, ps, channels);
            var (s2, out2) := ProcessPixel(s1, p, channels);
            EncodePixels(s, ps + [p], channels) == (s2, out1 + out2)
  {
    assert (ps + [p])[..|ps|] == ps;
  }

  /** Encoding pixel i after the first i continues from where they left off. */
  lemma EncodeStep(ps: seq<Pixel>, i: nat, channels: nat, s1: State, out1: seq<ChunkState>)
    requires i < |ps| && EncodePixels(New(), ps[..i], channels) == (s1, out1)
    ensures EncodePixels(New(), ps[..i + 1], channels) ==
      (ProcessPixel(s1, ps[i], channels).0, out1 + ProcessPixel(s1, ps[i], channels).1)
  {
    EncodePixelsSnoc(New(), ps[..i], ps[i], channels);
    TakeOneMore(ps, i);
  }

  /** `to_chunks`: a segment encoded from a fresh state. */
  function SegmentChunks(seg: seq<byte>, channels: nat): (res: (seq<ChunkState>, State))
    requires channels == RGB_CHANNELS || channels == RGBA_CHANNELS
    requires |seg| % channels == 0
    ensures Valid(res.1) && AllWellFormed(res.0)
  {
    var (s, out) := EncodePixels(New(), PixelsOf(seg, channels), channels);
    (out, s)
  }

  /** The first chunk of a segment, decoded from a fresh state, is the
      segment's first pixel: the fix-up of a later segment relies on this
      to recover that pixel. */
  lemma FirstChunkDecodes(seg: seq<byte>, channels: nat)
    requires channels == RGB_CHANNELS || channels == RGBA_CHANNELS
    requires |seg| % channels == 0
    requires |SegmentChunks(seg, channels).0| > 0
    ensures LookupChunk(New(), SegmentChunks(seg, channels).0[0].chunk) == PixelsOf(seg, channels)[0]
  {
    FirstChunkOf(PixelsOf(seg, channels), channels);
  }

  /** Over any non-empty run of pixels from a fresh state: the first chunk
      decodes to the first pixel, and while no chunk has come out the
      pixels so far are all the default pixel, held as a pending run. */
  lemma {:induction false} FirstChunkOf(ps: seq<Pixel>, channels: nat)
    requires |ps| > 0
    ensures var (st, out) := EncodePixels(New(), ps, channels);
      && (|out| > 0 ==> LookupChunk(New(), out[0].chunk) == ps[0])
      && (|out| == 0 ==> ps[0] == DEFAULT_PIXEL && st.last == DEFAULT_PIXEL && st.run > 0)
  {
    var pre := ps[..|ps| - 1];
    var p := ps[|ps| - 1];
    assert ps == pre + [p];
    EncodePixelsSnoc(New(), pre, p, channels);
    if |pre| == 0 {
      assert EncodePixels(New(), pre, channels) == (New(), []);
      if p != DEFAULT_PIXEL {
        LookupInvertsProcess(New(), p, channels);
      }
    } else {
      FirstChunkOf(pre, channels);
      var (st, out) := EncodePixels(New(), pre, channels);
      if |out| == 0 {
        if !(p == st.last && st.run < MAX_RUN_LENGTH) {
          PendingRunClosesFirst(st, p, channels);
        }
      }
    }
  }

  /** `buf.chunks(size)`: consecutive pieces of `size` bytes, the last one
      possibly shorter. */
  function Segments(buf: seq<byte>, size: nat): (segs: seq<seq<byte>>)
    requires size > 0
    ensures |buf| > 0 ==> |segs| > 0
    ensures forall seg | seg in segs :: 0 < |seg| <= size
    ensures forall i | 0 <= i < |segs| - 1 :: |segs[i]| == size
    ensures Concat(segs) == buf
    decreases |buf|
  {
    if |buf| == 0 then []
    else if |buf| <= size then
      assert Concat([buf]) == buf + Concat([]);
      [buf]
    else
      var segs := [buf[..size]] + Segments(buf[size..], size);
      assert segs[1..] == Segments(buf[size..], size);
      assert buf == buf[..size] + buf[size..];
      segs
  }

  /** The pieces written one after another. */
  function Concat(segs: seq<seq<byte>>): seq<byte>
    decreases |segs|
  {
    if segs == [] then [] else segs[0] + Concat(segs[1..])
  }

  /** The run chunks that re-split a run: full runs of MAX_RUN_LENGTH while
      more remains, then the remainder. */
  function RunChunks(n: nat): (cs: seq<Chunk>)
    ensures forall c | c in cs :: c.Run? && WellFormed(c)
    decreases n
  {
    if n > MAX_RUN_LENGTH then [RunOf(MAX_RUN_LENGTH)] + RunChunks(n - MAX_RUN_LENGTH)
    else if n > 0 then [RunOf(n)]
    else []
  }

  /** The leading resolved run chunks summed onto `acc` and consumed; the
      loop reads `chunks[0]` until it finds something else, and panics if it
      consumes everything. */
  function LeadingRuns(acc: nat, chunks: seq<ChunkState>): (res: Option<(nat, seq<ChunkState>)>)
    ensures res.Some? ==> |res.value.1| > 0 && !(res.value.1[0].Resolved? && res.value.1[0].chunk.Run?)
    ensures res.Some? && AllWellFormed(chunks) ==> AllWellFormed(res.value.1)
    decreases |chunks|
  {
    if |chunks| == 0 then None
    else if chunks[0].Resolved? && chunks[0].chunk.Run? then LeadingRuns(acc + RunLength(chunks[0].chunk), chunks[1..])
    else Some((acc, chunks))
  }

  /** The chunk written for an entry: resolved ones as they are, unresolved
      ones as the global cache's index chunk if it holds the pixel. */
  function ResolveChunk(g: State, cs: ChunkState): (c: Chunk)
    requires Valid(g) && WellFormed(cs.chunk)
    ensures WellFormed(c)
  {
    match cs
    case Resolved(c) => c
    case Unresolved(c, p) =>
      match LookupPixel(g, p)
      case Some(i) => i
      case None => c
  }

  function ResolveAll(g: State, states: seq<ChunkState>): (cs: seq<Chunk>)
    requires Valid(g) && AllWellFormed(states)
    ensures |cs| == |states| && forall i | 0 <= i < |cs| :: cs[i] == ResolveChunk(g, states[i])
    ensures forall c | c in cs :: WellFormed(c)
  {
    if states == [] then [] else ResolveAll(g, states[..|states| - 1]) + [ResolveChunk(g, states[|states| - 1])]
  }

  /** Everything after the boundary fix-up of a later segment: the
      remaining entries resolved against the global state, then the merge. */
  function Finish(g: State, written: seq<byte>, remaining: seq<ChunkState>, s: State): (Written, State)
    requires Valid(g) && Valid(s) && AllWellFormed(remaining)
  {
    (Written(written + Serialize(ResolveAll(g, remaining)), None), Merge(g, s))
  }

  /** encoder.rs:71-92: the first chunk's pixel (decoded from a fresh
      state) pushed through a copy of the global state. Gives the bytes the
      hack writes early, the copy's run length and the chunks left to
      place: none when the pixel extends the global run. */
  function Boundary(g: State, first: Chunk, channels: nat): (res: (seq<byte>, nat, seq<ChunkState>))
    requires Valid(g) && WellFormed(first)
    ensures res.1 <= MAX_RUN_LENGTH && |res.2| <= 2
    ensures forall cs | cs in res.2 :: WellFormed(cs.chunk)
    ensures |res.0| > 0 ==> res.2 == []
    ensures var p := LookupChunk(New(), first);
      && (p == g.last && g.run < MAX_RUN_LENGTH ==> res == ([], g.run + 1, []))
      && (p == g.last && g.run == MAX_RUN_LENGTH ==> res == (Encode(RunOf(MAX_RUN_LENGTH)), 1, []))
      && (p != g.last ==> res.0 == [] && res.1 == 0 && |res.2| == (if g.run > 0 then 2 else 1)
                          && res.2 == ProcessPixel(g, p, channels).1)
  {
    var pixel := LookupChunk(New(), first);
    var (temp, chunks1) := ProcessPixel(g, pixel, channels);
    if temp.run > 0 && |chunks1| == 1 then (Encode(chunks1[0].chunk), temp.run, [])
    else ([], temp.run, chunks1)
  }

  /** encoder.rs:95-117, the split inside a run: the leading run chunks of
      the rest summed onto the run and written re-split, and what remains;
      None where the loop runs off the end of the list. */
  function RunFixUp(run: nat, rest: seq<ChunkState>): (res: Option<(seq<byte>, seq<ChunkState>)>)
  {
    if |rest| == 0 then Some((Serialize(RunChunks(run)), []))
    else
      match LeadingRuns(run, rest)
      case None => None
      case Some((total, remaining)) => Some((Serialize(RunChunks(total)), remaining))
  }

  /** encoder.rs:94-131: what the fix-up writes after the early bytes and
      the entries left to write, given the rest of the segment's chunks:
      with no chunk to place the run is continued, one chunk takes the
      first entry's place, and of two the first (the ended run) is written
      and the second takes the place. None where the run loop panics. */
  function Placed(run: nat, replacements: seq<ChunkState>, rest: seq<ChunkState>): (res: Option<(seq<byte>, seq<ChunkState>)>)
    requires |replacements| <= 2 && forall cs | cs in replacements :: WellFormed(cs.chunk)
    requires AllWellFormed(rest)
    ensures res.Some? ==> AllWellFormed(res.value.1)
  {
    if |replacements| == 0 then RunFixUp(run, rest)
    else if |replacements| == 1 then Some(([], [replacements[0]] + rest))
    else Some((Encode(replacements[0].chunk), [replacements[1]] + rest))
  }

  /** encoder.rs:69-145: one later segment stitched onto the global state. */
  function StitchSegment(g: State, chunks: seq<ChunkState>, s: State, channels: nat): (res: (Written, State))
    requires Valid(g) && Valid(s) && AllWellFormed(chunks)
    ensures Valid(res.1) && res.0.panic != Some(ZeroSegmentSize)
  {
    if |chunks| == 0 then (Written([], Some(EmptyChunkList)), g)
    else
      var (early, run, replacements) := Boundary(g, chunks[0].chunk, channels);
      match Placed(run, replacements, chunks[1..])
      case None => (Written(early, Some(RunsExhaustChunks)), g)
      case Some((bytes, remaining)) => Finish(g, early + bytes, remaining, s)
  }

  /** One later segment: encoded from a fresh state and stitched on, or a
      panic where it ends inside a pixel. */
  function StitchOne(g: State, seg: seq<byte>, channels: nat): (res: (Written, State))
    requires channels == RGB_CHANNELS || channels == RGBA_CHANNELS
    requires Valid(g)
    ensures Valid(res.1) && res.0.panic != Some(ZeroSegmentSize)
  {
    if |seg| % channels != 0 then (Written([], Some(PartialPixel)), g)
    else
      var (chunks, s) := SegmentChunks(seg, channels);
      StitchSegment(g, chunks, s, channels)
  }

  /** The loop over the later segments, stopping at the first panic. */
  function StitchAll(g: State, segs: seq<seq<byte>>, channels: nat): (res: (Written, State))
    requires channels == RGB_CHANNELS || channels == RGBA_CHANNELS
    requires Valid(g)
    ensures Valid(res.1) && res.0.panic != Some(ZeroSegmentSize)
    decreases |segs|
  {
    if segs == [] then (Written([], None), g)
    else
      var (w, g1) := StitchOne(g, segs[0], channels);
      if w.panic.Some? then (w, g1)
      else
        var (w2, g2) := StitchAll(g1, segs[1..], channels);
        (Written(w.bytes + w2.bytes, w2.panic), g2)
  }

  /** One iteration of the loop over the later segments, with `done` the
      bytes written so far and `whole` the result of the entire loop. */
  lemma LoopStep(whole: (Written, State), start: seq<byte>, done: seq<byte>, mid: seq<byte>, w: seq<byte>,
                 g: State, g1: State, segs: seq<seq<byte>>, k: nat, panic: Option<Fault>, channels: nat)
    returns (done': seq<byte>)
    requires channels == RGB_CHANNELS || channels == RGBA_CHANNELS
    requires Valid(g) && Valid(g1) && k < |segs|
    requires mid == start + done && |w| >= |mid| && w[..|mid|] == mid
    requires whole == Prepend(done, StitchAll(g, segs[k..], channels))
    requires StitchAll(g, [segs[k]] + segs[k + 1..], channels) ==
               if panic.Some? then (Written(w[|mid|..], panic), g1)
               else Prepend(w[|mid|..], StitchAll(g1, segs[k + 1..], channels))
    ensures w == start + done'
    ensures panic.None? ==> whole == Prepend(done', StitchAll(g1, segs[k + 1..], channels))
    ensures panic.Some? ==> whole == (Written(done', panic), g1)
  {
    var bytes := w[|mid|..];
    SplitAt(w, |mid|);
    Associative(start, done, bytes);
    done' := done + bytes;
    assert segs[k..] == [segs[k]] + segs[k + 1..];
    PrependTwice(done, bytes, StitchAll(g1, segs[k + 1..], channels));
  }

  /** Bytes written before a later result. */
  function Prepend(done: seq<byte>, r: (Written, State)): (Written, State)
  {
    (Written(done + r.0.bytes, r.0.panic), r.1)
  }

  lemma PrependEmpty(r: (Written, State))
    ensures Prepend([], r) == r
  {
    assert [] + r.0.bytes == r.0.bytes;
  }

  lemma PrependTwice(a: seq<byte>, b: seq<byte>, r: (Written, State))
    ensures Prepend(a, Prepend(b, r)) == Prepend(a + b, r)
  {
    assert a + (b + r.0.bytes) == a + b + r.0.bytes;
  }

  lemma PrependNothing(a: seq<byte>, g: State)
    ensures Prepend(a, (Written([], None), g)) == (Written(a, None), g)
  {
    assert a + [] == a;
  }

  /** The trailing run, if drain yields one. */
  function Drained(g: State): seq<byte>
    requires Valid(g)
  {
    match Drain(g)
    case Some(cs) => Encode(cs.chunk)
    case None => []
  }

  /** `encode` with `splits` segments (the source fixes `splits` at 2):
      the chunks of every segment, the drained run and the end marker. */
  function EncodeSegments(buf: seq<byte>, channels: nat, splits: nat): (w: Written)
    requires channels == RGB_CHANNELS || channels == RGBA_CHANNELS
    requires splits > 0
    ensures w.panic.None? ==> |w.bytes| >= 8 && w.bytes[|w.bytes| - 8..] == END_MARKER
    ensures w.panic == Some(ZeroSegmentSize) <==> |buf| < splits
  {
    var size := |buf| / splits;
    QuotientZero(|buf|, splits);
    if size == 0 then Written([], Some(ZeroSegmentSize))
    else
      var segs := Segments(buf, size);
      if |segs[0]| % channels != 0 then Written([], Some(PartialPixel))
      else
        var (chunks, g) := SegmentChunks(segs[0], channels);
        var first := Serialize(ChunksOf(chunks));
        var (w, g1) := StitchAll(g, segs[1..], channels);
        if w.panic.Some? then Written(first + w.bytes, w.panic)
        else
          var body := first + w.bytes + Drained(g1);
          assert (body + END_MARKER)[|body|..] == END_MARKER;
          Written(body + END_MARKER, None)
  }

  /** A quotient is zero exactly when the dividend is below the divisor. */
  lemma QuotientZero(a: nat, b: nat)
    requires b > 0
    ensures a / b == 0 <==> a < b
  {
    var q, r := a / b, a % b;
    assert a == b * q + r && r < b;
    if q > 0 {
      assert b * q == b + b * (q - 1);
    }
  }

  /** With two segments, an image of an odd number of pixels is cut inside
      a pixel: half its bytes are not a whole number of pixels, so the
      first segment panics. */
  lemma OddPixelsPanic(buf: seq<byte>, channels: nat)
    requires channels == RGB_CHANNELS || channels == RGBA_CHANNELS
    requires |buf| % channels == 0 && (|buf| / channels) % 2 == 1
    ensures EncodeSegments(buf, channels, 2).panic == Some(PartialPixel)
  {
    HalfSplitsPixel(|buf|, channels);
    assert |Segments(buf, |buf| / 2)[0]| == |buf| / 2;
  }

  /** Half of an odd number of pixels is not a whole number of pixels. */
  lemma HalfSplitsPixel(len: nat, channels: nat)
    requires channels == RGB_CHANNELS || channels == RGBA_CHANNELS
    requires len % channels == 0 && (len / channels) % 2 == 1
    ensures 0 < len / 2 < len && (len / 2) % channels != 0
  {
    var n := len / channels;
    var m := n / 2;
    assert n == 2 * m + 1;
    if channels == RGB_CHANNELS {
      assert len == 6 * m + 3;
      assert len / 2 == 3 * m + 1;
    } else {
      assert len == 8 * m + 4;
      assert len / 2 == 4 * m + 2;
    }
  }

  /** `encode` once the first segment is known to hold whole pixels: its
      chunks as they are, then the later segments stitched on, then, unless
      a later segment panicked, the drained run and the end marker. */
  lemma EncodeSegmentsShape(buf: seq<byte>, channels: nat, splits: nat)
    requires channels == RGB_CHANNELS || channels == RGBA_CHANNELS
    requires splits > 0 && |buf| / splits > 0
    requires |Segments(buf, |buf| / splits)[0]| % channels == 0
    ensures var segs := Segments(buf, |buf| / splits);
            var (chunks, g) := SegmentChunks(segs[0], channels);
            var (w, g1) := StitchAll(g, segs[1..], channels);
            EncodeSegments(buf, channels, splits) ==
              if w.panic.Some? then Written(Serialize(ChunksOf(chunks)) + w.bytes, w.panic)
              else Written(Serialize(ChunksOf(chunks)) + w.bytes + Drained(g1) + END_MARKER, None)
  {
  }

  /** EncodeSegmentsShape with the first segment's chunks and the result
      of the loop over the later segments given by name. */
  lemma EncodeBodyBytes(buf: seq<byte>, channels: nat, chunks: seq<ChunkState>, g: State,
                        stitched: seq<byte>, panic: Option<Fault>, g1: State)
    requires channels == RGB_CHANNELS || channels == RGBA_CHANNELS
    requires |buf| / SPLITS > 0
    requires |Segments(buf, |buf| / SPLITS)[0]| % channels == 0
    requires (chunks, g) == SegmentChunks(Segments(buf, |buf| / SPLITS)[0], channels)
    requires (Written(stitched, panic), g1) == StitchAll(g, Segments(buf, |buf| / SPLITS)[1..], channels)
    ensures panic.Some? ==> EncodeSegments(buf, channels, SPLITS) == Written(Serialize(ChunksOf(chunks)) + stitched, panic)
    ensures panic.None? ==>
              EncodeSegments(buf, channels, SPLITS) == Written(Serialize(ChunksOf(chunks)) + stitched + Drained(g1) + END_MARKER, None)
  {
    EncodeSegmentsShape(buf, channels, SPLITS);
  }

  /** With one segment there is nothing to stitch: the chunks of the whole
      buffer, the drained run and the end marker. */
  lemma OneSegment(buf: seq<byte>, channels: nat)
    requires channels == RGB_CHANNELS || channels == RGBA_CHANNELS
    requires |buf| > 0 && |buf| % channels == 0
    ensures var (chunks, g) := SegmentChunks(buf, channels);
            EncodeSegments(buf, channels, 1) == Written(Serialize(ChunksOf(chunks)) + Drained(g) + END_MARKER, None)
  {
    assert Segments(buf, |buf|) == [buf];
    var (chunks, g) := SegmentChunks(buf, channels);
    assert StitchAll(g, [], channels) == (Written([], None), g);
    assert Serialize(ChunksOf(chunks)) + [] == Serialize(ChunksOf(chunks));
  }

  /** With two segments of equal length the second is stitched onto the
      state the first left. */
  lemma TwoSegments(buf: seq<byte>, first: seq<byte>, second: seq<byte>, channels: nat)
    requires channels == RGB_CHANNELS || channels == RGBA_CHANNELS
    requires buf == first + second && 0 < |first| == |second| && |first| % channels == 0
    ensures var (chunks0, g) := SegmentChunks(first, channels);
            var (chunks1, s) := SegmentChunks(second, channels);
            var (w, g1) := StitchSegment(g, chunks1, s, channels);
            EncodeSegments(buf, channels, 2) ==
              if w.panic.Some? then Written(Serialize(ChunksOf(chunks0)) + w.bytes, w.panic)
              else Written(Serialize(ChunksOf(chunks0)) + w.bytes + Drained(g1) + END_MARKER, None)
  {
    var half := |first|;
    assert |buf| / 2 == half;
    assert buf[..half] == first && buf[half..] == second;
    var segs := Segments(buf, half);
    assert Segments(second, half) == [second];
    assert segs == [first, second];
    assert segs[1..] == [second];
    var (chunks1, s) := SegmentChunks(second, channels);
    var (chunks0, g) := SegmentChunks(first, channels);
    var (w, g1) := StitchSegment(g, chunks1, s, channels);
    assert StitchAll(g1, [], channels) == (Written([], None), g1);
    assert w.bytes + [] == w.bytes;
    assert StitchAll(g, segs[1..], channels) == (w, g1);
  }

  /** `encode`: the header (colour space 0), then the segments. */
  function EncodeWith(buf: seq<byte>, width: nat, height: nat, channels: nat, splits: nat): (w: Written)
    requires channels == RGB_CHANNELS || channels == RGBA_CHANNELS
    requires width < U32_LIMIT && height < U32_LIMIT && splits > 0
    ensures |w.bytes| >= 14 && w.bytes[..14] == Header(width, height, channels as byte, 0)
  {
    var header := Header(width, height, channels as byte, 0);
    var body := EncodeSegments(buf, channels, splits);
    assert (header + body.bytes)[..14] == header;
    Written(header + body.bytes, body.panic)
  }

  /** The number of segments `encode` cuts the buffer into. */
  const SPLITS: nat := 2

  /** One more chunk of a list appends its bytes. */
  lemma SerializePrefix(cs: seq<Chunk>, i: nat)
    requires (forall c | c in cs :: WellFormed(c)) && i < |cs|
    ensures Serialize(cs[..i + 1]) == Serialize(cs[..i]) + Encode(cs[i])
  {
    assert cs[..i + 1][..i] == cs[..i];
  }

  /** One more resolved entry appends the bytes of its chunk. */
  lemma ResolvedPrefix(g: State, states: seq<ChunkState>, i: nat)
    requires Valid(g) && AllWellFormed(states) && i < |states|
    ensures Serialize(ResolveAll(g, states)[..i + 1])
            == Serialize(ResolveAll(g, states)[..i]) + Encode(ResolveChunk(g, states[i]))
  {
    SerializePrefix(ResolveAll(g, states), i);
  }

  /** A run longer than MAX_RUN_LENGTH starts with a full run chunk. */
  lemma RunChunksStep(n: nat)
    requires n > MAX_RUN_LENGTH
    ensures Serialize(RunChunks(n)) == Encode(RunOf(MAX_RUN_LENGTH)) + Serialize(RunChunks(n - MAX_RUN_LENGTH))
  {
    SerializeAppend([RunOf(MAX_RUN_LENGTH)], RunChunks(n - MAX_RUN_LENGTH));
    assert Serialize([RunOf(MAX_RUN_LENGTH)]) == Serialize([]) + Encode(RunOf(MAX_RUN_LENGTH));
  }

  lemma RunChunksLast(n: nat)
    requires 0 < n <= MAX_RUN_LENGTH
    ensures Serialize(RunChunks(n)) == Encode(RunOf(n))
  {
    assert RunChunks(n) == [RunOf(n)];
    assert Serialize([RunOf(n)]) == Serialize([]) + Encode(RunOf(n));
  }

  /** The number of pixels a sequence of run chunks stands for. */
  function RunSum(cs: seq<Chunk>): nat
    requires forall c | c in cs :: c.Run?
  {
    if cs == [] then 0 else RunLength(cs[0]) + RunSum(cs[1..])
  }

  /** encoder.rs:105-116: a run is re-split into chunks that together stand
      for exactly its length, each of 1 to MAX_RUN_LENGTH pixels, all but
      the last full. */
  lemma {:induction false} RunChunksSplit(n: nat)
    ensures RunSum(RunChunks(n)) == n
    ensures forall i | 0 <= i < |RunChunks(n)| :: 1 <= RunLength(RunChunks(n)[i]) <= MAX_RUN_LENGTH
    ensures forall i | 0 <= i < |RunChunks(n)| - 1 :: RunLength(RunChunks(n)[i]) == MAX_RUN_LENGTH
    decreases n
  {
    var cs := RunChunks(n);
    if n > MAX_RUN_LENGTH {
      RunChunksSplit(n - MAX_RUN_LENGTH);
      assert cs[1..] == RunChunks(n - MAX_RUN_LENGTH);
      assert forall i | 1 <= i < |cs| :: cs[i] == RunChunks(n - MAX_RUN_LENGTH)[i - 1];
    } else if n > 0 {
      assert cs[1..] == [];
    }
  }

  /** encoder.rs:97-102: the run the loop accumulates is the starting run
      plus the lengths of the leading resolved run chunks it consumes, and
      what is left starts right after them. */
  lemma {:induction false} LeadingRunsSum(acc: nat, chunks: seq<ChunkState>)
    ensures LeadingRuns(acc, chunks).Some? ==>
              var (total, remaining) := LeadingRuns(acc, chunks).value;
              var k := |chunks| - |remaining|;
              0 <= k && remaining == chunks[k..]
              && (forall i | 0 <= i < k :: chunks[i].Resolved? && chunks[i].chunk.Run?)
              && total == acc + RunSum(ChunksOf(chunks[..k]))
    decreases |chunks|
  {
    if |chunks| > 0 && chunks[0].Resolved? && chunks[0].chunk.Run? {
      var rest := chunks[1..];
      LeadingRunsSum(acc + RunLength(chunks[0].chunk), rest);
      if LeadingRuns(acc, chunks).Some? {
        var (total, remaining) := LeadingRuns(acc, chunks).value;
        LeadingRunsMore(chunks, |chunks| - |remaining|);
      }
    } else if |chunks| > 0 {
      assert chunks[0..] == chunks;
      assert ChunksOf(chunks[..0]) == [];
    }
  }

  /** One consumed run chunk in front of k - 1 more. */
  lemma LeadingRunsMore(chunks: seq<ChunkState>, k: nat)
    requires 0 < k <= |chunks| && chunks[0].chunk.Run?
    requires forall i | 1 <= i < k :: chunks[i].chunk.Run?
    ensures chunks[1..][k - 1..] == chunks[k..]
    ensures RunSum(ChunksOf(chunks[..k])) == RunLength(chunks[0].chunk) + RunSum(ChunksOf(chunks[1..][..k - 1]))
  {
    var heads := ChunksOf(chunks[..k]);
    assert heads[1..] == ChunksOf(chunks[1..][..k - 1]);
  }

  lemma Appended(a: seq<byte>, b: seq<byte>)
    ensures |a + b| >= |a| && (a + b)[..|a|] == a && (a + b)[|a|..] == b
  {
  }

  lemma SplitAt(s: seq<byte>, n: nat)
    requires n <= |s|
    ensures s == s[..n] + s[n..]
  {
  }

  lemma Associative(a: seq<byte>, b: seq<byte>, c: seq<byte>)
    ensures a + b + c == a + (b + c)
  {
  }

  lemma TakeOneMore<T>(s: seq<T>, i: nat)
    requires i < |s|
    ensures s[..i + 1] == s[..i] + [s[i]]
  {
  }

  /** The last byte of pixel i lies inside a buffer of n whole pixels. */
  lemma PixelInBounds(i: nat, n: nat, len: nat, channels: nat)
    requires channels > 0 && i < n && n == len / channels && len % channels == 0
    ensures (i + 1) * channels <= len
  {
    assert len == n * channels;
    assert (i + 1) * channels <= n * channels;
  }

  /** Serializing a concatenation serializes each part. */
  lemma {:induction false} SerializeAppend(xs: seq<Chunk>, ys: seq<Chunk>)
    requires forall c | c in xs :: WellFormed(c)
    requires forall c | c in ys :: WellFormed(c)
    ensures Serialize(xs + ys) == Serialize(xs) + Serialize(ys)
    decreases |ys|
  {
    if ys == [] {
      assert xs + ys == xs;
    } else {
      var init, last := ys[..|ys| - 1], ys[|ys| - 1];
      assert (xs + ys)[..|xs + ys| - 1] == xs + init;
      assert (xs + ys)[|xs + ys| - 1] == last;
      SerializeAppend(xs, init);
      assert Serialize(xs + ys) == Serialize(xs) + Serialize(init) + Chunks.Encode(last);
      Associative(Serialize(xs), Serialize(init), Chunks.Encode(last));
    }
  }

  /** The encoder: a sink the header and the chunks are written to. The
      sink is a byte sequence that only grows; write errors are not modelled. */
  class QoiEncoder {
    var w: seq<byte>

    constructor (sink: seq<byte>)
      ensures w == sink
    {
      w := sink;
    }

    /** `chunk.encode(&mut self.w)`. */
    method WriteChunk(c: Chunk)
      requires WellFormed(c)
      modifies this
      ensures w == old(w) + Chunks.Encode(c)
    {
      w := w + Chunks.Encode(c);
    }

    /** encoder.rs:159-172. */
    method WriteHeader(width: nat, height: nat, channels: byte, colorSpace: byte)
      requires width < U32_LIMIT && height < U32_LIMIT
      modifies this
      ensures w == old(w) + Header(width, height, channels, colorSpace)
    {
      w := w + MAGIC;
      w := w + BigEndian(width);
      w := w + BigEndian(height);
      w := w + [channels];
      w := w + [colorSpace];
      assert w == old(w) + (MAGIC + BigEndian(width) + BigEndian(height) + [channels, colorSpace]);
    }

    /** encoder.rs:21-41: the pixels of a segment pushed through a fresh
        codec state one by one, every chunk collected. */
    static method ToChunks(buf: seq<byte>, channels: nat) returns (chunks: seq<ChunkState>, state: QoiCodecState)
      requires channels == RGB_CHANNELS || channels == RGBA_CHANNELS
      requires |buf| % channels == 0
      ensures fresh(state) && fresh(state.previouslySeen) && state.Valid()
      ensures (chunks, state.Snapshot()) == SegmentChunks(buf, channels)
    {
      state := new QoiCodecState();
      chunks := EncodeLoop(buf, channels, PixelsOf(buf, channels), state);
    }

    /** The loop of `to_chunks`: every pixel of the segment through the
        codec state in turn, the chunks collected in order. */
    static method EncodeLoop(buf: seq<byte>, channels: nat, ghost ps: seq<Pixel>, state: QoiCodecState)
      returns (chunks: seq<ChunkState>)
      requires channels == RGB_CHANNELS || channels == RGBA_CHANNELS
      requires |buf| % channels == 0 && ps == PixelsOf(buf, channels)
      requires state.Valid() && state.Snapshot() == New()
      modifies state, state.previouslySeen
      ensures state.Valid()
      ensures EncodePixels(New(), ps, channels) == (state.Snapshot(), chunks)
    {
      chunks := [];
      var n := |buf| / channels;
      var i := 0;
      while i < n
        invariant 0 <= i <= n && state.Valid()
        invariant EncodePixels(New(), ps[..i], channels) == (state.Snapshot(), chunks)
      {
        chunks := EncodeNext(buf, channels, ps, i, state, chunks);
        i := i + 1;
      }
      assert ps[..i] == ps;
    }

    /** One turn of the loop of `to_chunks`: pixel i read from the segment
        and its chunks appended. */
    static method EncodeNext(buf: seq<byte>, channels: nat, ghost ps: seq<Pixel>, i: nat, state: QoiCodecState,
                             chunks: seq<ChunkState>)
      returns (chunks': seq<ChunkState>)
      requires channels == RGB_CHANNELS || channels == RGBA_CHANNELS
      requires |buf| % channels == 0 && ps == PixelsOf(buf, channels) && i < |buf| / channels
      requires state.Valid() && EncodePixels(New(), ps[..i], channels) == (state.Snapshot(), chunks)
      modifies state, state.previouslySeen
      ensures state.Valid()
      ensures EncodePixels(New(), ps[..i + 1], channels) == (state.Snapshot(), chunks')
    {
      PixelInBounds(i, |buf| / channels, |buf|, channels);
      var pixel := PixelAt(buf, i, channels);
      assert ps[i] == pixel;
      ghost var before := state.Snapshot();
      var out := state.ProcessPixel(pixel, channels);
      EncodeStep(ps, i, channels, before, chunks);
      chunks' := chunks + out;
    }

    /** Writes every chunk of a list, in order. */
    method WriteChunks(cs: seq<Chunk>)
      requires forall c | c in cs :: WellFormed(c)
      modifies this
      ensures w == old(w) + Serialize(cs)
    {
      var i := 0;
      while i < |cs|
        invariant 0 <= i <= |cs|
        invariant w == old(w) + Serialize(cs[..i])
      {
        SerializePrefix(cs, i);
        WriteChunk(cs[i]);
        i := i + 1;
      }
      assert cs[..i] == cs;
    }

    /** encoder.rs:106-116: a run of `total` pixels written as full runs
        while more than MAX_RUN_LENGTH remain, then the remainder. */
    method WriteRun(total: nat)
      modifies this
      ensures w == old(w) + Serialize(RunChunks(total))
    {
      var actual: nat := total;
      while actual > MAX_RUN_LENGTH
        invariant old(w) + Serialize(RunChunks(total)) == w + Serialize(RunChunks(actual))
      {
        RunChunksStep(actual);
        Associative(w, Chunks.Encode(RunOf(MAX_RUN_LENGTH)), Serialize(RunChunks(actual - MAX_RUN_LENGTH)));
        WriteChunk(RunOf(MAX_RUN_LENGTH));
        actual := actual - MAX_RUN_LENGTH;
      }
      if actual > 0 {
        RunChunksLast(actual);
        WriteChunk(RunOf(actual));
      } else {
        assert RunChunks(actual) == [];
        assert w + [] == w;
      }
    }

    /** encoder.rs:132-142: the remaining entries written, each unresolved one
        as the global state's index chunk when the global cache holds its pixel. */
    method WriteResolved(global: QoiCodecState, states: seq<ChunkState>)
      requires global.Valid() && AllWellFormed(states)
      modifies this
      ensures w == old(w) + Serialize(ResolveAll(global.Snapshot(), states))
    {
      var g := global.Snapshot();
      ghost var all := ResolveAll(g, states);
      var i := 0;
      while i < |states|
        invariant 0 <= i <= |states|
        invariant w == old(w) + Serialize(all[..i])
      {
        var chunk := ResolveChunk(g, states[i]);
        ResolvedPrefix(g, states, i);
        Associative(old(w), Serialize(all[..i]), Chunks.Encode(chunk));
        WriteChunk(chunk);
        i := i + 1;
      }
      assert all[..i] == all;
    }

    /** encoder.rs:71-92: the boundary pixel processed by a clone of the
        global state, and the hack's early write. */
    method FixBoundary(global: QoiCodecState, first: Chunk, channels: nat)
      returns (run: nat, replacements: seq<ChunkState>)
      requires global.Valid() && WellFormed(first)
      modifies this
      ensures w == old(w) + Boundary(global.Snapshot(), first, channels).0
      ensures run == Boundary(global.Snapshot(), first, channels).1
      ensures replacements == Boundary(global.Snapshot(), first, channels).2
    {
      var initial := new QoiCodecState();
      var pixel := LookupChunk(initial.Snapshot(), first);
      var temp := global.Clone();
      var chunks1 := temp.ProcessPixel(pixel, channels);
      if temp.runLength > 0 && |chunks1| == 1 {
        WriteChunk(chunks1[0].chunk);
        chunks1 := [];
      }
      run := temp.runLength;
      replacements := chunks1;
    }

    /** encoder.rs:97-116: the leading run chunks consumed and the whole run
        written re-split. */
    method ContinueRun(run: nat, rest: seq<ChunkState>) returns (remaining: seq<ChunkState>, panic: Option<Fault>)
      requires AllWellFormed(rest)
      modifies this
      ensures RunFixUp(run, rest).None? ==> panic == Some(RunsExhaustChunks) && w == old(w)
      ensures RunFixUp(run, rest).Some? ==>
                panic.None? && w == old(w) + RunFixUp(run, rest).value.0 && remaining == RunFixUp(run, rest).value.1
    {
      if |rest| == 0 {
        WriteRun(run);
        return [], None;
      }
      var chunks := rest;
      var actual: nat := run;
      while chunks[0].Resolved? && chunks[0].chunk.Run?
        invariant 0 < |chunks|
        invariant LeadingRuns(actual, chunks) == LeadingRuns(run, rest)
        decreases |chunks|
      {
        ghost var before := chunks;
        actual := actual + RunLength(chunks[0].chunk);
        chunks := chunks[1..];
        assert LeadingRuns(actual, chunks) == LeadingRuns(run, rest);
        if |chunks| == 0 {
          // the loop condition reads chunks[0] of an empty deque
          return [], Some(RunsExhaustChunks);
        }
      }
      assert LeadingRuns(actual, chunks) == Some((actual, chunks));
      WriteRun(actual);
      return chunks, None;
    }

    /** encoder.rs:94-131: the chunks from the boundary placed; `chunks`
        still holds the dummy in front. */
    method Place(run: nat, replacements: seq<ChunkState>, chunks: seq<ChunkState>)
      returns (remaining: seq<ChunkState>, panic: Option<Fault>)
      requires |replacements| <= 2 && forall cs | cs in replacements :: WellFormed(cs.chunk)
      requires |chunks| > 0 && AllWellFormed(chunks)
      modifies this
      ensures Placed(run, replacements, chunks[1..]).None? ==> panic == Some(RunsExhaustChunks) && w == old(w)
      ensures Placed(run, replacements, chunks[1..]).Some? ==>
                && panic.None? && w == old(w) + Placed(run, replacements, chunks[1..]).value.0
                && remaining == Placed(run, replacements, chunks[1..]).value.1
    {
      if |replacements| == 0 {
        remaining, panic := ContinueRun(run, chunks[1..]);
      } else if |replacements| == 1 {
        remaining := chunks[0 := replacements[0]];
        assert remaining == [replacements[0]] + chunks[1..];
        panic := None;
      } else {
        remaining := chunks[0 := replacements[1]];
        assert remaining == [replacements[1]] + chunks[1..];
        WriteChunk(replacements[0].chunk);
        panic := None;
      }
    }

    /** encoder.rs:69-145: the boundary fix-up of a later segment, its
        remaining chunks written against the global state, and the merge.
        On a panic the global state is left as it was. */
    method Stitch(global: QoiCodecState, chunks: seq<ChunkState>, state: QoiCodecState, channels: nat)
      returns (panic: Option<Fault>)
      requires global.Valid() && state.Valid() && AllWellFormed(chunks)
      requires global != state && global.previouslySeen != state.previouslySeen
      modifies this, global, global.previouslySeen
      ensures global.Valid()
      ensures var (r, g1) := StitchSegment(old(global.Snapshot()), chunks, old(state.Snapshot()), channels);
              w == old(w) + r.bytes && panic == r.panic && global.Snapshot() == g1
    {
      ghost var g, sv, start := global.Snapshot(), state.Snapshot(), w;
      if |chunks| == 0 {
        return Some(EmptyChunkList);
      }
      var first := chunks[0].chunk;
      var rest := chunks[0 := Resolved(Run(0))];   // the dummy takes its place
      assert rest[1..] == chunks[1..];
      var run, replacements := FixBoundary(global, first, channels);
      ghost var early := Boundary(g, first, channels).0;
      var remaining;
      remaining, panic := Place(run, replacements, rest);
      if panic.Some? {
        return;
      }
      ghost var bytes := Placed(run, replacements, chunks[1..]).value.0;
      Associative(start, early, bytes);
      FinishSegment(global, remaining, state);
      Associative(start, early + bytes, Serialize(ResolveAll(g, remaining)));
    }

    /** encoder.rs:132-144: the remaining entries written against the
        global state, then the segment's state merged into it. */
    method FinishSegment(global: QoiCodecState, remaining: seq<ChunkState>, state: QoiCodecState)
      requires global.Valid() && state.Valid() && AllWellFormed(remaining)
      requires global != state && global.previouslySeen != state.previouslySeen
      modifies this, global, global.previouslySeen
      ensures global.Valid()
      ensures w == old(w) + Serialize(ResolveAll(old(global.Snapshot()), remaining))
      ensures global.Snapshot() == Merge(old(global.Snapshot()), old(state.Snapshot()))
    {
      WriteResolved(global, remaining);
      global.Merge(state);
    }

    /** encoder.rs:69-145, one iteration: the next segment encoded from a
        fresh state (a panic if it ends inside a pixel) and stitched on.
        Stated against the loop over this segment and the ones after it. */
    method StitchNext(global: QoiCodecState, seg: seq<byte>, ghost later: seq<seq<byte>>, channels: nat)
      returns (panic: Option<Fault>)
      requires channels == RGB_CHANNELS || channels == RGBA_CHANNELS
      requires global.Valid()
      modifies this, global, global.previouslySeen
      ensures global.Valid() && |w| >= |old(w)| && w[..|old(w)|] == old(w)
      ensures StitchAll(old(global.Snapshot()), [seg] + later, channels) ==
                if panic.Some? then (Written(w[|old(w)|..], panic), global.Snapshot())
                else Prepend(w[|old(w)|..], StitchAll(global.Snapshot(), later, channels))
    {
      ghost var g, start := global.Snapshot(), w;
      assert ([seg] + later)[1..] == later;
      if |seg| % channels != 0 {
        assert w[|w|..] == [];
        assert StitchOne(g, seg, channels) == (Written([], Some(PartialPixel)), g);
        return Some(PartialPixel);
      }
      var chunks, state := ToChunks(seg, channels);
      panic := Stitch(global, chunks, state, channels);
      Appended(start, StitchSegment(g, chunks, state.Snapshot(), channels).0.bytes);
    }

    /** One turn of the loop over the later segments: segment k stitched
        on, `done` extended by the bytes it wrote. */
    method Advance(global: QoiCodecState, segs: seq<seq<byte>>, k: nat, channels: nat,
                   ghost whole: (Written, State), ghost start: seq<byte>, ghost done: seq<byte>)
      returns (panic: Option<Fault>, ghost done': seq<byte>)
      requires channels == RGB_CHANNELS || channels == RGBA_CHANNELS
      requires global.Valid() && k < |segs| && w == start + done
      requires whole == Prepend(done, StitchAll(global.Snapshot(), segs[k..], channels))
      modifies this, global, global.previouslySeen
      ensures global.Valid() && w == start + done'
      ensures panic.None? ==> whole == Prepend(done', StitchAll(global.Snapshot(), segs[k + 1..], channels))
      ensures panic.Some? ==> whole == (Written(done', panic), global.Snapshot())
    {
      ghost var mid, before := w, global.Snapshot();
      panic := StitchNext(global, segs[k], segs[k + 1..], channels);
      done' := LoopStep(whole, start, done, mid, w, before, global.Snapshot(), segs, k, panic, channels);
    }

    /** encoder.rs:69-145: the later segments, each encoded from a fresh
        state and stitched onto the global one, until one panics. */
    method StitchSegments(global: QoiCodecState, segs: seq<seq<byte>>, channels: nat) returns (panic: Option<Fault>)
      requires channels == RGB_CHANNELS || channels == RGBA_CHANNELS
      requires global.Valid()
      modifies this, global, global.previouslySeen
      ensures global.Valid()
      ensures |w| >= |old(w)| && w[..|old(w)|] == old(w)
      ensures (Written(w[|old(w)|..], panic), global.Snapshot()) == StitchAll(old(global.Snapshot()), segs, channels)
    {
      ghost var gs := global.Snapshot();
      ghost var whole, start := StitchAll(gs, segs, channels), w;
      ghost var done: seq<byte> := [];
      panic := None;
      var k := 0;
      assert segs[k..] == segs;
      PrependEmpty(whole);
      while k < |segs| && panic.None?
        invariant 0 <= k <= |segs|
        invariant global.Valid() && gs == global.Snapshot()
        invariant w == start + done
        invariant panic.None? ==> whole == Prepend(done, StitchAll(gs, segs[k..], channels))
        invariant panic.Some? ==> whole == (Written(done, panic), gs)
      {
        panic, done := Advance(global, segs, k, channels, whole, start, done);
        gs := global.Snapshot();
        k := k + 1;
      }
      if panic.None? {
        assert segs[k..] == [];
        PrependNothing(done, gs);
      }
      assert w[|start|..] == done;
    }

    /** encoder.rs:53-156: everything `encode` writes after the header. */
    method EncodeBody(buf: seq<byte>, channels: nat) returns (panic: Option<Fault>)
      requires channels == RGB_CHANNELS || channels == RGBA_CHANNELS
      modifies this
      ensures w == old(w) + EncodeSegments(buf, channels, SPLITS).bytes
      ensures panic == EncodeSegments(buf, channels, SPLITS).panic
    {
      ghost var start := w;
      var size := |buf| / SPLITS;
      if size == 0 {
        Appended(w, []);
        return Some(ZeroSegmentSize);
      }
      var segs := Segments(buf, size);
      if |segs[0]| % channels != 0 {
        Appended(w, []);
        return Some(PartialPixel);
      }
      var chunks, global := ToChunks(segs[0], channels);
      ghost var g := global.Snapshot();
      WriteChunks(ChunksOf(chunks));
      ghost var afterFirst := w;
      panic := StitchSegments(global, segs[1..], channels);
      ghost var stitched := w[|afterFirst|..];
      ghost var g1 := global.Snapshot();
      SplitAt(w, |afterFirst|);
      Associative(start, Serialize(ChunksOf(chunks)), stitched);
      EncodeBodyBytes(buf, channels, chunks, g, stitched, panic, g1);
      if panic.Some? {
        return;
      }
      var drained := Drain(global.Snapshot());
      if drained.Some? {
        WriteChunk(drained.value.chunk);
      } else {
        assert w + [] == w;
      }
      w := w + END_MARKER;
      ghost var body := Serialize(ChunksOf(chunks)) + stitched;
      Associative(start, body, Drained(g1));
      Associative(start, body + Drained(g1), END_MARKER);
    }

    /** encoder.rs:43-157: the header, the first segment's chunks as they
        are, every later segment stitched on, the drained run and the end
        marker. A panic stops the writing where the source panics. */
    method Encode(buf: seq<byte>, width: nat, height: nat, channels: nat) returns (panic: Option<Fault>)
      requires channels == RGB_CHANNELS || channels == RGBA_CHANNELS
      requires width < U32_LIMIT && height < U32_LIMIT
      modifies this
      ensures w == old(w) + EncodeWith(buf, width, height, channels, SPLITS).bytes
      ensures panic == EncodeWith(buf, width, height, channels, SPLITS).panic
    {
      WriteHeader(width, height, channels as byte, 0);
      panic := EncodeBody(buf, channels);
      Associative(old(w), Header(width, height, channels as byte, 0), EncodeSegments(buf, channels, SPLITS).bytes);
    }
  }
}
