/** The decoder of decoder.rs: `read_metadata` parses the 14-byte header,
    and QoiReader pulls pixels out of the chunk stream one at a time,
    counting down the repeats of a run chunk.

    The reader over the encoded bytes is the sequence of bytes not yet
    consumed. The functions say what each step yields; the classes
    QoiDecoder and QoiReader update their fields in place and are proved
    to follow them. */
module Decoder {
  import opened Consts
  import opened Pixels
  import opened Chunks
  import Encoder

  datatype Result<T, E> = Ok(value: T) | Err(error: E)

  /** The header errors of decoder.rs. HeaderTooSmall comes only from a
      reader that fails, which is not modelled. */
  datatype DecoderError = InvalidHeader

  /** Where read_pixel panics: `unreachable!()` when no discriminant
      matches (the stream is exhausted, so nothing can be peeked), or a
      chunk whose first byte matched but whose remaining bytes are missing. */
  datatype ReadFault = Unreachable | Truncated

  datatype ColorType = Rgb8 | Rgba8

  /** `channel_count()` of the two colour types. */
  function ChannelCount(c: ColorType): (n: nat)
    ensures n == RGB_CHANNELS || n == RGBA_CHANNELS
  {
    if c == Rgb8 then RGB_CHANNELS else RGBA_CHANNELS
  }

  datatype Metadata = Metadata(width: nat, height: nat, colourType: ColorType)

  const HEADER_SIZE: nat := 14

  /** The zeroed 14-byte buffer after one `read` from a reader over
      `input`: the first bytes of the input, then zeros where it ran out. */
  function HeaderBuffer(input: seq<byte>): (buf: seq<byte>)
    ensures |buf| == HEADER_SIZE
    ensures |input| >= HEADER_SIZE ==> buf == input[..HEADER_SIZE]
  {
    if |input| >= HEADER_SIZE then input[..HEADER_SIZE]
    else input + seq(HEADER_SIZE - |input|, _ => 0)
  }

  /** How many bytes that read consumes. */
  function HeaderConsumed(input: seq<byte>): (n: nat)
    ensures n <= |input| && n <= HEADER_SIZE
    ensures |input| >= HEADER_SIZE ==> n == HEADER_SIZE
  {
    if |input| >= HEADER_SIZE then HEADER_SIZE else |input|
  }

  /** `u32::from_be_bytes`. */
  function FromBigEndian(bs: seq<byte>): (x: nat)
    requires |bs| == 4
    ensures x < Encoder.U32_LIMIT
  {
    bs[0] as nat * 0x100_0000 + bs[1] as nat * 0x1_0000 + bs[2] as nat * 0x100 + bs[3] as nat
  }

  /** The channel byte: 3 is RGB, 4 is RGBA, anything else is invalid. */
  function ColourOf(channels: byte): (r: Result<ColorType, DecoderError>)
    ensures r.Ok? <==> channels as nat == RGB_CHANNELS || channels as nat == RGBA_CHANNELS
    ensures r.Ok? ==> ChannelCount(r.value) == channels as nat
  {
    if channels == 3 then Ok(Rgb8)
    else if channels == 4 then Ok(Rgba8)
    else Err(InvalidHeader)
  }

  /** The header parse of read_metadata: the magic, then width and height
      big-endian, then the channel byte. The colour space byte is ignored. */
  function ParseHeader(buf: seq<byte>): (r: Result<Metadata, DecoderError>)
    requires |buf| == HEADER_SIZE
    ensures r.Err? <==> buf[..4] != Encoder.MAGIC || ColourOf(buf[12]).Err?
    ensures r.Ok? ==> r.value.width == FromBigEndian(buf[4..8]) && r.value.height == FromBigEndian(buf[8..12])
                      && ChannelCount(r.value.colourType) == buf[12] as nat
  {
    if buf[..4] != Encoder.MAGIC then Err(InvalidHeader)
    else
      match ColourOf(buf[12])
      case Err(e) => Err(e)
      case Ok(c) => Ok(Metadata(FromBigEndian(buf[4..8]), FromBigEndian(buf[8..12]), c))
  }

  /** A u32 read back from its big-endian bytes. */
  lemma BigEndianRoundTrip(x: nat)
    requires x < Encoder.U32_LIMIT
    ensures FromBigEndian(Encoder.BigEndian(x)) == x
  {
    var q1, q2, q3 := x / 0x100, x / 0x1_0000, x / 0x100_0000;
    assert x == q1 * 0x100 + x % 0x100;
    assert q1 == q2 * 0x100 + q1 % 0x100 && q1 % 0x100 == (x / 0x100) % 256;
    assert q2 == q3 * 0x100 + q2 % 0x100 by {
      assert q2 == q1 / 0x100;
      assert q3 == q2 / 0x100;
    }
    assert q2 == q1 / 0x100;
  }

  /** Reading back what write_header wrote gives the width, the height and
      the colour type of the channel count, whatever follows the header. */
  lemma HeaderRoundTrip(width: nat, height: nat, channels: byte, rest: seq<byte>)
    requires width < Encoder.U32_LIMIT && height < Encoder.U32_LIMIT
    requires channels as nat == RGB_CHANNELS || channels as nat == RGBA_CHANNELS
    ensures var input := Encoder.Header(width, height, channels, 0) + rest;
      && HeaderConsumed(input) == HEADER_SIZE
      && input[HEADER_SIZE..] == rest
      && ParseHeader(HeaderBuffer(input)).Ok?
      && ParseHeader(HeaderBuffer(input)).value == Metadata(width, height, ColourOf(channels).value)
  {
    var h := Encoder.Header(width, height, channels, 0);
    var input := h + rest;
    assert HeaderBuffer(input) == h;
    assert h[4..8] == Encoder.BigEndian(width);
    assert h[8..12] == Encoder.BigEndian(height);
    BigEndianRoundTrip(width);
    BigEndianRoundTrip(height);
    assert input[HEADER_SIZE..] == rest;
  }

  /** QoiDecoder: the reader, and the dimensions and colour type that
      read_metadata fills in. */
  class QoiDecoder {
    var reader: seq<byte>
    var width: nat
    var height: nat
    var colourType: ColorType

    /** `new`: zero dimensions and Rgba8, then read_metadata; a header
        error is returned instead of the decoder. */
    static method New(reader: seq<byte>) returns (r: Result<QoiDecoder, DecoderError>)
      ensures r.Ok? <==> ParseHeader(HeaderBuffer(reader)).Ok?
      ensures r.Err? ==> r.error == ParseHeader(HeaderBuffer(reader)).error
      ensures r.Ok? ==> fresh(r.value)
      ensures r.Ok? ==> Metadata(r.value.width, r.value.height, r.value.colourType)
                          == ParseHeader(HeaderBuffer(reader)).value
      ensures r.Ok? ==> r.value.reader == reader[HeaderConsumed(reader)..]
    {
      var decoder := new QoiDecoder.Init(reader);
      var err := decoder.ReadMetadata();
      if err.Some? {
        return Err(err.value);
      }
      return Ok(decoder);
    }

    constructor Init(reader: seq<byte>)
      ensures this.reader == reader && width == 0 && height == 0 && colourType == Rgba8
    {
      this.reader := reader;
      width := 0;
      height := 0;
      colourType := Rgba8;
    }

    /** decoder.rs:66-86: the width and height are stored once the magic
        matched, even when the channel byte then turns out invalid. */
    method ReadMetadata() returns (err: Option<DecoderError>)
      modifies this
      ensures reader == old(reader)[HeaderConsumed(old(reader))..]
      ensures var buf := HeaderBuffer(old(reader));
        && (err.None? <==> ParseHeader(buf).Ok?)
        && (err.Some? ==> err.value == ParseHeader(buf).error)
        && (err.None? ==> Metadata(width, height, colourType) == ParseHeader(buf).value)
        && (buf[..4] == Encoder.MAGIC ==> width == FromBigEndian(buf[4..8]) && height == FromBigEndian(buf[8..12]))
        && (buf[..4] != Encoder.MAGIC ==> width == old(width) && height == old(height))
        && (err.Some? ==> colourType == old(colourType))
    {
      var buf := HeaderBuffer(reader);
      reader := reader[HeaderConsumed(reader)..];
      if buf[..4] != Encoder.MAGIC {
        return Some(InvalidHeader);
      }
      width := FromBigEndian(buf[4..8]);
      height := FromBigEndian(buf[8..12]);
      var colour := ColourOf(buf[12]);
      if colour.Err? {
        return Some(colour.error);
      }
      colourType := colour.value;
      return None;
    }
  }

  // ----- the pixel reader -----

  /** The reader's state as a value: the previous pixel, the 64-slot cache
      and the run countdown. */
  datatype ReaderState = ReaderState(last: Pixel, cache: seq<Pixel>, run: nat)

  predicate ReaderValid(r: ReaderState) {
    |r.cache| == SEEN_PIXEL_ARRAY_SIZE && r.run < 256
  }

  /** `QoiReader::new`: previous pixel (0,0,0,255), every slot (0,0,0,0),
      no countdown. */
  function Fresh(): (r: ReaderState)
    ensures ReaderValid(r)
  {
    ReaderState(DEFAULT_PIXEL, seq(SEEN_PIXEL_ARRAY_SIZE, _ => ZERO_PIXEL), 0)
  }

  /** The chunk at the head of the input and its size, found by trying the
      kinds in the order DIFF, INDEX, LUMA, RGBA, RGB, RUN. An RGB chunk
      keeps the previous pixel's alpha: the QOI format's rule, assumed for
      the RGB decoding and conversion this model has no text of. */
  function ParseChunk(input: seq<byte>, last: Pixel): (r: Result<(Chunk, nat), ReadFault>)
    ensures r.Ok? ==> WellFormed(r.value.0) && 0 < r.value.1 <= |input| && r.value.1 == Size(r.value.0)
    ensures r.Ok? && r.value.0.Rgb? ==> r.value.0.a == last.a
  {
    if |input| == 0 then Err(Unreachable)
    else
      var b := input[0];
      if DiffMatches(b) then Ok((DecodeDiff(b), DIFF_SIZE))
      else if IndexMatches(b) then Ok((DecodeIndex(b), INDEX_SIZE))
      else if LumaMatches(b) then
        if |input| < LUMA_SIZE then Err(Truncated) else Ok((DecodeLuma(b, input[1]), LUMA_SIZE))
      else if RgbaMatches(b) then
        if |input| < RGBA_SIZE then Err(Truncated) else Ok((Rgba(input[1], input[2], input[3], input[4]), RGBA_SIZE))
      else if RgbMatches(b) then
        if |input| < RGB_SIZE then Err(Truncated) else Ok((Rgb(input[1], input[2], input[3], last.a), RGB_SIZE))
      else if RunMatches(b) then Ok((DecodeRun(b), RUN_SIZE))
      else Err(Unreachable)
  }

  /** `unreachable!()` is reached only when the input is exhausted: every
      first byte is taken by one of the six branches. */
  lemma OnlyExhaustionIsUnreachable(input: seq<byte>, last: Pixel)
    ensures ParseChunk(input, last) == Err(Unreachable) <==> |input| == 0
  {
    if |input| > 0 {
      PrefixClassification(input[0]);
    }
  }

  /** The pixel a decoded chunk stands for: relative to the previous pixel
      for DIFF, LUMA and RUN, from the cache for INDEX, raw otherwise. */
  function ChunkPixel(r: ReaderState, c: Chunk): Pixel
    requires ReaderValid(r) && WellFormed(c)
  {
    match c
    case Diff(_, _, _) => ApplyDiff(r.last, c)
    case Index(i) => r.cache[i]
    case Luma(_, _, _) => ApplyLuma(r.last, c)
    case Rgba(_, _, _, _) => RawPixel(c)
    case Rgb(_, _, _, _) => RawPixel(c)
    case Run(_) => r.last
  }

  /** One read_pixel: a pending countdown repeats the previous pixel
      without consuming input; otherwise one chunk is consumed, its pixel
      is cached at its slot and becomes the previous pixel, and a run
      chunk of length L leaves L - 1 repeats to count down. */
  function ReadStep(r: ReaderState, input: seq<byte>): (res: Result<(ReaderState, seq<byte>, Pixel), ReadFault>)
    requires ReaderValid(r)
    ensures res.Ok? ==> ReaderValid(res.value.0) && res.value.2 == res.value.0.last
    ensures r.run > 0 ==> res == Ok((r.(run := r.run - 1), input, r.last))
    ensures r.run == 0 && res.Ok? ==> res.value.0.cache == r.cache[Hash(res.value.2) := res.value.2]
  {
    if r.run > 0 then Ok((r.(run := r.run - 1), input, r.last))
    else
      match ParseChunk(input, r.last)
      case Err(f) => Err(f)
      case Ok((c, size)) =>
        var p := ChunkPixel(r, c);
        var run := if c.Run? then RunLength(c) - 1 else 0;
        Ok((ReaderState(p, r.cache[Hash(p) := p], run), input[size..], p))
  }

  /** `n` pixels read one after another. */
  function ReadPixels(r: ReaderState, input: seq<byte>, n: nat): (res: Result<(ReaderState, seq<byte>, seq<Pixel>), ReadFault>)
    requires ReaderValid(r)
    ensures res.Ok? ==> ReaderValid(res.value.0) && |res.value.2| == n
  {
    if n == 0 then Ok((r, input, []))
    else
      match ReadPixels(r, input, n - 1)
      case Err(f) => Err(f)
      case Ok((r1, input1, ps)) =>
        match ReadStep(r1, input1)
        case Err(f) => Err(f)
        case Ok((r2, input2, p)) => Ok((r2, input2, ps + [p]))
  }

  /** The bytes of one pixel in a buffer of `channels` channels: alpha
      only for four. */
  function PixelBytes(p: Pixel, channels: nat): (bs: seq<byte>)
    requires channels == RGB_CHANNELS || channels == RGBA_CHANNELS
    ensures |bs| == channels
  {
    if channels == RGBA_CHANNELS then [p.r, p.g, p.b, p.a] else [p.r, p.g, p.b]
  }

  /** The bytes of a run of pixels, one after another. */
  function Flatten(ps: seq<Pixel>, channels: nat): (bs: seq<byte>)
    requires channels == RGB_CHANNELS || channels == RGBA_CHANNELS
    ensures |bs| == |ps| * channels
  {
    if ps == [] then [] else Flatten(ps[..|ps| - 1], channels) + PixelBytes(ps[|ps| - 1], channels)
  }

  /** A failed read stays failed however many more pixels are asked for. */
  lemma {:induction false} FailureStays(r: ReaderState, input: seq<byte>, n: nat, m: nat)
    requires ReaderValid(r) && n <= m && ReadPixels(r, input, n).Err?
    ensures ReadPixels(r, input, m) == ReadPixels(r, input, n)
    decreases m
  {
    if n < m {
      FailureStays(r, input, n, m - 1);
    }
  }

  /** Reading n + k pixels reads n, then k more from where those left off. */
  lemma {:induction false} ReadPixelsAdd(r: ReaderState, input: seq<byte>, n: nat, k: nat)
    requires ReaderValid(r) && ReadPixels(r, input, n).Ok?
    ensures var (r1, input1, ps) := ReadPixels(r, input, n).value;
      ReadPixels(r, input, n + k) ==
        match ReadPixels(r1, input1, k)
        case Err(f) => Err(f)
        case Ok((r2, input2, qs)) => Ok((r2, input2, ps + qs))
    decreases k
  {
    var (r1, input1, ps) := ReadPixels(r, input, n).value;
    if k == 0 {
      assert ps + [] == ps;
    } else {
      ReadPixelsAdd(r, input, n, k - 1);
      match ReadPixels(r1, input1, k - 1)
      case Err(f) =>
      case Ok((r2, input2, qs)) =>
        match ReadStep(r2, input2)
        case Err(f) =>
        case Ok((r3, input3, p)) =>
          assert ps + (qs + [p]) == ps + qs + [p];
    }
  }

  /** `k` copies of one pixel. */
  function Copies(p: Pixel, k: nat): (ps: seq<Pixel>)
    ensures |ps| == k && forall i :: 0 <= i < k ==> ps[i] == p
  {
    if k == 0 then [] else Copies(p, k - 1) + [p]
  }

  /** While a run is owed, reading repeats the previous pixel, consumes
      no input and counts the run down. */
  lemma {:induction false} Countdown(r: ReaderState, input: seq<byte>, k: nat)
    requires ReaderValid(r) && k <= r.run
    ensures ReadPixels(r, input, k) == Ok((r.(run := r.run - k), input, Copies(r.last, k)))
    decreases k
  {
    if k > 0 {
      Countdown(r, input, k - 1);
    }
  }

  /** QoiReader: the byte source, the cache array, the previous pixel, the
      countdown and the channel count of the output buffer. */
  class QoiReader {
    var reader: seq<byte>
    const previouslySeen: array<Pixel>
    var lastPixel: Pixel
    var runLength: nat
    const channels: nat

    ghost predicate Valid()
      reads this, previouslySeen
    {
      && previouslySeen.Length == SEEN_PIXEL_ARRAY_SIZE
      && runLength < 256
      && (channels == RGB_CHANNELS || channels == RGBA_CHANNELS)
    }

    function State(): ReaderState
      reads this, previouslySeen
    {
      ReaderState(lastPixel, previouslySeen[..], runLength)
    }

    constructor (reader: seq<byte>, channels: nat)
      requires channels == RGB_CHANNELS || channels == RGBA_CHANNELS
      ensures Valid() && fresh(previouslySeen)
      ensures State() == Fresh() && this.reader == reader && this.channels == channels
    {
      this.reader := reader;
      previouslySeen := new Pixel[SEEN_PIXEL_ARRAY_SIZE](_ => ZERO_PIXEL);
      lastPixel := DEFAULT_PIXEL;
      runLength := 0;
      this.channels := channels;
      new;
      assert previouslySeen[..] == Fresh().cache;
    }

    /** The chunk branches of read_pixel (decoder.rs:112-130): one chunk
        consumed, its pixel cached and made the previous pixel. */
    method DecodeChunk() returns (fault: Option<ReadFault>)
      requires Valid() && runLength == 0
      modifies this, previouslySeen
      ensures Valid()
      ensures fault.Some? <==> ReadStep(old(State()), old(reader)).Err?
      ensures fault.Some? ==> fault.value == ReadStep(old(State()), old(reader)).error
      ensures fault.None? ==> (State(), reader, lastPixel) == ReadStep(old(State()), old(reader)).value
    {
      if |reader| == 0 {
        return Some(Unreachable);
      }
      var b := reader[0];
      var pixel: Pixel;
      var size: nat;
      if DiffMatches(b) {
        pixel, size := ApplyDiff(lastPixel, DecodeDiff(b)), DIFF_SIZE;
      } else if IndexMatches(b) {
        pixel, size := previouslySeen[DecodeIndex(b).index], INDEX_SIZE;
      } else if LumaMatches(b) {
        if |reader| < LUMA_SIZE {
          return Some(Truncated);
        }
        pixel, size := ApplyLuma(lastPixel, DecodeLuma(b, reader[1])), LUMA_SIZE;
      } else if RgbaMatches(b) {
        if |reader| < RGBA_SIZE {
          return Some(Truncated);
        }
        pixel, size := Pixel(reader[1], reader[2], reader[3], reader[4]), RGBA_SIZE;
      } else if RgbMatches(b) {
        if |reader| < RGB_SIZE {
          return Some(Truncated);
        }
        pixel, size := Pixel(reader[1], reader[2], reader[3], lastPixel.a), RGB_SIZE;
      } else if RunMatches(b) {
        runLength := RunLength(DecodeRun(b)) - 1;
        pixel, size := lastPixel, RUN_SIZE;
      } else {
        return Some(Unreachable);
      }
      reader := reader[size..];
      previouslySeen[Hash(pixel)] := pixel;
      lastPixel := pixel;
      return None;
    }

    /** decoder.rs:108-140: the next pixel, from the countdown or from the
        next chunk, written into `buf` at `at`. */
    method ReadPixel(buf: array<byte>, at: nat) returns (fault: Option<ReadFault>)
      requires Valid() && at + channels <= buf.Length
      modifies this, previouslySeen, buf
      ensures Valid()
      ensures fault.Some? <==> ReadStep(old(State()), old(reader)).Err?
      ensures fault.Some? ==> fault.value == ReadStep(old(State()), old(reader)).error
      ensures fault.Some? ==> buf[..] == old(buf[..])
      ensures fault.None? ==> (State(), reader, lastPixel) == ReadStep(old(State()), old(reader)).value
      ensures fault.None? ==>
        buf[..] == old(buf[..])[..at] + PixelBytes(lastPixel, channels) + old(buf[..])[at + channels..]
    {
      fault := None;
      if runLength > 0 {
        runLength := runLength - 1;
      } else {
        fault := DecodeChunk();
        if fault.Some? {
          return;
        }
      }
      buf[at] := lastPixel.r;
      buf[at + 1] := lastPixel.g;
      buf[at + 2] := lastPixel.b;
      if channels == RGBA_CHANNELS {
        buf[at + 3] := lastPixel.a;
      }
      assert buf[..] == old(buf[..])[..at] + PixelBytes(lastPixel, channels) + old(buf[..])[at + channels..];
    }

    /** decoder.rs:145-155: `buf.len() / channels` pixels written one after
        another, and that many pixels' bytes reported. */
    method Read(buf: array<byte>) returns (n: nat, fault: Option<ReadFault>)
      requires Valid()
      modifies this, previouslySeen, buf
      ensures Valid()
      ensures ReadPixels(old(State()), old(reader), buf.Length / channels).Err? ==>
        fault == Some(ReadPixels(old(State()), old(reader), buf.Length / channels).error)
      ensures ReadPixels(old(State()), old(reader), buf.Length / channels).Ok? ==>
        var (s, rest, ps) := ReadPixels(old(State()), old(reader), buf.Length / channels).value;
        && fault.None? && n == buf.Length / channels * channels
        && State() == s && reader == rest
        && buf[..] == Flatten(ps, channels) + old(buf[..])[buf.Length / channels * channels..]
    {
      var count := buf.Length / channels;
      ghost var ps;
      fault, ps := ReadLoop(buf, count, State(), reader, buf[..]);
      n := if fault.None? then count * channels else 0;
    }

    /** The loop of `read`: pixels 0 .. count - 1 in turn, stopping at the
        first fault. */
    method ReadLoop(buf: array<byte>, count: nat, ghost s0: ReaderState, ghost input0: seq<byte>,
                    ghost bytes0: seq<byte>)
      returns (fault: Option<ReadFault>, ghost ps: seq<Pixel>)
      requires Valid() && s0 == State() && input0 == reader && bytes0 == buf[..]
      requires count == buf.Length / channels
      modifies this, previouslySeen, buf
      ensures Valid()
      ensures fault.Some? ==> ReadPixels(s0, input0, count) == Err(fault.value)
      ensures fault.None? ==> ReadPixels(s0, input0, count) == Ok((State(), reader, ps))
      ensures fault.None? ==> buf[..] == Flatten(ps, channels) + bytes0[count * channels..]
    {
      ps := [];
      var i := 0;
      while i < count
        invariant 0 <= i <= count && Valid()
        invariant ReadPixels(s0, input0, i) == Ok((State(), reader, ps))
        invariant buf[..] == Flatten(ps, channels) + bytes0[i * channels..]
      {
        fault, ps := ReadNext(buf, i, count, s0, input0, bytes0, ps);
        if fault.Some? {
          return;
        }
        i := i + 1;
      }
      return None, ps;
    }

    /** One turn of the loop of `read`: pixel i written at i * channels. */
    method ReadNext(buf: array<byte>, i: nat, ghost count: nat, ghost s0: ReaderState, ghost input0: seq<byte>,
                    ghost bytes0: seq<byte>, ghost ps: seq<Pixel>)
      returns (fault: Option<ReadFault>, ghost ps': seq<Pixel>)
      requires Valid() && ReaderValid(s0) && i < count == buf.Length / channels && |bytes0| == buf.Length
      requires ReadPixels(s0, input0, i) == Ok((State(), reader, ps))
      requires buf[..] == Flatten(ps, channels) + bytes0[i * channels..]
      modifies this, previouslySeen, buf
      ensures Valid()
      ensures fault.Some? ==> ReadPixels(s0, input0, count) == Err(fault.value)
      ensures fault.None? ==> ReadPixels(s0, input0, i + 1) == Ok((State(), reader, ps'))
      ensures fault.None? ==> buf[..] == Flatten(ps', channels) + bytes0[(i + 1) * channels..]
    {
      ghost var before, st, rd := buf[..], State(), reader;
      ReadBounds(i, buf.Length / channels, buf.Length, channels);
      fault := ReadPixel(buf, i * channels);
      ps' := ps;
      if fault.Some? {
        StepFails(s0, input0, i, count, st, rd, ps);
      } else {
        StepExtends(s0, input0, i, st, rd, ps);
        ps' := NextPixelPlaced(ps, lastPixel, channels, bytes0, i, before, buf[..]);
      }
    }
  }

  /** A step that reads pixel i extends the first i pixels by it. */
  lemma StepExtends(s0: ReaderState, input0: seq<byte>, i: nat, st: ReaderState, rd: seq<byte>, ps: seq<Pixel>)
    requires ReaderValid(s0) && ReadPixels(s0, input0, i) == Ok((st, rd, ps))
    requires ReaderValid(st) && ReadStep(st, rd).Ok?
    ensures ReadPixels(s0, input0, i + 1) ==
      Ok((ReadStep(st, rd).value.0, ReadStep(st, rd).value.1, ps + [ReadStep(st, rd).value.2]))
  {
  }

  /** A step that fails at pixel i fails the read of any count beyond i. */
  lemma StepFails(s0: ReaderState, input0: seq<byte>, i: nat, count: nat, st: ReaderState, rd: seq<byte>,
                  ps: seq<Pixel>)
    requires ReaderValid(s0) && i < count && ReadPixels(s0, input0, i) == Ok((st, rd, ps))
    requires ReaderValid(st) && ReadStep(st, rd).Err?
    ensures ReadPixels(s0, input0, count) == Err(ReadStep(st, rd).error)
  {
    FailureStays(s0, input0, i + 1, count);
  }

  /** Pixel i of `count` fits in a buffer of `len` bytes. */
  lemma ReadBounds(i: nat, count: nat, len: nat, channels: nat)
    requires channels > 0 && i < count && count == len / channels
    ensures i * channels + channels <= len
  {
    assert (i + 1) * channels <= count * channels;
  }

  /** Writing pixel i after the first i keeps the flattened prefix. */
  lemma NextPixelPlaced(ps: seq<Pixel>, p: Pixel, channels: nat, bytes0: seq<byte>, i: nat,
                        before: seq<byte>, after: seq<byte>) returns (ps': seq<Pixel>)
    requires channels == RGB_CHANNELS || channels == RGBA_CHANNELS
    requires |ps| == i && i * channels + channels <= |bytes0|
    requires before == Flatten(ps, channels) + bytes0[i * channels..]
    requires after == before[..i * channels] + PixelBytes(p, channels) + before[i * channels + channels..]
    ensures ps' == ps + [p]
    ensures after == Flatten(ps', channels) + bytes0[(i + 1) * channels..]
  {
    ps' := ps + [p];
    assert ps'[..|ps'| - 1] == ps;
    var f := Flatten(ps, channels);
    assert before[..i * channels] == f;
    assert before[i * channels + channels..] == bytes0[(i + 1) * channels..];
  }
}
