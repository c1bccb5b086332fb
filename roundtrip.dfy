/** Decoding what the encoder writes. The chunks that process_pixel emits
    for a run of pixels, followed by the trailing run and the end marker,
    read back as exactly those pixels, provided the trailing run is
    drained whenever one is pending. Drain as written skips a pending run
    of one pixel, and then the decoder reads the end marker's first byte
    as an index chunk instead. */
module RoundTrip {
  import opened Consts
  import opened Pixels
  import opened Chunks
  import opened Codec
  import opened Decoder
  import Encoder

  // ----- what the decoder reads back from single chunks -----

  /** A chunk the encoder writes parses back as itself, with its own size,
      if a raw RGB chunk carries the previous pixel's alpha. */
  lemma ParseEncoded(c: Chunk, rest: seq<byte>, last: Pixel)
    requires WellFormed(c) && (c.Rgb? ==> c.a == last.a)
    ensures ParseChunk(Encode(c) + rest, last) == Ok((c, Size(c)))
    ensures (Encode(c) + rest)[Size(c)..] == rest
  {
    EncodeShape(c);
    match c
    case Rgb(r, g, b, a) =>
    case Rgba(r, g, b, a) =>
    case Index(i) => IndexLayout(i);
    case Diff(dr, dg, db) => DiffLayout(dr, dg, db);
    case Luma(dg, drDg, dbDg) => LumaLayout(dg, drDg, dbDg);
    case Run(run) => RunLayout(run);
  }

  /** Reading one pixel is one read step. */
  lemma ReadOne(r: ReaderState, input: seq<byte>)
    requires ReaderValid(r) && ReadStep(r, input).Ok?
    ensures var (r1, input1, p) := ReadStep(r, input).value;
            ReadPixels(r, input, 1) == Ok((r1, input1, [p]))
  {
    var (r1, input1, p) := ReadStep(r, input).value;
    assert ReadPixels(r, input, 0) == Ok((r, input, []));
    assert [] + [p] == [p];
  }

  /** Reading a + b pixels reads a, then b from where those left off. */
  lemma ReadThen(r: ReaderState, input: seq<byte>, a: nat, b: nat,
                 r1: ReaderState, input1: seq<byte>, xs: seq<Pixel>,
                 r2: ReaderState, input2: seq<byte>, ys: seq<Pixel>)
    requires ReaderValid(r) && ReaderValid(r1)
    requires ReadPixels(r, input, a) == Ok((r1, input1, xs))
    requires ReadPixels(r1, input1, b) == Ok((r2, input2, ys))
    ensures ReadPixels(r, input, a + b) == Ok((r2, input2, xs + ys))
  {
    ReadPixelsAdd(r, input, a, b);
  }

  /** The reader after a run chunk: the previous pixel is stored at its
      slot and nothing is owed. */
  function AfterRun(d: ReaderState): (d': ReaderState)
    requires ReaderValid(d)
    ensures ReaderValid(d') && d'.last == d.last && d'.run == 0
  {
    ReaderState(d.last, d.cache[Hash(d.last) := d.last], 0)
  }

  lemma CopiesCons(p: Pixel, k: nat)
    requires k > 0
    ensures [p] + Copies(p, k - 1) == Copies(p, k)
  {
  }

  /** A run chunk of length k yields k copies of the previous pixel and
      consumes exactly its one byte. */
  lemma RunDecodes(d: ReaderState, k: nat, rest: seq<byte>)
    requires ReaderValid(d) && d.run == 0 && 1 <= k <= MAX_RUN_LENGTH
    ensures ReadPixels(d, Encode(RunOf(k)) + rest, k) == Ok((AfterRun(d), rest, Copies(d.last, k)))
  {
    var input := Encode(RunOf(k)) + rest;
    ParseEncoded(RunOf(k), rest, d.last);
    RunLengthOf(k);
    var d1 := AfterRun(d).(run := k - 1);
    assert ReadStep(d, input) == Ok((d1, rest, d.last));
    ReadOne(d, input);
    Countdown(d1, rest, k - 1);
    ReadThen(d, input, 1, k - 1, d1, rest, [d.last], AfterRun(d), rest, Copies(d.last, k - 1));
    CopiesCons(d.last, k);
  }

  // ----- what the encoder and the decoder keep in step -----

  /** The bytes of a list of emitted chunks. */
  function ChunkBytes(out: seq<ChunkState>): seq<byte>
    requires Encoder.AllWellFormed(out)
  {
    Encoder.Serialize(Encoder.ChunksOf(out))
  }

  /** The two caches agree on every slot that holds a pixel of its own
      hash in the encoder. Other slots (the fresh (0,0,0,0) pixels of slots
      other than 0, a slot the decoder refilled while reading a run) are
      never named by an index chunk the encoder emits. */
  predicate Agrees(s: State, d: ReaderState)
    requires Valid(s) && ReaderValid(d)
  {
    && s.last == d.last
    && forall h | 0 <= h < SEEN_PIXEL_ARRAY_SIZE :: s.cache[h] == d.cache[h] || Hash(s.cache[h]) != h
  }

  /** The slot of the previous pixel holds that pixel, or a pixel of some
      other slot: what lets the decoder store the previous pixel again when
      it reads a run chunk. */
  predicate LastCached(s: State)
    requires Valid(s)
  {
    var h := Hash(s.last);
    s.cache[h] == s.last || Hash(s.cache[h]) != h
  }

  /** The pixels in a 3-channel buffer are opaque. */
  predicate AlphaFits(ps: seq<Pixel>, channels: nat) {
    channels == RGBA_CHANNELS || forall i | 0 <= i < |ps| :: ps[i].a == 255
  }

  /** The last `s.run` pixels are the pending run of the previous pixel. */
  predicate Pending(s: State, ps: seq<Pixel>) {
    s.run <= |ps| && forall i | |ps| - s.run <= i < |ps| :: ps[i] == s.last
  }

  /** The state reached by encoding `ps`, against a reader that has read
      every pixel but the pending run. */
  predicate InStep(s: State, d: ReaderState, ps: seq<Pixel>, channels: nat)
  {
    && Valid(s) && ReaderValid(d) && d.run == 0
    && Agrees(s, d) && LastCached(s) && Pending(s, ps)
    && (channels == RGB_CHANNELS ==> s.last.a == 255)
  }

  /** Re-storing the previous pixel, as a run chunk makes the decoder do,
      keeps the caches in agreement. */
  lemma AfterRunAgrees(s: State, d: ReaderState)
    requires Valid(s) && ReaderValid(d) && Agrees(s, d) && LastCached(s)
    ensures Agrees(s, AfterRun(d))
  {
  }

  /** A prefix followed by copies of the value of every later element is
      the whole sequence. */
  lemma PendingRestores(ps: seq<Pixel>, v: Pixel, n: nat)
    requires n <= |ps| && forall i | n <= i < |ps| :: ps[i] == v
    ensures ps[..n] + Copies(v, |ps| - n) == ps
  {
  }

  /** The chunk process_pixel ends with when the pixel differs from the
      previous one: an index chunk on a hit, else the miss chunk. */
  function PixelChunk(s: State, p: Pixel, channels: nat): (c: Chunk)
    requires Valid(s)
    ensures WellFormed(c) && !c.Run?
  {
    if s.cache[Hash(p)] == p then Index(Hash(p) as byte) else MissChunk(s.last, p, channels)
  }

  /** A pixel that differs from the previous one closes the pending run
      with its run chunk, then comes out as PixelChunk; either way its slot
      holds it afterwards and the run is reset. */
  lemma ClosingShape(s: State, p: Pixel, channels: nat)
    requires Valid(s) && p != s.last
    ensures var (s2, out) := ProcessPixel(s, p, channels);
      && out == (if s.run > 0 then [Resolved(RunOf(s.run))] else []) + [Resolved(PixelChunk(s, p, channels))]
      && s2.last == p && s2.cache == s.cache[Hash(p) := p] && s2.run == 0
  {
    if s.cache[Hash(p)] == p {
      assert s.cache[Hash(p) := p] == s.cache;
    }
  }

  /** The decoder reads PixelChunk back as the pixel, when the caches agree
      and a raw RGB chunk's alpha is the previous pixel's. */
  lemma ChunkStep(s: State, d: ReaderState, p: Pixel, channels: nat, rest: seq<byte>)
    requires Valid(s) && ReaderValid(d) && d.run == 0 && Agrees(s, d) && p != s.last
    requires channels == RGB_CHANNELS ==> s.last.a == 255 && p.a == 255
    ensures ReadStep(d, Encode(PixelChunk(s, p, channels)) + rest)
            == Ok((ReaderState(p, d.cache[Hash(p) := p], 0), rest, p))
  {
    var c := PixelChunk(s, p, channels);
    if c.Rgb? {
      assert RawPixel(c) == p;
    }
    ParseEncoded(c, rest, d.last);
    match c
    case Index(i) =>
      assert d.cache[Hash(p)] == p;
    case Diff(_, _, _) =>
      DiffRoundTrip(s.last, p);
    case Luma(_, _, _) =>
      assert TryDiff(s.last, p).None?;
      LumaRoundTrip(s.last, p);
    case Rgb(_, _, _, _) =>
    case Rgba(_, _, _, _) =>
  }

  // ----- bytes of chunk lists -----

  lemma ChunksOfAppend(xs: seq<ChunkState>, ys: seq<ChunkState>)
    ensures Encoder.ChunksOf(xs + ys) == Encoder.ChunksOf(xs) + Encoder.ChunksOf(ys)
  {
  }

  lemma ChunkBytesAppend(xs: seq<ChunkState>, ys: seq<ChunkState>)
    requires Encoder.AllWellFormed(xs) && Encoder.AllWellFormed(ys)
    ensures Encoder.AllWellFormed(xs + ys)
    ensures ChunkBytes(xs + ys) == ChunkBytes(xs) + ChunkBytes(ys)
  {
    ChunksOfAppend(xs, ys);
    Encoder.SerializeAppend(Encoder.ChunksOf(xs), Encoder.ChunksOf(ys));
  }

  /** The bytes of the chunks one pixel emits: none, one or two chunks. */
  lemma ChunkBytesSmall(a: Chunk, b: Chunk)
    requires WellFormed(a) && WellFormed(b)
    ensures ChunkBytes([]) == []
    ensures ChunkBytes([Resolved(a)]) == Encode(a)
    ensures ChunkBytes([Resolved(a), Resolved(b)]) == Encode(a) + Encode(b)
  {
    assert Encoder.ChunksOf([Resolved(a)]) == [a];
    assert Encoder.ChunksOf([Resolved(a), Resolved(b)]) == [a, b];
    assert Encoder.Serialize([a]) == Encoder.Serialize([]) + Encode(a);
    assert [a, b][..1] == [a];
  }

  // ----- one pixel at a time -----

  /** A repeat below the cap: nothing is written and nothing more is read. */
  lemma ExtendStep(s: State, d: ReaderState, ps: seq<Pixel>, p: Pixel, channels: nat)
    requires InStep(s, d, ps, channels) && p == s.last && s.run < MAX_RUN_LENGTH
    ensures var (s2, out) := ProcessPixel(s, p, channels);
      && out == [] && InStep(s2, d, ps + [p], channels)
      && (ps + [p])[..|ps| + 1 - s2.run] == ps[..|ps| - s.run]
  {
    RepeatExtendsRun(s, p, channels);
  }

  /** A repeat at the cap: the full run chunk is written, the reader
      catches up with every pending pixel, and the new pixel is pending. */
  lemma CapStep(s: State, d: ReaderState, ps: seq<Pixel>, p: Pixel, channels: nat,
                prefix: seq<byte>, rest: seq<byte>)
    requires InStep(s, d, ps, channels) && p == s.last && s.run == MAX_RUN_LENGTH
    requires ReadPixels(Fresh(), prefix + (Encode(RunOf(s.run)) + rest), |ps| - s.run)
             == Ok((d, Encode(RunOf(s.run)) + rest, ps[..|ps| - s.run]))
    ensures var (s2, out) := ProcessPixel(s, p, channels);
      && out == [Resolved(RunOf(s.run))] && s2.run == 1
      && InStep(s2, AfterRun(d), ps + [p], channels)
      && ReadPixels(Fresh(), prefix + Encode(RunOf(s.run)) + rest, |ps|)
         == Ok((AfterRun(d), rest, (ps + [p])[..|ps|]))
  {
    PendingRunClosesFirst(s, p, channels);
    var n, k := |ps| - s.run, s.run;
    RunDecodes(d, k, rest);
    ReadThen(Fresh(), prefix + (Encode(RunOf(k)) + rest), n, k,
             d, Encode(RunOf(k)) + rest, ps[..n], AfterRun(d), rest, Copies(d.last, k));
    PendingRestores(ps, s.last, n);
    assert prefix + (Encode(RunOf(k)) + rest) == prefix + Encode(RunOf(k)) + rest;
    assert (ps + [p])[..|ps|] == ps;
    AfterRunAgrees(s, d);
  }

  /** The bytes of the run chunk that closes a pending run, if any. */
  function Closing(run: nat): seq<byte>
    requires run <= MAX_RUN_LENGTH
  {
    if run > 0 then Encode(RunOf(run)) else []
  }

  /** The closing run chunk, if any, then one more chunk: the run's
      copies of the previous pixel, then the chunk's pixel. */
  lemma RunThenChunk(d: ReaderState, k: nat, tail: seq<byte>, d2: ReaderState, rest: seq<byte>, p: Pixel)
    requires ReaderValid(d) && d.run == 0 && k <= MAX_RUN_LENGTH
    requires ReadStep(if k > 0 then AfterRun(d) else d, tail) == Ok((d2, rest, p))
    ensures ReadPixels(d, Closing(k) + tail, k + 1) == Ok((d2, rest, Copies(d.last, k) + [p]))
  {
    if k > 0 {
      RunThenOne(d, k, tail, d2, rest, p);
    } else {
      ReadOne(d, tail);
      assert Closing(k) + tail == tail;
    }
  }

  lemma RunThenOne(d: ReaderState, k: nat, tail: seq<byte>, d2: ReaderState, rest: seq<byte>, p: Pixel)
    requires ReaderValid(d) && d.run == 0 && 0 < k <= MAX_RUN_LENGTH
    requires ReadStep(AfterRun(d), tail) == Ok((d2, rest, p))
    ensures ReadPixels(d, Encode(RunOf(k)) + tail, k + 1) == Ok((d2, rest, Copies(d.last, k) + [p]))
  {
    RunDecodes(d, k, tail);
    ReadOne(AfterRun(d), tail);
    ReadThen(d, Encode(RunOf(k)) + tail, k, 1, AfterRun(d), tail, Copies(d.last, k), d2, rest, [p]);
  }

  lemma Associative(a: seq<byte>, b: seq<byte>, c: seq<byte>)
    ensures a + b + c == a + (b + c)
  {
  }

  /** The reader, level with all but the pending run, catches up with
      the run and the pixel after it. */
  lemma CatchUp(input: seq<byte>, ps: seq<Pixel>, k: nat, d: ReaderState, tail: seq<byte>,
                d2: ReaderState, rest: seq<byte>, p: Pixel)
    requires ReaderValid(d) && d.run == 0 && k <= MAX_RUN_LENGTH && k <= |ps|
    requires forall i | |ps| - k <= i < |ps| :: ps[i] == d.last
    requires ReadPixels(Fresh(), input, |ps| - k) == Ok((d, Closing(k) + tail, ps[..|ps| - k]))
    requires ReadPixels(d, Closing(k) + tail, k + 1) == Ok((d2, rest, Copies(d.last, k) + [p]))
    ensures ReadPixels(Fresh(), input, |ps| + 1) == Ok((d2, rest, ps + [p]))
  {
    PendingThen(ps, d.last, k, p);
    ReadThenAt(Fresh(), input, |ps| - k, k + 1, |ps| + 1, d, Closing(k) + tail, ps[..|ps| - k],
               d2, rest, Copies(d.last, k) + [p], ps + [p]);
  }

  /** The last k pixels, all equal to v, are k copies of v. */
  lemma PendingTail(ps: seq<Pixel>, v: Pixel, k: nat)
    requires k <= |ps| && forall i | |ps| - k <= i < |ps| :: ps[i] == v
    ensures ps[..|ps| - k] + Copies(v, k) == ps
  {
    PendingRestores(ps, v, |ps| - k);
  }

  lemma PendingThen(ps: seq<Pixel>, v: Pixel, k: nat, p: Pixel)
    requires k <= |ps| && forall i | |ps| - k <= i < |ps| :: ps[i] == v
    ensures ps[..|ps| - k] + (Copies(v, k) + [p]) == ps + [p]
  {
    PendingTail(ps, v, k);
  }

  /** `ReadThen` with the total count and the joined pixels named. */
  lemma ReadThenAt(r: ReaderState, input: seq<byte>, a: nat, b: nat, c: nat,
                   r1: ReaderState, input1: seq<byte>, xs: seq<Pixel>,
                   r2: ReaderState, input2: seq<byte>, ys: seq<Pixel>, zs: seq<Pixel>)
    requires ReaderValid(r) && ReaderValid(r1) && a + b == c && xs + ys == zs
    requires ReadPixels(r, input, a) == Ok((r1, input1, xs))
    requires ReadPixels(r1, input1, b) == Ok((r2, input2, ys))
    ensures ReadPixels(r, input, c) == Ok((r2, input2, zs))
  {
    ReadThen(r, input, a, b, r1, input1, xs, r2, input2, ys);
  }

  /** After the pending run, the chunk of a pixel that differs from the
      previous one reads back as that pixel, and the caches still agree. */
  lemma ClosingState(s: State, d: ReaderState, ps: seq<Pixel>, p: Pixel, channels: nat, rest: seq<byte>)
    returns (d2: ReaderState)
    requires InStep(s, d, ps, channels) && p != s.last
    requires channels == RGB_CHANNELS ==> p.a == 255
    ensures InStep(s.(last := p, cache := s.cache[Hash(p) := p], run := 0), d2, ps + [p], channels)
    ensures ReadStep(if s.run > 0 then AfterRun(d) else d, Encode(PixelChunk(s, p, channels)) + rest)
            == Ok((d2, rest, p))
  {
    var d1 := if s.run > 0 then AfterRun(d) else d;
    if s.run > 0 {
      AfterRunAgrees(s, d);
    }
    ChunkStep(s, d1, p, channels, rest);
    d2 := ReaderState(p, d1.cache[Hash(p) := p], 0);
  }

  /** A pixel that differs from the previous one: the reader catches up
      with the pending run, then reads the pixel back from its chunk. */
  lemma ClosingStep(s: State, d: ReaderState, ps: seq<Pixel>, p: Pixel, channels: nat,
                    prefix: seq<byte>, rest: seq<byte>) returns (d2: ReaderState)
    requires InStep(s, d, ps, channels) && p != s.last
    requires channels == RGB_CHANNELS ==> p.a == 255
    requires var tail := Closing(s.run) + Encode(PixelChunk(s, p, channels)) + rest;
             ReadPixels(Fresh(), prefix + tail, |ps| - s.run) == Ok((d, tail, ps[..|ps| - s.run]))
    ensures InStep(s.(last := p, cache := s.cache[Hash(p) := p], run := 0), d2, ps + [p], channels)
    ensures ReadPixels(Fresh(), prefix + Closing(s.run) + Encode(PixelChunk(s, p, channels)) + rest, |ps| + 1)
            == Ok((d2, rest, ps + [p]))
  {
    var cb := Encode(PixelChunk(s, p, channels));
    d2 := ClosingState(s, d, ps, p, channels, rest);
    Associative(Closing(s.run), cb, rest);
    RunThenChunk(d, s.run, cb + rest, d2, rest, p);
    CatchUp(prefix + (Closing(s.run) + (cb + rest)), ps, s.run, d, cb + rest, d2, rest, p);
    Regroup(prefix, Closing(s.run), cb, rest);
  }

  lemma Regroup(a: seq<byte>, b: seq<byte>, c: seq<byte>, e: seq<byte>)
    ensures a + (b + (c + e)) == a + b + c + e
  {
  }

  /** The bytes of the chunks process_pixel emits for a pixel that
      differs from the previous one. */
  lemma ClosingBytes(s: State, p: Pixel, channels: nat)
    requires Valid(s) && p != s.last
    ensures var (s2, out) := ProcessPixel(s, p, channels);
      && ChunkBytes(out) == Closing(s.run) + Encode(PixelChunk(s, p, channels))
      && s2 == s.(last := p, cache := s.cache[Hash(p) := p], run := 0, modified := s2.modified)
  {
    ClosingShape(s, p, channels);
    var c := PixelChunk(s, p, channels);
    if s.run > 0 {
      ChunkBytesSmall(RunOf(s.run), c);
    } else {
      ChunkBytesSmall(c, c);
      assert [] + [Resolved(c)] == [Resolved(c)];
    }
  }

  /** The state and the reading one pixel more reaches, as PixelStep
      promises. */
  predicate Stepped(s: State, d2: ReaderState, ps: seq<Pixel>, p: Pixel, channels: nat,
                    prefix: seq<byte>, rest: seq<byte>)
    requires Valid(s)
  {
    var (s2, out) := ProcessPixel(s, p, channels);
    && InStep(s2, d2, ps + [p], channels)
    && |ps| + 1 - s2.run >= 0
    && ReadPixels(Fresh(), prefix + ChunkBytes(out) + rest, |ps| + 1 - s2.run)
       == Ok((d2, rest, (ps + [p])[..|ps| + 1 - s2.run]))
  }

  /** What the reader has read before the pixel, as PixelStep requires. */
  predicate ReadBefore(s: State, d: ReaderState, ps: seq<Pixel>, p: Pixel, channels: nat,
                       prefix: seq<byte>, rest: seq<byte>)
    requires Valid(s) && s.run <= |ps|
  {
    var tail := ChunkBytes(ProcessPixel(s, p, channels).1) + rest;
    ReadPixels(Fresh(), prefix + tail, |ps| - s.run) == Ok((d, tail, ps[..|ps| - s.run]))
  }

  lemma ExtendCase(s: State, d: ReaderState, ps: seq<Pixel>, p: Pixel, channels: nat,
                   prefix: seq<byte>, rest: seq<byte>)
    requires InStep(s, d, ps, channels) && p == s.last && s.run < MAX_RUN_LENGTH
    requires ReadBefore(s, d, ps, p, channels, prefix, rest)
    ensures Stepped(s, d, ps, p, channels, prefix, rest)
  {
    ExtendStep(s, d, ps, p, channels);
    ChunkBytesSmall(RunOf(1), RunOf(1));
    assert [] + rest == rest;
    assert prefix + [] == prefix;
  }

  lemma CapCase(s: State, d: ReaderState, ps: seq<Pixel>, p: Pixel, channels: nat,
                prefix: seq<byte>, rest: seq<byte>)
    requires InStep(s, d, ps, channels) && p == s.last && s.run == MAX_RUN_LENGTH
    requires ReadBefore(s, d, ps, p, channels, prefix, rest)
    ensures Stepped(s, AfterRun(d), ps, p, channels, prefix, rest)
  {
    PendingRunClosesFirst(s, p, channels);
    ChunkBytesSmall(RunOf(s.run), RunOf(s.run));
    CapStep(s, d, ps, p, channels, prefix, rest);
  }

  lemma CloseCase(s: State, d: ReaderState, ps: seq<Pixel>, p: Pixel, channels: nat,
                  prefix: seq<byte>, rest: seq<byte>) returns (d2: ReaderState)
    requires InStep(s, d, ps, channels) && p != s.last
    requires channels == RGB_CHANNELS ==> p.a == 255
    requires ReadBefore(s, d, ps, p, channels, prefix, rest)
    ensures Stepped(s, d2, ps, p, channels, prefix, rest)
  {
    var (s2, out) := ProcessPixel(s, p, channels);
    var c := Encode(PixelChunk(s, p, channels));
    ClosingBytes(s, p, channels);
    d2 := ClosingStep(s, d, ps, p, channels, prefix, rest);
    InStepIgnoresMask(s.(last := p, cache := s.cache[Hash(p) := p], run := 0), s2, d2, ps + [p], channels);
    Associative(prefix, Closing(s.run), c);
    assert (ps + [p])[..|ps| + 1] == ps + [p];
  }

  /** InStep does not look at the mask. */
  lemma InStepIgnoresMask(s: State, t: State, d: ReaderState, ps: seq<Pixel>, channels: nat)
    requires InStep(s, d, ps, channels) && Valid(t)
    requires t.last == s.last && t.cache == s.cache && t.run == s.run
    ensures InStep(t, d, ps, channels)
  {
  }

  /** One pixel more: the encoder's new state stays in step with the
      reader, which reads every pixel the new chunks complete. */
  lemma PixelStep(s: State, d: ReaderState, ps: seq<Pixel>, p: Pixel, channels: nat,
                  prefix: seq<byte>, rest: seq<byte>) returns (d2: ReaderState)
    requires InStep(s, d, ps, channels)
    requires channels == RGB_CHANNELS ==> p.a == 255
    requires ReadBefore(s, d, ps, p, channels, prefix, rest)
    ensures Stepped(s, d2, ps, p, channels, prefix, rest)
  {
    if p == s.last && s.run < MAX_RUN_LENGTH {
      ExtendCase(s, d, ps, p, channels, prefix, rest);
      d2 := d;
    } else if p == s.last {
      CapCase(s, d, ps, p, channels, prefix, rest);
      d2 := AfterRun(d);
    } else {
      d2 := CloseCase(s, d, ps, p, channels, prefix, rest);
    }
  }

  // ----- the whole run of pixels -----

  /** A fresh encoder and a fresh reader are in step: the caches are
      equal, and the default previous pixel (0,0,0,255) hashes to slot 53,
      which holds (0,0,0,0) of slot 0. */
  lemma FreshInStep(channels: nat)
    ensures InStep(New(), Fresh(), [], channels)
  {
    assert Hash(DEFAULT_PIXEL) == 53;
    assert Hash(ZERO_PIXEL) == 0;
  }

  /** The state and chunks `r` that encoding `ps` reached are in step
      with reader `d`, which has read every pixel but the pending run from
      the chunks' bytes, followed by `rest`. */
  predicate InvariantAt(r: (State, seq<ChunkState>), ps: seq<Pixel>, channels: nat, d: ReaderState, rest: seq<byte>)
  {
    && InStep(r.0, d, ps, channels)
    && Encoder.AllWellFormed(r.1)
    && ReadPixels(Fresh(), ChunkBytes(r.1) + rest, |ps| - r.0.run) == Ok((d, rest, ps[..|ps| - r.0.run]))
  }

  /** The chunks of one more pixel appended to what was written. */
  lemma AppendStep(s1: State, out1: seq<ChunkState>, d1: ReaderState, init: seq<Pixel>, p: Pixel,
                   channels: nat, rest: seq<byte>) returns (d: ReaderState)
    requires InStep(s1, d1, init, channels) && Encoder.AllWellFormed(out1)
    requires channels == RGB_CHANNELS ==> p.a == 255
    requires ReadBefore(s1, d1, init, p, channels, ChunkBytes(out1), rest)
    ensures var r2 := ProcessPixel(s1, p, channels);
      InvariantAt((r2.0, out1 + r2.1), init + [p], channels, d, rest)
  {
    var r2 := ProcessPixel(s1, p, channels);
    d := PixelStep(s1, d1, init, p, channels, ChunkBytes(out1), rest);
    assert Stepped(s1, d, init, p, channels, ChunkBytes(out1), rest);
    AppendBytes(r2.0, r2.1, out1, d, init + [p], channels, rest);
  }

  /** The bytes of the earlier chunks and of the new ones, read together,
      are the bytes of the joined chunk list. */
  lemma AppendBytes(s2: State, out: seq<ChunkState>, out1: seq<ChunkState>, d: ReaderState, ps: seq<Pixel>,
                    channels: nat, rest: seq<byte>)
    requires InStep(s2, d, ps, channels) && Encoder.AllWellFormed(out1) && Encoder.AllWellFormed(out)
    requires s2.run <= |ps|
    requires ReadPixels(Fresh(), ChunkBytes(out1) + ChunkBytes(out) + rest, |ps| - s2.run)
             == Ok((d, rest, ps[..|ps| - s2.run]))
    ensures InvariantAt((s2, out1 + out), ps, channels, d, rest)
  {
    ChunkBytesAppend(out1, out);
  }

  /** Encoding `ps` from a fresh state leaves the encoder in step with
      reader `d`, as InvariantAt says. */
  predicate ReadsBack(ps: seq<Pixel>, channels: nat, d: ReaderState, rest: seq<byte>)
  {
    InvariantAt(Encoder.EncodePixels(New(), ps, channels), ps, channels, d, rest)
  }

  /** ReadsBack for one more pixel, from ReadsBack for the ones before it. */
  lemma SnocReadsBack(init: seq<Pixel>, p: Pixel, channels: nat, rest: seq<byte>, d1: ReaderState)
    returns (d: ReaderState)
    requires channels == RGB_CHANNELS ==> p.a == 255
    requires var s1 := Encoder.EncodePixels(New(), init, channels).0;
             ReadsBack(init, channels, d1, ChunkBytes(ProcessPixel(s1, p, channels).1) + rest)
    ensures ReadsBack(init + [p], channels, d, rest)
  {
    var r1 := Encoder.EncodePixels(New(), init, channels);
    Encoder.EncodePixelsSnoc(New(), init, p, channels);
    d := AppendStep(r1.0, r1.1, d1, init, p, channels, rest);
  }

  /** Encoding `ps` from a fresh state: the bytes written so far, followed
      by anything at all, read back as every pixel but the pending run,
      with the reader in step with the encoder. */
  lemma {:induction false} EncodedReadsBack(ps: seq<Pixel>, channels: nat, rest: seq<byte>)
    returns (d: ReaderState)
    requires channels == RGB_CHANNELS || channels == RGBA_CHANNELS
    requires AlphaFits(ps, channels)
    ensures ReadsBack(ps, channels, d, rest)
    decreases |ps|
  {
    if ps == [] {
      d := Fresh();
      NothingWritten(channels, rest);
    } else {
      var init, p := ps[..|ps| - 1], ps[|ps| - 1];
      assert ps == init + [p];
      assert AlphaFits(init, channels);
      var s1 := Encoder.EncodePixels(New(), init, channels).0;
      var d1 := EncodedReadsBack(init, channels, ChunkBytes(ProcessPixel(s1, p, channels).1) + rest);
      d := SnocReadsBack(init, p, channels, rest, d1);
    }
  }

  lemma NothingWritten(channels: nat, rest: seq<byte>)
    ensures ReadsBack([], channels, Fresh(), rest)
  {
    FreshInStep(channels);
    ChunkBytesSmall(RunOf(1), RunOf(1));
    assert [] + rest == rest;
  }

  // ----- draining the pending run -----

  /** The corrected drain: the trailing run chunk for every pending run,
      a run of one pixel included. */
  function DrainFixed(s: State): (r: Option<ChunkState>)
    requires Valid(s)
    ensures r.Some? <==> s.run > 0
    ensures r.Some? ==> r.value.Resolved? && r.value.chunk.Run? && RunLength(r.value.chunk) == s.run
  {
    if s.run > 0 then Some(Resolved(RunOf(s.run))) else None
  }

  /** The bytes of the corrected drain. */
  function DrainedFixed(s: State): seq<byte>
    requires Valid(s)
  {
    match DrainFixed(s)
    case Some(cs) => Encode(cs.chunk)
    case None => []
  }

  /** Encoding a run of pixels in one piece with the corrected drain: the
      chunks, the trailing run and the end marker. */
  function EncodeFixed(ps: seq<Pixel>, channels: nat): seq<byte>
  {
    var (s, out) := Encoder.EncodePixels(New(), ps, channels);
    ChunkBytes(out) + DrainedFixed(s) + Encoder.END_MARKER
  }

  /** Drain as written and the corrected drain differ exactly on a pending
      run of one pixel. */
  lemma DrainsDifferOnlyOnOne(s: State)
    requires Valid(s)
    ensures Encoder.Drained(s) == DrainedFixed(s) <==> s.run != 1
  {
    if s.run == 1 {
      RunLengthOf(1);
      assert DrainedFixed(s) == [0xC0];
    }
  }

  /** Reading the corrected trailing run: the reader catches up with the
      pending pixels and stops at what follows. */
  lemma DrainReads(bytes: seq<byte>, run: nat, ps: seq<Pixel>, d: ReaderState, marker: seq<byte>)
    requires ReaderValid(d) && d.run == 0 && run <= MAX_RUN_LENGTH && run <= |ps|
    requires forall i | |ps| - run <= i < |ps| :: ps[i] == d.last
    requires ReadPixels(Fresh(), bytes + (Closing(run) + marker), |ps| - run)
             == Ok((d, Closing(run) + marker, ps[..|ps| - run]))
    ensures ReadPixels(Fresh(), bytes + (Closing(run) + marker), |ps|)
            == Ok((if run > 0 then AfterRun(d) else d, marker, ps))
  {
    if run > 0 {
      TrailingRunReads(bytes + (Closing(run) + marker), run, ps, d, marker);
    } else {
      NoTrailingRun(bytes + (Closing(run) + marker), run, ps, d, marker);
    }
  }

  /** With no pending run the reader has read every pixel already. */
  lemma NoTrailingRun(input: seq<byte>, run: nat, ps: seq<Pixel>, d: ReaderState, marker: seq<byte>)
    requires ReaderValid(d) && run == 0
    requires ReadPixels(Fresh(), input, |ps| - run) == Ok((d, Closing(run) + marker, ps[..|ps| - run]))
    ensures ReadPixels(Fresh(), input, |ps|) == Ok((d, marker, ps))
  {
    assert ps[..|ps| - run] == ps;
    assert Closing(run) + marker == marker;
  }

  lemma TrailingRunReads(input: seq<byte>, run: nat, ps: seq<Pixel>, d: ReaderState, marker: seq<byte>)
    requires ReaderValid(d) && d.run == 0 && 0 < run <= MAX_RUN_LENGTH && run <= |ps|
    requires forall i | |ps| - run <= i < |ps| :: ps[i] == d.last
    requires ReadPixels(Fresh(), input, |ps| - run) == Ok((d, Closing(run) + marker, ps[..|ps| - run]))
    ensures ReadPixels(Fresh(), input, |ps|) == Ok((AfterRun(d), marker, ps))
  {
    assert Closing(run) == Encode(RunOf(run));
    RunDecodes(d, run, marker);
    PendingTail(ps, d.last, run);
    ReadThenAt(Fresh(), input, |ps| - run, run, |ps|, d, Encode(RunOf(run)) + marker, ps[..|ps| - run],
               AfterRun(d), marker, Copies(d.last, run), ps);
  }

  lemma DrainedIsClosing(s: State)
    requires Valid(s)
    ensures DrainedFixed(s) == Closing(s.run)
  {
  }

  /** The corrected encoding reads back as exactly the pixels encoded, and
      the reader stops right at the end marker. */
  lemma PixelsRoundTrip(ps: seq<Pixel>, channels: nat)
    requires channels == RGB_CHANNELS || channels == RGBA_CHANNELS
    requires AlphaFits(ps, channels)
    ensures var res := ReadPixels(Fresh(), EncodeFixed(ps, channels), |ps|);
      res.Ok? && res.value.1 == Encoder.END_MARKER && res.value.2 == ps
  {
    var (s, out) := Encoder.EncodePixels(New(), ps, channels);
    DrainedIsClosing(s);
    var d := EncodedReadsBack(ps, channels, DrainedFixed(s) + Encoder.END_MARKER);
    DrainReads(ChunkBytes(out), s.run, ps, d, Encoder.END_MARKER);
    Associative(ChunkBytes(out), DrainedFixed(s), Encoder.END_MARKER);
  }

  /** `encode` with one segment, as written, reads back whenever the final
      run is not a single pixel: then its drain is the corrected one. */
  lemma SingleSegmentRoundTrip(buf: seq<byte>, channels: nat)
    requires channels == RGB_CHANNELS || channels == RGBA_CHANNELS
    requires |buf| > 0 && |buf| % channels == 0
    requires Encoder.SegmentChunks(buf, channels).1.run != 1
    ensures var res := ReadPixels(Fresh(), Encoder.EncodeSegments(buf, channels, 1).bytes, |buf| / channels);
            res.Ok? && res.value.1 == Encoder.END_MARKER && res.value.2 == Encoder.PixelsOf(buf, channels)
  {
    var ps := Encoder.PixelsOf(buf, channels);
    Encoder.OneSegment(buf, channels);
    DrainsDifferOnlyOnOne(Encoder.SegmentChunks(buf, channels).1);
    assert AlphaFits(ps, channels) by {
      if channels == RGB_CHANNELS {
        forall i | 0 <= i < |ps| ensures ps[i].a == 255 {
          assert ps[i] == Encoder.PixelAt(buf, i, channels);
        }
      }
    }
    PixelsRoundTrip(ps, channels);
  }
}

