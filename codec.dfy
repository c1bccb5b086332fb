/** The codec state of codec.rs: the previous pixel, the 64-slot cache of
    previously seen pixels, the pending run, and the mask of cache slots this
    state wrote itself. The pure functions below say what each operation
    does to a state value; the class QoiCodecState updates the same state in
    place and is proved to follow them. */
module Codec {
  import opened Consts
  import opened Pixels
  import opened Chunks

  /** A chunk the encoder emits, with whether its bytes are final. The codec
      reports a bool; `true` is taken to mean Resolved, and Unresolved keeps
      the pixel the raw chunk stands for. */
  datatype ChunkState = Resolved(chunk: Chunk) | Unresolved(chunk: Chunk, pixel: Pixel)

  /** The 64-bit `modified` mask is kept as the set of its one-bits:
      `m |= 1 << h` adds h, `m & (1 << h) > 0` tests h, `m |= n` is union. */
  datatype State = State(last: Pixel, cache: seq<Pixel>, run: nat, modified: set<nat>)

  predicate Valid(s: State) {
    && |s.cache| == SEEN_PIXEL_ARRAY_SIZE
    && s.run <= MAX_RUN_LENGTH
    && forall i | i in s.modified :: i < SEEN_PIXEL_ARRAY_SIZE
  }

  /** A fresh state: previous pixel (0,0,0,255), every slot (0,0,0,0), no
      run, nothing modified. */
  function New(): (s: State)
    ensures Valid(s)
  {
    State(DEFAULT_PIXEL, seq(SEEN_PIXEL_ARRAY_SIZE, _ => ZERO_PIXEL), 0, {})
  }

  predicate IsModified(s: State, h: nat) {
    h in s.modified
  }

  /** Raw chunks are resolved when the slot of their pixel is marked as
      modified by this state; every other chunk is resolved. */
  predicate IsResolved(s: State, c: Chunk) {
    if c.Rgb? || c.Rgba? then IsModified(s, Hash(RawPixel(c))) else true
  }

  /** The chunk chosen after a cache miss: a small diff, else a luma diff,
      else a raw dump, RGBA only when alpha changed in a 4-channel stream. */
  function MissChunk(last: Pixel, p: Pixel, channels: nat): (c: Chunk)
    ensures WellFormed(c)
    ensures c.Rgba? ==> p.a != last.a && channels != RGB_CHANNELS
    ensures (c.Rgb? || c.Rgba?) ==> RawPixel(c) == p
  {
    match TryDiff(last, p)
    case Some(d) => d
    case None =>
      match TryLuma(last, p)
      case Some(l) => l
      case None => if p.a == last.a || channels == RGB_CHANNELS then RgbOf(p) else RgbaOf(p)
  }

  /** The common tail of every path of process_pixel: tag the chunk, if
      any, and record the pixel as the previous one. */
  function Cleanup(s: State, chunks: seq<ChunkState>, chunk: Option<Chunk>, p: Pixel): (res: (State, seq<ChunkState>))
  {
    var out := if chunk.None? then chunks
               else if IsResolved(s, chunk.value) then chunks + [Resolved(chunk.value)]
               else chunks + [Unresolved(chunk.value, p)];
    (s.(last := p), out)
  }

  /** Encoding one pixel: continue the run, or close it; then an index hit,
      or (after storing the pixel and marking its slot) a diff, a luma diff
      or a raw dump. */
  function ProcessPixel(s: State, p: Pixel, channels: nat): (res: (State, seq<ChunkState>))
    requires Valid(s)
    ensures Valid(res.0)
    ensures res.0.last == p && |res.1| <= 2
    ensures forall i | 0 <= i < SEEN_PIXEL_ARRAY_SIZE && i != Hash(p) :: res.0.cache[i] == s.cache[i]
    ensures res.0.cache[Hash(p)] in {s.cache[Hash(p)], p}
    ensures res.0.modified <= s.modified + {Hash(p)}
    ensures forall cs | cs in res.1 :: cs.Resolved? && WellFormed(cs.chunk)
  {
    var h := Hash(p);
    if p == s.last && s.run < MAX_RUN_LENGTH then
      Cleanup(s.(run := s.run + 1), [], None, p)
    else
      var closing := if s.run > 0 then [Resolved(RunOf(s.run))] else [];
      if s.run > 0 && p == s.last then
        Cleanup(s.(run := 1), closing, None, p)
      else
        var s1 := s.(run := 0);
        if s1.cache[h] == p then
          Cleanup(s1, closing, Some(Index(h as byte)), p)
        else
          var s2 := s1.(cache := s1.cache[h := p], modified := s1.modified + {h});
          Cleanup(s2, closing, Some(MissChunk(s.last, p, channels)), p)
  }

  /** The trailing run chunk, emitted only for a pending run longer than one. */
  function Drain(s: State): (r: Option<ChunkState>)
    requires Valid(s)
    ensures r.Some? <==> s.run > 1
    ensures r.Some? ==> r.value == Resolved(RunOf(s.run)) && RunLength(r.value.chunk) == s.run
  {
    if s.run > 1 then Some(Resolved(RunOf(s.run))) else None
  }

  /** Merging a later state into this one: its previous pixel and run
      verbatim, its cache slots only where its mask is set, and the union of
      the masks. */
  function Merge(s: State, other: State): (m: State)
    requires Valid(s) && Valid(other)
    ensures Valid(m)
  {
    State(other.last,
          seq(SEEN_PIXEL_ARRAY_SIZE, i requires 0 <= i < SEEN_PIXEL_ARRAY_SIZE =>
            if IsModified(other, i) then other.cache[i] else s.cache[i]),
          other.run,
          s.modified + other.modified)
  }

  /** The index chunk for a pixel the cache already holds at its slot. */
  function LookupPixel(s: State, p: Pixel): (r: Option<Chunk>)
    requires Valid(s)
    ensures r.Some? <==> s.cache[Hash(p)] == p
    ensures r.Some? ==> r.value == Index(Hash(p) as byte) && WellFormed(r.value)
  {
    if s.cache[Hash(p)] == p then Some(Index(Hash(p) as byte)) else None
  }

  /** The pixel a chunk stands for in this state: a run, a diff and a
      luma diff keep the previous pixel's alpha, a run is the previous
      pixel itself, and an index reads one of the cache slots. */
  function LookupChunk(s: State, c: Chunk): (r: Pixel)
    requires Valid(s) && WellFormed(c)
    ensures (c.Run? || c.Diff? || c.Luma?) ==> r.a == s.last.a
    ensures c.Run? ==> r == s.last
    ensures c.Index? ==> r in s.cache
  {
    match c
    case Rgb(_, _, _, _) => RawPixel(c)
    case Rgba(_, _, _, _) => RawPixel(c)
    case Run(_) => s.last
    case Luma(_, _, _) => ApplyLuma(s.last, c)
    case Diff(_, _, _) => ApplyDiff(s.last, c)
    case Index(i) => s.cache[i]
  }

  /** Decoding one chunk: a run repeats the previous pixel and leaves the
      state alone; any other chunk's pixel is cached at its slot and becomes
      the previous pixel. */
  function ProcessChunk(s: State, c: Chunk): (res: (State, Pixel, nat))
    requires Valid(s) && WellFormed(c)
    ensures Valid(res.0)
    ensures c.Run? ==> res == (s, s.last, RunLength(c))
    ensures !c.Run? ==> res.2 == 1 && res.0.last == res.1 && res.0.cache[Hash(res.1)] == res.1
    ensures !c.Run? ==> res.1 == LookupChunk(s, c) && res.0 == s.(last := res.1, cache := s.cache[Hash(res.1) := res.1])
  {
    if c.Run? then (s, s.last, RunLength(c))
    else
      var p := LookupChunk(s, c);
      (s.(last := p, cache := s.cache[Hash(p) := p]), p, 1)
  }

  // ----- what process_pixel promises, case by case -----

  /** A repeat of the previous pixel below the cap only lengthens the run. */
  lemma RepeatExtendsRun(s: State, p: Pixel, channels: nat)
    requires Valid(s) && p == s.last && s.run < MAX_RUN_LENGTH
    ensures ProcessPixel(s, p, channels) == (s.(run := s.run + 1), [])
  {
  }

  /** A pending run is closed by its run chunk, always first; a repeat at
      the cap emits only that chunk and restarts the run at one. */
  lemma PendingRunClosesFirst(s: State, p: Pixel, channels: nat)
    requires Valid(s) && s.run > 0 && !(p == s.last && s.run < MAX_RUN_LENGTH)
    ensures var (s', out) := ProcessPixel(s, p, channels);
      |out| >= 1 && out[0] == Resolved(RunOf(s.run))
      && (p == s.last ==> out == [Resolved(RunOf(MAX_RUN_LENGTH))] && s' == s.(run := 1))
      && (p != s.last ==> |out| == 2 && s'.run == 0)
  {
  }

  /** A pixel already in its slot is emitted as that index, and neither the
      cache nor the mask is written. */
  lemma CacheHitEmitsIndex(s: State, p: Pixel, channels: nat)
    requires Valid(s) && p != s.last && s.cache[Hash(p)] == p
    ensures var (s', out) := ProcessPixel(s, p, channels);
      out[|out| - 1] == Resolved(Index(Hash(p) as byte))
      && s'.cache == s.cache && s'.modified == s.modified
  {
  }

  /** Otherwise the pixel is stored at its slot, the slot is marked, and the
      chunk is a diff, else a luma diff, else a raw dump; a raw dump's slot
      is marked, so it always comes out resolved. */
  lemma CacheMissStoresPixel(s: State, p: Pixel, channels: nat)
    requires Valid(s) && p != s.last && s.cache[Hash(p)] != p
    ensures var (s', out) := ProcessPixel(s, p, channels);
      && s'.cache == s.cache[Hash(p) := p] && s'.modified == s.modified + {Hash(p)}
      && out[|out| - 1] == Resolved(MissChunk(s.last, p, channels))
      && (TryDiff(s.last, p).Some? ==> out[|out| - 1].chunk.Diff?)
      && (TryDiff(s.last, p).None? && TryLuma(s.last, p).Some? ==> out[|out| - 1].chunk.Luma?)
      && (out[|out| - 1].chunk.Rgba? ==> p.a != s.last.a && channels != RGB_CHANNELS)
  {
  }

  /** process_pixel never tags a chunk Unresolved. */
  lemma NeverUnresolved(s: State, p: Pixel, channels: nat)
    requires Valid(s)
    ensures forall cs | cs in ProcessPixel(s, p, channels).1 :: !cs.Unresolved?
  {
  }

  /** A miss chunk looked up against the state it was chosen in gives back
      the pixel: diffs and luma diffs by their round trips, raw dumps
      because they carry the whole pixel. */
  lemma MissChunkDecodes(s: State, p: Pixel, channels: nat)
    requires Valid(s)
    ensures LookupChunk(s, MissChunk(s.last, p, channels)) == p
  {
    match TryDiff(s.last, p)
    case Some(d) => DiffRoundTrip(s.last, p);
    case None =>
      match TryLuma(s.last, p)
      case Some(l) => LumaRoundTrip(s.last, p);
      case None =>
  }

  /** lookup_chunk inverts process_pixel: the pixel chunk the encoder
      emits for p (the last chunk, when it is not a run), looked up in the
      state the encoder saw, is p. */
  lemma LookupInvertsProcess(s: State, p: Pixel, channels: nat)
    requires Valid(s)
    ensures var out := ProcessPixel(s, p, channels).1;
      |out| > 0 && !out[|out| - 1].chunk.Run? ==> LookupChunk(s, out[|out| - 1].chunk) == p
  {
    if p != s.last {
      if s.cache[Hash(p)] == p {
        CacheHitEmitsIndex(s, p, channels);
      } else {
        CacheMissStoresPixel(s, p, channels);
        MissChunkDecodes(s, p, channels);
      }
    }
  }

  /** Merging is a conditional copy: unmarked slots keep the receiving
      state's pixel, marked slots take the merged state's pixel. */
  lemma MergeSlots(s: State, other: State, i: nat)
    requires Valid(s) && Valid(other) && i < SEEN_PIXEL_ARRAY_SIZE
    ensures var m := Merge(s, other);
      m.last == other.last && m.run == other.run
      && (i in other.modified ==> m.cache[i] == other.cache[i])
      && (i !in other.modified ==> m.cache[i] == s.cache[i])
      && (i in m.modified <==> i in s.modified || i in other.modified)
  {
  }

  /** A state that merges another and then merges it again is unchanged by
      the second merge. */
  lemma MergeIdempotent(s: State, other: State)
    requires Valid(s) && Valid(other)
    ensures Merge(Merge(s, other), other) == Merge(s, other)
  {
    var m := Merge(s, other);
    assert Merge(m, other).cache == m.cache;
  }
}

/** The codec state of codec.rs updated in place, proved to follow the
    state functions of module Codec. */
module CodecState {
  import opened Consts
  import opened Pixels
  import opened Chunks
  import opened Codec


  /** QoiCodecState: the same state as a Copy struct in the source, here an
      object whose cache is a 64-slot array. */
  class QoiCodecState {
    var lastPixel: Pixel
    const previouslySeen: array<Pixel>
    var runLength: nat
    var modified: set<nat>

    ghost predicate Valid()
      reads this, previouslySeen
    {
      && previouslySeen.Length == SEEN_PIXEL_ARRAY_SIZE
      && runLength <= MAX_RUN_LENGTH
      && forall i | i in modified :: i < SEEN_PIXEL_ARRAY_SIZE
    }

    /** The state as a value. */
    function Snapshot(): State
      reads this, previouslySeen
    {
      State(lastPixel, previouslySeen[..], runLength, modified)
    }

    constructor ()
      ensures Valid() && fresh(previouslySeen)
      ensures Snapshot() == New()
    {
      lastPixel := DEFAULT_PIXEL;
      previouslySeen := new Pixel[SEEN_PIXEL_ARRAY_SIZE](_ => ZERO_PIXEL);
      runLength := 0;
      modified := {};
      new;
      assert previouslySeen[..] == New().cache;
    }

    /** A copy with its own cache array (the struct is Copy). */
    method Clone() returns (c: QoiCodecState)
      requires Valid()
      ensures fresh(c) && fresh(c.previouslySeen)
      ensures c.Valid() && c.Snapshot() == Snapshot()
    {
      c := new QoiCodecState();
      c.lastPixel := lastPixel;
      c.runLength := runLength;
      c.modified := modified;
      forall i | 0 <= i < SEEN_PIXEL_ARRAY_SIZE {
        c.previouslySeen[i] := previouslySeen[i];
      }
      assert c.previouslySeen[..] == previouslySeen[..];
    }

    method ProcessPixel(pixel: Pixel, channels: nat) returns (chunks: seq<ChunkState>)
      requires Valid()
      modifies this, previouslySeen
      ensures Valid()
      ensures (Snapshot(), chunks) == Codec.ProcessPixel(old(Snapshot()), pixel, channels)
    {
      ghost var s := Snapshot();
      chunks := [];
      var hashIdx := Hash(pixel);

      if pixel == lastPixel && runLength < MAX_RUN_LENGTH {
        runLength := runLength + 1;
        chunks := Cleanup(chunks, None, pixel);
        return;
      } else if runLength > 0 {
        chunks := [Resolved(RunOf(runLength))];
        if pixel == lastPixel {
          runLength := 1;
          chunks := Cleanup(chunks, None, pixel);
          return;
        }
        runLength := 0;
      }

      assert chunks == (if s.run > 0 then [Resolved(RunOf(s.run))] else []);
      assert Snapshot() == s.(run := 0);
      var lookedUp := previouslySeen[hashIdx];
      if lookedUp == pixel {
        chunks := Cleanup(chunks, Some(Index(hashIdx as byte)), pixel);
        return;
      }

      previouslySeen[hashIdx] := pixel;
      modified := modified + {hashIdx};
      assert previouslySeen[..] == s.cache[hashIdx := pixel];

      var chunk := MissChunk(lastPixel, pixel, channels);
      chunks := Cleanup(chunks, Some(chunk), pixel);
    }

    method Cleanup(chunks: seq<ChunkState>, chunk: Option<Chunk>, pixel: Pixel) returns (out: seq<ChunkState>)
      requires Valid()
      modifies this
      ensures Valid()
      ensures (Snapshot(), out) == Codec.Cleanup(old(Snapshot()), chunks, chunk, pixel)
    {
      out := chunks;
      if chunk.Some? {
        var resolved := IsResolved(Snapshot(), chunk.value);
        out := out + [if resolved then Resolved(chunk.value) else Unresolved(chunk.value, pixel)];
      }
      lastPixel := pixel;
    }

    /** Merging a later segment's state: a loop over the 64 slots that
        overwrites exactly the marked ones. */
    method Merge(other: QoiCodecState)
      requires Valid() && other.Valid() && other != this && other.previouslySeen != previouslySeen
      modifies this, previouslySeen
      ensures Valid()
      ensures Snapshot() == Codec.Merge(old(Snapshot()), old(other.Snapshot()))
      ensures lastPixel == other.lastPixel && runLength == other.runLength
      ensures forall i | 0 <= i < SEEN_PIXEL_ARRAY_SIZE ::
        previouslySeen[i] == if i in other.modified then other.previouslySeen[i] else old(previouslySeen[i])
    {
      lastPixel := other.lastPixel;
      runLength := other.runLength;
      var i := 0;
      while i < SEEN_PIXEL_ARRAY_SIZE
        invariant 0 <= i <= SEEN_PIXEL_ARRAY_SIZE
        invariant lastPixel == other.lastPixel && runLength == other.runLength && modified == old(modified)
        invariant forall j | 0 <= j < i ::
          previouslySeen[j] == if j in other.modified then other.previouslySeen[j] else old(previouslySeen[j])
        invariant forall j | i <= j < SEEN_PIXEL_ARRAY_SIZE :: previouslySeen[j] == old(previouslySeen[j])
      {
        if IsModified(other.Snapshot(), i) {
          previouslySeen[i] := other.previouslySeen[i];
        }
        i := i + 1;
      }
      modified := modified + other.modified;
      assert previouslySeen[..] == Codec.Merge(old(Snapshot()), old(other.Snapshot())).cache;
    }

    /** Decoding one chunk in place. */
    method ProcessChunk(chunk: Chunk) returns (pixel: Pixel, count: nat)
      requires Valid() && WellFormed(chunk)
      modifies this, previouslySeen
      ensures Valid()
      ensures (Snapshot(), pixel, count) == Codec.ProcessChunk(old(Snapshot()), chunk)
    {
      if chunk.Run? {
        pixel, count := lastPixel, RunLength(chunk);
      } else {
        lastPixel := LookupChunk(Snapshot(), chunk);
        previouslySeen[Hash(lastPixel)] := lastPixel;
        pixel, count := lastPixel, 1;
      }
    }
  }
}
