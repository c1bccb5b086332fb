/** A corrected split encoder. Each later segment is encoded on its own, as
    the parallel design of encoder.rs intends, but

    - its leading run of equal pixels is left to the stitch, which pushes
      it through the global state (the state the earlier segments left);
    - the rest is encoded from a state whose previous pixel is the run's
      pixel, and a cache decision on a slot the segment has not written
      yet is left unresolved, to be taken against the global cache;
    - the stitch closes the global run, resolves the entries, merges the
      segment's marked slots, and the final run is drained even when it is
      a single pixel.

    The stitched output is proved equal to encoding the whole image in one
    segment, for every number of segments. */
module Stitch {
  import opened Consts
  import opened Pixels
  import opened Chunks
  import opened Codec
  import opened Encoder
  import RoundTrip
  import Decoder

  /** States that make the same encoding decisions; only their marks differ. */
  predicate Same(s: State, t: State) {
    s.last == t.last && s.run == t.run && s.cache == t.cache
  }

  /** process_pixel does not consult the marks for its decisions. */
  lemma ProcessSame(s: State, t: State, p: Pixel, channels: nat)
    requires Valid(s) && Valid(t) && Same(s, t)
    ensures Same(ProcessPixel(s, p, channels).0, ProcessPixel(t, p, channels).0)
    ensures ProcessPixel(s, p, channels).1 == ProcessPixel(t, p, channels).1
  {
  }

  lemma {:induction false} EncodeSame(s: State, t: State, ps: seq<Pixel>, channels: nat)
    requires Valid(s) && Valid(t) && Same(s, t)
    ensures Same(EncodePixels(s, ps, channels).0, EncodePixels(t, ps, channels).0)
    ensures EncodePixels(s, ps, channels).1 == EncodePixels(t, ps, channels).1
    decreases |ps|
  {
    if ps != [] {
      var init := ps[..|ps| - 1];
      EncodeSame(s, t, init, channels);
      ProcessSame(EncodePixels(s, init, channels).0, EncodePixels(t, init, channels).0, ps[|ps| - 1], channels);
    }
  }

  /** Encoding a concatenation continues from the state the first part left. */
  lemma {:induction false} EncodeAppend(s: State, a: seq<Pixel>, b: seq<Pixel>, channels: nat)
    requires Valid(s)
    ensures var (s1, out1) := EncodePixels(s, a, channels);
            var (s2, out2) := EncodePixels(s1, b, channels);
            EncodePixels(s, a + b, channels) == (s2, out1 + out2)
    decreases |b|
  {
    var (s1, out1) := EncodePixels(s, a, channels);
    if b == [] {
      assert a + b == a && out1 + [] == out1;
    } else {
      var init := b[..|b| - 1];
      EncodeAppend(s, a, init, channels);
      var (s2, out2) := EncodePixels(s1, init, channels);
      AppendOneMore(s, a, init, b[|b| - 1], channels, s1, out1, s2, out2);
      assert b == init + [b[|b| - 1]];
    }
  }

  /** The step of EncodeAppend: one more pixel after the concatenation. */
  lemma AppendOneMore(s: State, a: seq<Pixel>, init: seq<Pixel>, p: Pixel, channels: nat,
                      s1: State, out1: seq<ChunkState>, s2: State, out2: seq<ChunkState>)
    requires Valid(s) && Valid(s1) && Valid(s2)
    requires (s1, out1) == EncodePixels(s, a, channels) && (s2, out2) == EncodePixels(s1, init, channels)
    requires EncodePixels(s, a + init, channels) == (s2, out1 + out2)
    ensures var (s3, out3) := EncodePixels(s1, init + [p], channels);
            EncodePixels(s, a + (init + [p]), channels) == (s3, out1 + out3)
  {
    var out := ProcessPixel(s2, p, channels).1;
    assert a + (init + [p]) == (a + init) + [p];
    EncodePixelsSnoc(s, a + init, p, channels);
    EncodePixelsSnoc(s1, init, p, channels);
    Assoc(out1, out2, out);
  }

  lemma Assoc<T>(a: seq<T>, b: seq<T>, c: seq<T>)
    ensures a + b + c == a + (b + c)
  {
  }

  /** The run chunk that closes a pending run, if any. */
  function Closer(run: nat): (cs: seq<ChunkState>)
    requires run <= MAX_RUN_LENGTH
    ensures run > 0 ==> cs == [Resolved(RunOf(run))]
    ensures run == 0 ==> cs == []
  {
    if run > 0 then [Resolved(RunOf(run))] else []
  }

  /** A pixel that differs from the previous one closes the pending run,
      then is processed as if there were none. */
  lemma CloseThenProcess(s: State, p: Pixel, channels: nat)
    requires Valid(s) && p != s.last
    ensures var (t, out) := ProcessPixel(s.(run := 0), p, channels);
            ProcessPixel(s, p, channels) == (t, Closer(s.run) + out)
  {
    var h, s1 := Hash(p), s.(run := 0);
    var c := if s1.cache[h] == p then Index(h as byte) else MissChunk(s.last, p, channels);
    var s2 := if s1.cache[h] == p then s1 else s1.(cache := s1.cache[h := p], modified := s1.modified + {h});
    CleanupAfter(s2, Closer(s.run), c, p);
    CleanupAfter(s2, [], c, p);
  }

  /** Cleanup appends to the chunks it is given. */
  lemma CleanupAfter(s: State, chunks: seq<ChunkState>, c: Chunk, p: Pixel)
    ensures Cleanup(s, chunks, Some(c), p).1 == chunks + Cleanup(s, [], Some(c), p).1
  {
    assert [] + [Resolved(c)] == [Resolved(c)] && [] + [Unresolved(c, p)] == [Unresolved(c, p)];
  }

  /** A first pixel that differs from the previous one closes the pending
      run and then proceeds as from a state without one. */
  lemma {:induction false} FirstCloses(s: State, ps: seq<Pixel>, channels: nat)
    requires Valid(s) && ps != [] && ps[0] != s.last
    ensures var (t, out) := EncodePixels(s.(run := 0), ps, channels);
            EncodePixels(s, ps, channels) == (t, Closer(s.run) + out)
    decreases |ps|
  {
    var init, p := ps[..|ps| - 1], ps[|ps| - 1];
    if init == [] {
      CloseThenProcess(s, p, channels);
      var (t, out) := ProcessPixel(s.(run := 0), p, channels);
      assert EncodePixels(s, ps, channels) == (t, [] + (Closer(s.run) + out));
      assert EncodePixels(s.(run := 0), ps, channels) == (t, [] + out);
      assert [] + out == out && [] + (Closer(s.run) + out) == Closer(s.run) + out;
    } else {
      assert init[0] == ps[0];
      FirstCloses(s, init, channels);
      var (t1, out1) := EncodePixels(s.(run := 0), init, channels);
      var out2 := ProcessPixel(t1, p, channels).1;
      Assoc(Closer(s.run), out1, out2);
    }
  }

  /** The state left by a nonempty stretch has its last pixel as previous pixel. */
  lemma EncodedLast(s: State, ps: seq<Pixel>, channels: nat)
    requires Valid(s) && ps != []
    ensures EncodePixels(s, ps, channels).0.last == ps[|ps| - 1]
  {
  }

  // ----- the segment encoded on its own -----

  /** One pixel of a later segment, encoded without the global state:
      process_pixel, except that a cache decision on a slot this segment has
      not marked is left to the global cache. Every slot it decides on, it
      marks. */
  function LocalStep(l: State, p: Pixel, channels: nat): (res: (State, seq<ChunkState>))
    requires Valid(l)
    ensures Valid(res.0) && AllWellFormed(res.1)
    ensures res.0.last == p
  {
    var h := Hash(p);
    if p == l.last && l.run < MAX_RUN_LENGTH then (l.(run := l.run + 1), [])
    else if l.run > 0 && p == l.last then (l.(run := 1), Closer(l.run))
    else
      var l1 := l.(last := p, run := 0, cache := l.cache[h := p], modified := l.modified + {h});
      if h !in l.modified then (l1, Closer(l.run) + [Unresolved(MissChunk(l.last, p, channels), p)])
      else if l.cache[h] == p then (l1, Closer(l.run) + [Resolved(Index(h as byte))])
      else (l1, Closer(l.run) + [Resolved(MissChunk(l.last, p, channels))])
  }

  function LocalEncode(l: State, ps: seq<Pixel>, channels: nat): (res: (State, seq<ChunkState>))
    requires Valid(l)
    ensures Valid(res.0) && AllWellFormed(res.1)
  {
    if ps == [] then (l, [])
    else
      var (l1, out1) := LocalEncode(l, ps[..|ps| - 1], channels);
      var (l2, out2) := LocalStep(l1, ps[|ps| - 1], channels);
      (l2, out1 + out2)
  }

  /** The local state `l` follows the true state `t` on top of the global
      state `g`: same previous pixel and run, and each cache slot is the
      local one where the segment marked it and the global one elsewhere. */
  predicate Tracks(l: State, t: State, g: State)
    requires Valid(l) && Valid(t) && Valid(g)
  {
    && l.last == t.last && l.run == t.run
    && forall h | 0 <= h < SEEN_PIXEL_ARRAY_SIZE :: t.cache[h] == if h in l.modified then l.cache[h] else g.cache[h]
  }

  lemma ResolveAppend(g: State, xs: seq<ChunkState>, ys: seq<ChunkState>)
    requires Valid(g) && AllWellFormed(xs) && AllWellFormed(ys)
    ensures AllWellFormed(xs + ys)
    ensures ResolveAll(g, xs + ys) == ResolveAll(g, xs) + ResolveAll(g, ys)
  {
    assert AllWellFormed(xs + ys) by {
      forall cs | cs in xs + ys ensures WellFormed(cs.chunk) {
        if cs in xs {} else {}
      }
    }
    var r, rx, ry := ResolveAll(g, xs + ys), ResolveAll(g, xs), ResolveAll(g, ys);
    forall i | 0 <= i < |r| ensures r[i] == (rx + ry)[i] {
      if i < |xs| {
        assert (xs + ys)[i] == xs[i];
      } else {
        assert (xs + ys)[i] == ys[i - |xs|];
      }
    }
  }

  /** A pixel that differs from the previous one: the local entry and the
      chunk process_pixel writes after closing the run agree once resolved. */
  lemma ChunkTracks(l: State, t: State, g: State, p: Pixel, channels: nat)
    requires Valid(l) && Valid(t) && Valid(g) && Tracks(l, t, g)
    requires l.run == 0 && p != l.last
    ensures var (l1, entries) := LocalStep(l, p, channels);
            var (t1, out) := ProcessPixel(t, p, channels);
            Tracks(l1, t1, g) && |entries| == |out| == 1 && ResolveChunk(g, entries[0]) == out[0].chunk
  {
    var h := Hash(p);
    var (l1, entries) := LocalStep(l, p, channels);
    var (t1, out) := ProcessPixel(t, p, channels);
    assert l1.cache[h] == p && h in l1.modified;
    if t.cache[h] == p {
      CacheHitEmitsIndex(t, p, channels);
    } else {
      CacheMissStoresPixel(t, p, channels);
    }
    assert t1.cache[h] == p;
  }

  /** The same for a state with a pending run: both close it first. */
  lemma CloseThenStep(l: State, p: Pixel, channels: nat)
    requires Valid(l) && p != l.last
    ensures var (l1, entries) := LocalStep(l.(run := 0), p, channels);
            LocalStep(l, p, channels) == (l1, Closer(l.run) + entries)
  {
    var h := Hash(p);
    var e := if h !in l.modified then Unresolved(MissChunk(l.last, p, channels), p)
             else if l.cache[h] == p then Resolved(Index(h as byte))
             else Resolved(MissChunk(l.last, p, channels));
    assert LocalStep(l, p, channels).1 == Closer(l.run) + [e];
    assert LocalStep(l.(run := 0), p, channels).1 == [] + [e] == [e];
  }

  /** One step: the local entries, resolved against the global state, are
      the chunks process_pixel writes, and the tracking is kept. */
  lemma StepTracks(l: State, t: State, g: State, p: Pixel, channels: nat)
    requires Valid(l) && Valid(t) && Valid(g) && Tracks(l, t, g)
    ensures var (l1, entries) := LocalStep(l, p, channels);
            var (t1, out) := ProcessPixel(t, p, channels);
            Tracks(l1, t1, g) && ResolveAll(g, entries) == ChunksOf(out)
  {
    if p == l.last && l.run < MAX_RUN_LENGTH {
      RepeatExtendsRun(t, p, channels);
    } else if l.run > 0 && p == l.last {
      PendingRunClosesFirst(t, p, channels);
      assert ResolveAll(g, Closer(l.run)) == [RunOf(l.run)];
    } else {
      var l0, t0 := l.(run := 0), t.(run := 0);
      CloseThenStep(l, p, channels);
      CloseThenProcess(t, p, channels);
      ChunkTracks(l0, t0, g, p, channels);
      var entries := LocalStep(l0, p, channels).1;
      var out := ProcessPixel(t0, p, channels).1;
      assert ResolveAll(g, entries) == ChunksOf(out);
      assert ResolveAll(g, Closer(l.run)) == ChunksOf(Closer(l.run));
      ResolveAppend(g, Closer(l.run), entries);
      RoundTrip.ChunksOfAppend(Closer(l.run), out);
    }
  }

  /** Encoding a stretch locally keeps the tracking, and the entries,
      resolved against the global state, are the chunks the true encoding
      writes. */
  lemma {:induction false} LocalTracks(l: State, t: State, g: State, ps: seq<Pixel>, channels: nat)
    requires Valid(l) && Valid(t) && Valid(g) && Tracks(l, t, g)
    ensures var (l1, entries) := LocalEncode(l, ps, channels);
            var (t1, out) := EncodePixels(t, ps, channels);
            Tracks(l1, t1, g) && ResolveAll(g, entries) == ChunksOf(out)
    decreases |ps|
  {
    if ps != [] {
      var init, p := ps[..|ps| - 1], ps[|ps| - 1];
      LocalTracks(l, t, g, init, channels);
      var (l1, entries1) := LocalEncode(l, init, channels);
      var (t1, out1) := EncodePixels(t, init, channels);
      StepTracks(l1, t1, g, p, channels);
      var entries2 := LocalStep(l1, p, channels).1;
      var out2 := ProcessPixel(t1, p, channels).1;
      ResolveAppend(g, entries1, entries2);
      RoundTrip.ChunksOfAppend(out1, out2);
    }
  }

  /** A stretch that starts with a new pixel writes at least one entry. */
  lemma {:induction false} FirstEntry(l: State, ps: seq<Pixel>, channels: nat)
    requires Valid(l) && ps != [] && ps[0] != l.last
    ensures LocalEncode(l, ps, channels).1 != []
    decreases |ps|
  {
    var init := ps[..|ps| - 1];
    if init == [] {
      assert LocalEncode(l, ps, channels).1 == [] + LocalStep(l, ps[0], channels).1;
    } else {
      assert init[0] == ps[0];
      FirstEntry(l, init, channels);
    }
  }

  /** The length of the run of equal pixels a nonempty segment starts with. */
  function RunPrefix(q: seq<Pixel>): (k: nat)
    requires q != []
    ensures 1 <= k <= |q| && (k < |q| ==> q[k] != q[0])
    ensures forall i | 0 <= i < k :: q[i] == q[0]
    decreases |q|
  {
    if |q| == 1 || q[1] != q[0] then 1 else 1 + RunPrefix(q[1..])
  }

  /** What a later segment's worker hands to the stitch: its first pixel,
      how often it repeats at the start, and the rest encoded locally. */
  datatype Local = Local(first: Pixel, lead: nat, state: State, entries: seq<ChunkState>)

  /** The state the local encoding starts from: the leading pixel as the
      previous one, no run, no slot marked. */
  function LocalStart(p: Pixel): (l: State)
    ensures Valid(l) && l.last == p && l.run == 0 && l.modified == {}
  {
    State(p, New().cache, 0, {})
  }

  /** A later segment encoded without the global state. */
  function EncodeLocal(q: seq<Pixel>, channels: nat): (loc: Local)
    requires q != []
    ensures Valid(loc.state) && AllWellFormed(loc.entries)
    ensures loc.first == q[0] && 1 <= loc.lead <= |q|
  {
    var k := RunPrefix(q);
    var (l, entries) := LocalEncode(LocalStart(q[0]), q[k..], channels);
    Local(q[0], k, l, entries)
  }

  /** The stitch: the leading run pushed through the global state; then,
      if the segment goes on, the global run closed, the entries resolved
      against the global state, and the marked slots merged into it. */
  function StitchLocal(g: State, loc: Local, channels: nat): (res: (seq<Chunk>, State))
    requires Valid(g) && Valid(loc.state) && AllWellFormed(loc.entries)
    ensures Valid(res.1) && forall c | c in res.0 :: WellFormed(c)
  {
    var (g1, lead) := EncodePixels(g, seq(loc.lead, _ => loc.first), channels);
    ChunksWellFormed(lead);
    ChunksWellFormed(Closer(g1.run));
    if loc.entries == [] then (ChunksOf(lead), g1)
    else (ChunksOf(lead) + ChunksOf(Closer(g1.run)) + ResolveAll(g1, loc.entries), Merge(g1, loc.state))
  }

  /** After the leading run: the global run closed and the resolved
      entries are what the true encoding writes, and the merge leaves a
      state making the same decisions. */
  lemma ContinueAgrees(g1: State, t1: State, rest: seq<Pixel>, channels: nat)
    requires Valid(g1) && Valid(t1) && Same(g1, t1) && rest != [] && rest[0] != g1.last
    ensures var (l2, entries) := LocalEncode(LocalStart(g1.last), rest, channels);
            var (t2, out) := EncodePixels(t1, rest, channels);
            && entries != []
            && ChunksOf(Closer(g1.run)) + ResolveAll(g1, entries) == ChunksOf(out)
            && Same(Merge(g1, l2), t2)
  {
    var l0, t0 := LocalStart(g1.last), t1.(run := 0);
    FirstCloses(t1, rest, channels);
    LocalTracks(l0, t0, g1, rest, channels);
    FirstEntry(l0, rest, channels);
    var (l2, entries) := LocalEncode(l0, rest, channels);
    var (t2, out2) := EncodePixels(t0, rest, channels);
    RoundTrip.ChunksOfAppend(Closer(t1.run), out2);
    var m := Merge(g1, l2);
    assert m.cache == t2.cache by {
      forall i | 0 <= i < SEEN_PIXEL_ARRAY_SIZE ensures m.cache[i] == t2.cache[i] {
        MergeSlots(g1, l2, i);
      }
    }
  }

  /** The leading run of a segment pushed through two states that make
      the same decisions. */
  lemma LeadAgrees(g: State, t: State, q: seq<Pixel>, channels: nat, k: nat)
    requires Valid(g) && Valid(t) && Same(g, t) && q != [] && k == RunPrefix(q)
    ensures var lead := seq(k, _ => q[0]);
            var (g1, out1) := EncodePixels(g, lead, channels);
            var (t1, out1') := EncodePixels(t, lead, channels);
            var (t2, out2) := EncodePixels(t1, q[k..], channels);
            && Same(g1, t1) && out1 == out1' && g1.last == q[0]
            && EncodePixels(t, q, channels) == (t2, out1 + out2)
  {
    var lead := seq(k, _ => q[0]);
    assert q[..k] == lead;
    assert q == lead + q[k..];
    EncodeAppend(t, lead, q[k..], channels);
    EncodeSame(g, t, lead, channels);
    EncodedLast(g, lead, channels);
  }

  /** Stitching a segment writes what encoding it on top of the global
      state writes, and leaves a state making the same decisions. */
  lemma SegmentAgrees(g: State, t: State, q: seq<Pixel>, channels: nat)
    requires Valid(g) && Valid(t) && Same(g, t) && q != []
    ensures var (cs, g2) := StitchLocal(g, EncodeLocal(q, channels), channels);
            var (t2, out) := EncodePixels(t, q, channels);
            cs == ChunksOf(out) && Same(g2, t2)
  {
    var loc := EncodeLocal(q, channels);
    var k := loc.lead;
    LeadAgrees(g, t, q, channels, k);
    var lead := seq(k, _ => q[0]);
    var (g1, out1) := EncodePixels(g, lead, channels);
    var t1 := EncodePixels(t, lead, channels).0;
    var out2 := EncodePixels(t1, q[k..], channels).1;
    if k == |q| {
      assert q[k..] == [];
      assert out1 + out2 == out1;
    } else {
      ContinueAgrees(g1, t1, q[k..], channels);
      RoundTrip.ChunksOfAppend(out1, out2);
      Assoc(ChunksOf(out1), ChunksOf(Closer(g1.run)), ResolveAll(g1, loc.entries));
    }
  }

  // ----- the whole image -----

  predicate NonEmpty(segs: seq<seq<Pixel>>) {
    forall i | 0 <= i < |segs| :: segs[i] != []
  }

  /** The chunks of well-formed entries are well formed. */
  lemma ChunksWellFormed(states: seq<ChunkState>)
    requires AllWellFormed(states)
    ensures forall c | c in ChunksOf(states) :: WellFormed(c)
  {
    var cs := ChunksOf(states);
    forall c | c in cs ensures WellFormed(c) {
      var i :| 0 <= i < |cs| && cs[i] == c;
      assert states[i] in states;
    }
  }

  /** Consecutive pieces of `size` pixels, the last possibly shorter. */
  function Pieces(ps: seq<Pixel>, size: nat): (segs: seq<seq<Pixel>>)
    requires size > 0
    ensures NonEmpty(segs)
    decreases |ps|
  {
    if ps == [] then []
    else if |ps| <= size then [ps]
    else [ps[..size]] + Pieces(ps[size..], size)
  }

  function Join(segs: seq<seq<Pixel>>): seq<Pixel>
    decreases |segs|
  {
    if segs == [] then [] else segs[0] + Join(segs[1..])
  }

  /** The pieces, joined again, are the pixels. */
  lemma {:induction false} JoinPieces(ps: seq<Pixel>, size: nat)
    requires size > 0
    ensures Join(Pieces(ps, size)) == ps
    decreases |ps|
  {
    if ps != [] && |ps| > size {
      var segs := Pieces(ps, size);
      assert segs[1..] == Pieces(ps[size..], size);
      JoinPieces(ps[size..], size);
      assert ps == ps[..size] + ps[size..];
    } else if ps != [] {
      assert Join([ps]) == ps + Join([]);
    }
  }

  /** The later segments, each encoded locally and stitched on in order. */
  function StitchLater(g: State, segs: seq<seq<Pixel>>, channels: nat): (res: (seq<Chunk>, State))
    requires Valid(g) && NonEmpty(segs)
    ensures Valid(res.1) && forall c | c in res.0 :: WellFormed(c)
    decreases |segs|
  {
    if segs == [] then ([], g)
    else
      var (cs1, g1) := StitchLocal(g, EncodeLocal(segs[0], channels), channels);
      var (cs2, g2) := StitchLater(g1, segs[1..], channels);
      (cs1 + cs2, g2)
  }

  /** Stitching the later segments writes what encoding them all, one
      after another, on top of the global state writes. */
  lemma {:induction false} LaterAgrees(g: State, t: State, segs: seq<seq<Pixel>>, channels: nat)
    requires Valid(g) && Valid(t) && Same(g, t) && NonEmpty(segs)
    ensures var (cs, g2) := StitchLater(g, segs, channels);
            var (t2, out) := EncodePixels(t, Join(segs), channels);
            cs == ChunksOf(out) && Same(g2, t2)
    decreases |segs|
  {
    if segs != [] {
      SegmentAgrees(g, t, segs[0], channels);
      var (cs1, g1) := StitchLocal(g, EncodeLocal(segs[0], channels), channels);
      var (t1, out1) := EncodePixels(t, segs[0], channels);
      LaterAgrees(g1, t1, segs[1..], channels);
      EncodeAppend(t, segs[0], Join(segs[1..]), channels);
      RoundTrip.ChunksOfAppend(out1, EncodePixels(t1, Join(segs[1..]), channels).1);
    }
  }

  /** The corrected `encode` body: the pixels cut into `splits` pieces
      (at least one pixel each), the first encoded as it is, the others
      stitched on, the final run drained even when it is one pixel, and
      the end marker. */
  function EncodeSplit(ps: seq<Pixel>, channels: nat, splits: nat): seq<byte>
    requires splits > 0
  {
    var segs := Pieces(ps, if |ps| / splits > 0 then |ps| / splits else 1);
    if segs == [] then Stitched([], [], channels) else Stitched(segs[0], segs[1..], channels)
  }

  function Stitched(first: seq<Pixel>, later: seq<seq<Pixel>>, channels: nat): seq<byte>
    requires NonEmpty(later)
  {
    var (g, out) := EncodePixels(New(), first, channels);
    var (cs, g1) := StitchLater(g, later, channels);
    ChunksWellFormed(out);
    Serialize(ChunksOf(out) + cs) + RoundTrip.DrainedFixed(g1) + END_MARKER
  }

  /** The first piece and the stitched later ones give the bytes of the
      whole in one piece. */
  lemma StitchedMatches(first: seq<Pixel>, later: seq<seq<Pixel>>, channels: nat)
    requires NonEmpty(later)
    ensures Stitched(first, later, channels) == RoundTrip.EncodeFixed(first + Join(later), channels)
  {
    EncodeAppend(New(), first, Join(later), channels);
    var (g, out) := EncodePixels(New(), first, channels);
    LaterAgrees(g, g, later, channels);
    RoundTrip.ChunksOfAppend(out, EncodePixels(g, Join(later), channels).1);
  }

  /** However many pieces the pixels are cut into, the corrected encoder
      writes the bytes of encoding them in one piece. */
  lemma SplitMatchesWhole(ps: seq<Pixel>, channels: nat, splits: nat)
    requires splits > 0
    ensures EncodeSplit(ps, channels, splits) == RoundTrip.EncodeFixed(ps, channels)
  {
    var size := if |ps| / splits > 0 then |ps| / splits else 1;
    var segs := Pieces(ps, size);
    JoinPieces(ps, size);
    if segs == [] {
      assert ps == [] + Join([]);
      StitchedMatches([], [], channels);
    } else {
      assert ps == segs[0] + Join(segs[1..]);
      StitchedMatches(segs[0], segs[1..], channels);
    }
  }

  /** The corrected encoder's bytes decode to the pixels, for every number
      of pieces. */
  lemma SplitRoundTrip(ps: seq<Pixel>, channels: nat, splits: nat)
    requires channels == RGB_CHANNELS || channels == RGBA_CHANNELS
    requires splits > 0 && RoundTrip.AlphaFits(ps, channels)
    ensures var res := Decoder.ReadPixels(Decoder.Fresh(), EncodeSplit(ps, channels, splits), |ps|);
            res.Ok? && res.value.1 == END_MARKER && res.value.2 == ps
  {
    SplitMatchesWhole(ps, channels, splits);
    RoundTrip.PixelsRoundTrip(ps, channels);
  }
}
