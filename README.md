# rust-qoi codec core, modelled in Dafny

A model of the core of rust-qoi, an encoder and decoder for the QOI ("Quite
OK Image") format. The model covers the following parts.

- **Pixels and chunks** (`pixel.dfy`, `chunks.dfy`): the RGBA pixel, the 64-slot hash
  `(3r + 5g + 7b + 11a) % 64`, and the six chunk kinds (RGB, RGBA, INDEX,
  DIFF, LUMA, RUN). Each chunk kind has its flag, size, `matches` test and byte layout.
- **Codec state** (`codec.dfy`): the previous pixel, the previously-seen
  cache, the run counter and the modified mask.
  - `process_pixel` picks the chunk for each pixel. `cleanup`, `drain`, `merge` and the decoding helpers are modelled as well.
  - Each operation is a function, plus a class `QoiCodecState` whose methods update the fields in place and are proved to follow those functions.
- **Encoder** (`encoder.dfy`):
  - `to_chunks` encodes one segment of the interleaved pixel buffer from a fresh state.
  - `encode` writes the header, cuts the buffer into two segments and stitches the second segment's chunk list onto the global state. The stitch covers the boundary pixel, the run continuation, the 1- and 2-chunk replacements, and the resolution of unresolved entries. It then merges, drains and writes the end marker.
  - The functions give the exact bytes written, including every place where the source panics. The class `QoiEncoder` writes them to its sink step by step.
- **Decoder** (`decoder.dfy`):
  - `read_metadata` parses the 14-byte header.
  - `QoiReader` pulls pixels one at a time. It tries the chunk kinds in the order DIFF, INDEX, LUMA, RGBA, RGB, RUN and counts down run repeats.
- **Round trip** (`roundtrip.dfy`): decoding a single-segment encoding gives back every pixel, provided the final run is drained even when it is one pixel long.
- **Corrected split encoder** (`stitch.dfy`): a stitch under which a segmented encoding equals the single-segment one, for any number of segments.
- **Concrete vectors** (`vectors.dfy`, `split_vectors.dfy`): the encoding and decoding tests of `lib.rs`, plus inputs that show where the two-segment encoder goes wrong, and one where its early write of a capped run at the boundary comes out right.

Assumptions about missing code:
- The files `src/consts.rs`, `Pixel::hash`, `QoiChunk`, the `try_new`/`try_decode` constructors, `OP_RUN::new`, `run_length()`, the `From` conversions, `ChunkState`, `lookup_pixel` and `get_chunk` are not part of this model's source text.
- They are modelled after the QOI format itself. The constants are a 64-slot cache, runs of at most 62 stored with bias -1, diff bias 2 and luma biases 32 and 8.
- `process_pixel` returns `(chunk, bool)` while the encoder consumes `ChunkState`. The flag `true` is read as `Resolved`.
- A decoded RGB chunk takes the previous pixel's alpha (`Decoder.ParseChunk`). This is the QOI format's rule: `OP_RGB::try_decode` and its `From` conversion (src/decoder.rs:121-122) are not part of this model's source text and see no previous pixel. The RGBA round trip relies on this choice.

## Model

| member | source | states |
|---|---|---|
| Pixels.Wrap | src/lib.rs:162-166 | the `u8` truncation of an integer: the result is the integer modulo 256 |
| Pixels.Hash | src/codec.rs:30 | the cache slot of a pixel is below 64 |
| Pixels.EightBitHash | src/codec.rs:30 | computing the hash with wrapping 8-bit arithmetic gives the same slot as exact arithmetic |
| Pixels.PixelEquality | src/util.rs:1-7 | two pixels are equal exactly when all four channels are equal |
| Chunks.Tagged | src/chunks.rs:75-76 | `flag << 6 \| low` keeps the 2-bit flag in the top bits and the 6-bit value in the low bits |
| Chunks.EncodeShape | src/chunks.rs:19-133 | every well-formed chunk encodes to exactly its kind's SIZE bytes, and its own `matches` accepts the first byte |
| Chunks.EncodeRaw | src/chunks.rs:27-34 | RGB encodes as 0xFE r g b and RGBA as 0xFF r g b a |
| Chunks.IndexLayout | src/chunks.rs:67-77 | an index chunk is the single byte of its index, flag 00, and decodes back to itself |
| Chunks.DiffLayout | src/chunks.rs:86-96 | a diff chunk is flag 01 followed by the 2-bit dr, dg and db fields, and decodes back to itself |
| Chunks.LumaLayout | src/chunks.rs:105-115 | a luma chunk is flag 10 with dg, then a second byte dr-dg and db-dg, and decodes back to itself |
| Chunks.RunLayout | src/chunks.rs:122-132 | a run byte has flag 11; a stored run below 62 is at most 0xFD, so neither raw tag claims it, and it decodes back |
| Chunks.PrefixClassification | src/chunks.rs:19-133 | every first byte matches exactly one of the four 2-bit kinds, and the RGB/RGBA tags lie inside the RUN range |
| Chunks.RunLengthOf | src/chunks.rs:130-132 | a run of L pixels (1 to 62) is stored as L-1, so it is byte 0xC0 + L - 1 and stands for L pixels |
| Chunks.DiffRoundTrip | src/lib.rs:158-173 | applying the diff chunk found for two pixels to the first gives back the second |
| Chunks.LumaRoundTrip | src/lib.rs:176-191 | applying the luma chunk found for two pixels to the first gives back the second |
| Chunks.DiffFound | src/lib.rs:158-173 | a step of -2..1 on every channel with the same alpha always finds a diff chunk |
| Chunks.LumaFound | src/lib.rs:176-191 | a step of -32..31 on every channel with the same alpha always finds a luma chunk |
| Codec.New | src/codec.rs:14-21 | the fresh state is valid: previous pixel (0,0,0,255), all slots (0,0,0,0), no run, empty mask |
| Codec.MissChunk | src/codec.rs:64-80 | the chunk after a miss is well formed; a raw chunk carries the pixel itself; RGBA only when alpha changed in a 4-channel image |
| Codec.ProcessPixel | src/codec.rs:23-81 | the pixel becomes the previous one; only the pixel's own slot may change, and only to the pixel; only that slot may join the mask; at most two chunks; every chunk is marked resolved |
| Codec.RepeatExtendsRun | src/codec.rs:33-35 | a repeat below the cap only extends the run, with no chunk and no change to the cache or mask |
| Codec.PendingRunClosesFirst | src/codec.rs:36-45 | a pending run is closed with RUN(run) as the first chunk; a repeat at the cap restarts the run at 1 with only that chunk; otherwise two chunks follow and the run is 0 |
| Codec.CacheHitEmitsIndex | src/codec.rs:47-55 | a new pixel found at its slot ends with INDEX(slot), and the cache and mask are unchanged |
| Codec.CacheMissStoresPixel | src/codec.rs:57-80 | a new pixel not at its slot is stored there and its slot is marked; it ends with a diff if one fits, else a luma if one fits, else a raw chunk |
| Codec.NeverUnresolved | src/codec.rs:61-62 | the slot is marked before `is_resolved` runs, so no chunk from `process_pixel` is ever unresolved |
| Codec.Drain | src/codec.rs:108-114 | a RUN chunk of the pending length comes back exactly when the run exceeds 1 |
| Codec.MergeSlots | src/codec.rs:121-131 | a merge copies the previous pixel and run verbatim; it takes a slot from the other state exactly when the other marked it, keeps every other slot, and unites the masks |
| Codec.MergeIdempotent | src/codec.rs:121-131 | merging the same later state twice is the same as merging it once |
| Codec.LookupPixel | src/encoder.rs:136 | the index chunk for a pixel exists exactly when the cache holds the pixel at its slot |
| Codec.LookupChunk | src/codec.rs:144-153 | a run, a diff and a luma diff keep the previous pixel's alpha; a run is the previous pixel; an index reads a cache slot |
| Codec.ProcessChunk | src/codec.rs:155-163 | a run chunk leaves the state alone and repeats the previous pixel its length; any other chunk yields the one pixel `LookupChunk` gives, which becomes the previous pixel and is cached at its slot, and nothing else in the state changes |
| Codec.MissChunkDecodes | src/codec.rs:144-153 | the diff, luma or raw chunk chosen after a miss, looked up against the same state, is the pixel again |
| Codec.LookupInvertsProcess | src/codec.rs:144-153 | the pixel chunk `process_pixel` emits for a pixel, looked up against the state it saw, is that pixel |
| CodecState.QoiCodecState.constructor | src/codec.rs:14-21 | the new object holds the fresh state |
| CodecState.QoiCodecState.Clone | src/encoder.rs:81 | the copy is a fresh object with its own cache array, holding the same state |
| CodecState.QoiCodecState.ProcessPixel | src/codec.rs:23-81 | updating the fields in place gives the state and the chunks of `Codec.ProcessPixel` |
| CodecState.QoiCodecState.Cleanup | src/codec.rs:85-97 | the chunk is tagged resolved or not by the mask, and the pixel is recorded as the previous one |
| CodecState.QoiCodecState.Merge | src/codec.rs:121-131 | the loop over the 64 slots overwrites exactly the slots the other state marked; the previous pixel and run are copied |
| CodecState.QoiCodecState.ProcessChunk | src/codec.rs:155-163 | updating the fields in place gives the state, pixel and count of `Codec.ProcessChunk` |
| Encoder.Header | src/encoder.rs:159-172 | the header is 14 bytes: "qoif", the big-endian width and height, the channels and the colour space |
| Encoder.PixelsOf | src/encoder.rs:28-33 | the buffer is cut into pixels of `channels` bytes; alpha is 255 for 3 channels |
| Encoder.EncodePixelsSnoc | src/encoder.rs:28-38 | encoding one more pixel continues from the state the earlier pixels left and appends that pixel's chunks |
| Encoder.Segments | src/encoder.rs:55-57 | `chunks(size)` yields non-empty pieces of at most `size` bytes, every one but the last of exactly `size` bytes, and joined again they are the buffer |
| Encoder.FirstChunkOf | src/encoder.rs:28-38 | over pixels from a fresh state, the first chunk decodes to the first pixel; while no chunk has come out, the pixels are the default pixel held as a pending run |
| Encoder.FirstChunkDecodes | src/encoder.rs:72-75 | the first chunk of a segment, looked up against a fresh state, is the segment's first pixel |
| Encoder.ResolveAll | src/encoder.rs:132-142 | each entry is written as is when resolved; an unresolved one becomes the global cache's index chunk when the cache holds its pixel |
| Encoder.RunChunksSplit | src/encoder.rs:105-116 | the re-split run is written as chunks of 1 to 62 pixels that sum to the run, all but the last full |
| Encoder.LeadingRunsSum | src/encoder.rs:97-102 | the continued run is the copy's run plus the lengths of the leading resolved RUN chunks consumed, and what remains starts right after them |
| Encoder.Boundary | src/encoder.rs:71-92 | the pixel re-processed is the first chunk looked up against a fresh state; repeating the global pixel below the cap continues the run with nothing to place; repeating it at a run of 62 writes RUN(62) early and leaves a run of 1; any other pixel leaves run 0 and the one or two chunks of `process_pixel` to place; early bytes never come with chunks to place |
| Encoder.EncodeSegments | src/encoder.rs:53-156 | an encoding that does not panic ends with the 8-byte end marker; it panics on a zero segment size exactly when the buffer is shorter than the number of splits |
| Encoder.OddPixelsPanic | src/encoder.rs:55-57 | with two segments, every image of an odd number of pixels is cut inside a pixel and panics |
| Encoder.OneSegment | src/encoder.rs:60-67 | a single segment writes its chunks, the drained run and the end marker |
| Encoder.TwoSegments | src/encoder.rs:69-145 | two equal segments write the first segment's chunks, then the second stitched against the first's state, then the drained run and the end marker |
| Encoder.EncodeWith | src/encoder.rs:43-51 | the encoding starts with the header of the image's dimensions and channels and colour space 0 |
| Encoder.SerializeAppend | src/encoder.rs:62-67 | writing two chunk lists one after the other writes the concatenation of their bytes |
| Encoder.EncodeStep | src/encoder.rs:28-38 | encoding pixel i after the first i pixels gives the state and chunks of one more `ProcessPixel` from where they left off |
| Encoder.QoiEncoder.ToChunks | src/encoder.rs:21-41 | a fresh codec object run over the segment holds the state and gives the chunks of `SegmentChunks` |
| Encoder.QoiEncoder.EncodeLoop | src/encoder.rs:28-38 | after the loop the object holds the state, and the chunks are those, that `EncodePixels` gives for every pixel of the segment |
| Encoder.QoiEncoder.EncodeNext | src/encoder.rs:29-37 | one turn of the loop reads pixel i, with alpha 255 for 3 channels, and extends the `EncodePixels` of the first i pixels by it |
| Encoder.QoiEncoder.WriteChunk | src/chunks.rs:27-34 | the sink grows by the chunk's bytes |
| Encoder.QoiEncoder.WriteHeader | src/encoder.rs:159-172 | the sink grows by the header |
| Encoder.QoiEncoder.WriteChunks | src/encoder.rs:62-67 | the loop writes the bytes of every chunk in order |
| Encoder.QoiEncoder.WriteRun | src/encoder.rs:105-116 | the loop writes full runs of 62 while more remain, then the rest |
| Encoder.QoiEncoder.WriteResolved | src/encoder.rs:132-142 | the loop writes every remaining entry, resolved against the global cache |
| Encoder.QoiEncoder.FixBoundary | src/encoder.rs:71-92 | the early chunk written by the hack, the copy's run and the chunks to place are those of `Boundary` |
| Encoder.QoiEncoder.ContinueRun | src/encoder.rs:95-117 | the run loop consumes the leading run chunks, or panics when it consumes them all; the re-split run is written |
| Encoder.QoiEncoder.Place | src/encoder.rs:94-131 | zero chunks continue the run; one chunk takes the first entry's place; with two, the ended run is written and the second chunk takes the place |
| Encoder.QoiEncoder.Stitch | src/encoder.rs:69-145 | one later segment is written and merged exactly as `StitchSegment` says, or the panic is reported |
| Encoder.QoiEncoder.FinishSegment | src/encoder.rs:132-144 | the remaining entries are written and the segment's state is merged into the global one |
| Encoder.QoiEncoder.StitchSegments | src/encoder.rs:69-145 | the loop over the later segments writes what `StitchAll` gives and leaves the global state it gives |
| Encoder.QoiEncoder.EncodeBody | src/encoder.rs:53-156 | the sink grows by exactly the bytes of `EncodeSegments` with two segments, and the panic is the same |
| Encoder.QoiEncoder.Encode | src/encoder.rs:43-157 | the sink grows by the header and the body, and the panic is the same as the function's |
| Decoder.ColourOf | src/decoder.rs:79-83 | the channel byte is accepted exactly when it is 3 or 4, and the colour type has that many channels |
| Decoder.ParseHeader | src/decoder.rs:72-83 | the header is rejected exactly when the magic is not "qoif" or the channels are not 3 or 4; otherwise width and height are its big-endian words |
| Decoder.BigEndianRoundTrip | src/decoder.rs:76-77 | `from_be_bytes` inverts `to_be_bytes` |
| Decoder.HeaderRoundTrip | src/decoder.rs:66-86 | the header the encoder writes parses back to the same width, height and colour type and consumes 14 bytes |
| Decoder.QoiDecoder.Init | src/decoder.rs:54-60 | a new decoder holds the reader, a zero size and colour type RGBA |
| Decoder.QoiDecoder.New | src/decoder.rs:54-63 | the decoder is returned exactly when the header parses, holding its width, height and colour type and the bytes after the header; otherwise the header's error is returned |
| Decoder.QoiDecoder.ReadMetadata | src/decoder.rs:66-86 | 14 bytes are consumed; the error is reported exactly when the header is rejected; otherwise the fields hold the parsed header |
| Decoder.Fresh | src/decoder.rs:98-106 | the new reader state is valid: previous pixel (0,0,0,255), all slots (0,0,0,0), no countdown |
| Decoder.ParseChunk | src/decoder.rs:112-127 | the chunk found is well formed and consumes exactly its size; an RGB chunk takes the previous pixel's alpha, the QOI format's rule assumed for the missing `From` conversion |
| Decoder.OnlyExhaustionIsUnreachable | src/decoder.rs:112-127 | `unreachable!()` is reached exactly when the input is exhausted |
| Decoder.ReadStep | src/decoder.rs:108-131 | a pending countdown repeats the previous pixel without consuming input; the pixel read becomes the previous one, and a pixel read from a chunk is cached at its slot with every other slot kept |
| Decoder.Countdown | src/decoder.rs:109-110 | k pixels under a countdown of at least k are k copies of the previous pixel, with no input consumed |
| Decoder.ReadPixelsAdd | src/decoder.rs:149-152 | reading n + k pixels is reading n, then k from where those left off |
| Decoder.QoiReader.constructor | src/decoder.rs:98-106 | the new reader holds the fresh state |
| Decoder.QoiReader.DecodeChunk | src/decoder.rs:111-131 | one chunk is consumed and its pixel cached and made the previous pixel, as `ReadStep` says, or the fault is reported |
| Decoder.QoiReader.ReadPixel | src/decoder.rs:108-140 | the state moves as `ReadStep` says, and the pixel's bytes are written at the given offset and nowhere else |
| Decoder.QoiReader.Read | src/decoder.rs:145-155 | the buffer is filled with the pixels `ReadPixels` gives, and `count * channels` bytes are reported |
| Decoder.QoiReader.ReadLoop | src/decoder.rs:149-152 | after the loop the reader stands where `ReadPixels` of `count` pixels leaves it and the buffer holds their bytes, or the first fault is reported |
| Decoder.QoiReader.ReadNext | src/decoder.rs:150-151 | one turn of the loop extends what `ReadPixels` has read by one pixel, written at its offset, or the fault fails the whole read |
| Vectors.RleSingleSegment | src/lib.rs:52-59 | four equal pixels as one segment encode as the raw pixel and 0xC2, as the test expects |
| Vectors.RleSplitDiffers | src/lib.rs:52-59 | four equal pixels in two segments encode differently from one segment |
| Vectors.IndexSingleSegment | src/lib.rs:73-80 | A B A B as one segment encode as two raw chunks then index 21 and 43, as the test expects |
| Vectors.IndexSplitDiffers | src/lib.rs:73-80 | A B A B in two segments encode differently from one segment |
| Vectors.OnlyPixelsSplitAgrees | src/lib.rs:61-71 | four distinct far-apart pixels encode the same in two segments as in one |
| DecodeVectors.RleDecoding | src/lib.rs:113-123 | the stream RGB then RUN(3) reads back as four copies of the pixel, with the input used up |
| DrainVectors.LoneRepeatLost | src/codec.rs:108-114 | two equal pixels encode as one raw chunk and no run, which reads back as the pixel then (0,0,0,0) |
| DrainVectors.LoneRepeatFixed | src/codec.rs:108-114 | with the corrected drain the same two pixels read back |
| ZeroSlotVectors.ZeroPixelLost | src/encoder.rs:69-145 | an RGBA image whose fourth pixel (0,0,0,0) is in the second segment reads back with that pixel replaced |
| ZeroSlotVectors.ZeroPixelKept | src/encoder.rs:69-145 | the corrected split encoding of that image reads back unchanged |
| DefaultSegmentVectors.DefaultSegmentPanics | src/encoder.rs:74 | a second segment holding only the pixel (0,0,0,255) yields no chunk, and taking its first chunk panics |
| DefaultSegmentVectors.DefaultSegmentKept | src/encoder.rs:69-145 | the corrected split encoding of that image reads back unchanged |
| EarlyRunVectors.DefaultRun | src/codec.rs:33-35 | up to 62 default pixels from a fresh state emit nothing and leave a run of that length |
| EarlyRunVectors.SegmentOut | src/encoder.rs:21-41 | the segment (0,0,0) (100,100,0) encodes as RUN of 1 then a raw chunk |
| EarlyRunVectors.EarlyRun | src/encoder.rs:81-92 | at a global run of 62, a boundary pixel that repeats it has RUN(62) written early and a run of 1 goes on |
| EarlyRunVectors.EarlyThenFixUp | src/encoder.rs:94-116 | the run of 1 is then written by the run fix-up, before the raw chunk |
| EarlyRunVectors.EarlyRunWritten | src/encoder.rs:69-145 | after 62 default pixels, that segment is stitched as 0xFD 0xC0 then the raw chunk |
| OddImageVectors.OddImagesPanic | src/encoder.rs:55-57 | three RGB pixels, and one RGBA pixel, panic when split in two |
| OddImageVectors.OddImageKept | src/encoder.rs:53-156 | the corrected split, cut on pixel boundaries, reads the three RGB pixels back |
| RoundTrip.ParseEncoded | src/decoder.rs:112-127 | a chunk's bytes are parsed back as that chunk, and exactly its size is consumed |
| RoundTrip.RunDecodes | src/decoder.rs:122-124 | a RUN(k) chunk reads back as k copies of the previous pixel |
| RoundTrip.DrainFixed | src/codec.rs:108-114 | the corrected drain returns a run exactly when one is pending, of exactly its length |
| RoundTrip.DrainsDifferOnlyOnOne | src/codec.rs:109 | the drain as written and the corrected one differ exactly on a pending run of one pixel |
| RoundTrip.PixelsRoundTrip | src/encoder.rs:21-41 | decoding the single-segment encoding with the corrected drain gives back every pixel, and the input left over is the end marker |
| RoundTrip.SingleSegmentRoundTrip | src/encoder.rs:43-157 | the encoder as written, with one segment, reads back whenever its final run is not exactly one pixel |
| Stitch.EncodeAppend | src/encoder.rs:28-38 | encoding a + b continues from the state after a and appends b's chunks |
| Stitch.FirstCloses | src/codec.rs:36-45 | when the next pixel differs from the previous one, the pending run is closed first and encoding goes on from run 0 |
| Stitch.LocalTracks | src/encoder.rs:132-142 | encoding a segment locally and resolving its open entries against the global cache gives the chunks global encoding would |
| Stitch.SegmentAgrees | src/encoder.rs:69-145 | stitching one segment onto a global state writes the chunks that encoding its pixels on that state gives, and leaves the same state |
| Stitch.LaterAgrees | src/encoder.rs:69-145 | stitching all later segments writes the chunks of encoding their concatenation |
| Stitch.SplitMatchesWhole | src/encoder.rs:53-156 | the corrected split encoding, for any number of segments, is byte for byte the single-segment encoding |
| Stitch.SplitRoundTrip | src/encoder.rs:53-156 | the corrected split encoding reads back as the original pixels, followed by the end marker |

## Left out

- The glue with the `image` crate (`ImageEncoder`, `ImageDecoder`, colour-type dispatch at src/encoder.rs:175-194 and src/decoder.rs:158-173), `src/main.rs` and `src/image.rs`: these are not part of this model.
- I/O: the sink is a byte sequence that always accepts, and the reader is the sequence of bytes not yet consumed. Write errors and `HeaderTooSmall` from a failing `read` are not modelled. A `read` that returns fewer bytes than are available is not modelled; one that runs out of input leaves the rest of the 14-byte buffer zero, as `HeaderBuffer` says.
- Panics (`chunks(0)`, an index past a segment's end, `chunks[0]` of an empty deque, `unreachable!()`, a truncated chunk) are modelled as fault values and are not unwinding.
- The 64-bit `modified` mask is modelled as a set of slot numbers. `1 << hash_idx` with `hash_idx < 64` never overflows, so the two agree.
- Codec.ProcessPixel: `run_length` is a `u8` in the source. The model uses `nat`, and proves it stays within 0..62.
- Encoder.QoiEncoder.ContinueRun: `actual_run_length` is a `u32`. The model uses `nat`; overflowing it would take a run of more than 2^32 pixels.
- Chunks.RunLength: `OP_RUN::run_length()` of a chunk read from the stream can be up to 64 for the stored values 62 and 63. The decoder tries the RGB and RGBA tags first, so those bytes never reach it.
- The `splits` constant is fixed at 2 in the source (`SPLITS`). The functions take it as a parameter, and the class uses 2.
- The dummy `OP_RUN::new(0)` at src/encoder.rs:73 is modelled as a stored run of 0. It is always replaced or removed before anything is written.

## Findings

| source | as written | input that shows it | evidently intended | confidence | as-written member | corrected member |
|---|---|---|---|---|---|---|
| src/encoder.rs:94-116 | a run crossing the boundary is written as the copy's run at once; the later segment's own pending run is kept apart | test_rle_rgb: four (100,100,0) pixels, RGB, two segments, give RGB then 0xC1 instead of 0xC2 | the two segments give the bytes one segment gives | not executed | Vectors.RleSplitDiffers | Stitch.SplitMatchesWhole |
| src/encoder.rs:132-142 | entries of a later segment encoded against its fresh cache stay raw although the global cache holds the pixel | test_indexing: A B A B, RGB, two segments, give raw B where index 43 is expected | index chunks against the cache the decoder keeps | not executed | Vectors.IndexSplitDiffers | Stitch.SplitMatchesWhole |
| src/codec.rs:108-114 | `drain` writes the final run only when it is longer than 1 | two equal RGB pixels (100,100,0), one segment: RGB then the end marker, which reads back as the pixel then (0,0,0,0) | drain every pending run (`run_length > 0`) | not executed | DrainVectors.LoneRepeatLost | RoundTrip.PixelsRoundTrip |
| src/encoder.rs:69-145 | an index hit on a slot a later segment never wrote is marked resolved against the fresh cache's (0,0,0,0) | RGBA (0,0,0,64) (0,0,0,64) (1,1,1,64) (0,0,0,0), two segments: index 0 is written for (0,0,0,0) and reads back as (0,0,0,64) | decide hits on unwritten slots against the global cache | not executed | ZeroSlotVectors.ZeroPixelLost | Stitch.SplitRoundTrip |
| src/encoder.rs:55-57 | the buffer is halved by bytes, so with an odd number of pixels the first segment ends inside a pixel and `to_chunks` indexes past its end (src/encoder.rs:28-33) | three RGB pixels 1..9, or one RGBA pixel, two segments | cut the image on pixel boundaries | not executed | Encoder.OddPixelsPanic | Stitch.SplitRoundTrip |
| src/encoder.rs:74 | a later segment that starts with the default pixel (0,0,0,255) extends the fresh state's run; if it holds nothing else it has no chunk and `chunks[0]` panics | RGB (100,100,0) (0,0,0), two segments | encode the segment's leading run against the global state | not executed | DefaultSegmentVectors.DefaultSegmentPanics | Stitch.SplitRoundTrip |
