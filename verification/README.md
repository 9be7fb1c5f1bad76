# Encoded polyline codec, integer layer

A Dafny model of the `polyline_codec` Rust crate (`src/lib.rs`). The crate
implements Google's encoded polyline format. Each coordinate is scaled to a
fixed-point integer and written as the delta from the previous point. The
delta is zig-zag mapped to a non-negative integer, cut into 5-bit groups
(least significant first) and written one character per group: the group
plus 63, with 0x20 added on every group but the last.

The model covers:

- `encode_unsigned` and `encode_signed`: `Varint.EncodeUnsigned`,
  `Polyline.EncodeSigned`, `ZigZag.Encode`;
- the loop of `polyline_encode_line`, including `validate` and the fail-fast
  on the first invalid coordinate: `Polyline.EncodeLine`,
  `Polyline.PolylineEncodeLine`, `Polyline.Validate`;
- `decode`, with its sentinel accumulator (the result starts at 1 and each
  character adds `(c - 64) << shift`) and its three ways out:
  `Polyline.Decode` returns `Decoded`, `Failed(InvalidEncodingError)` or
  `Panicked`;
- a corrected decoder, `Polyline.DecodeChecked`, that never panics (see
  Findings).

The points handed to the encoder are the integers the `transform` closure
produces (`FixedPoint`). `encode` scales and rounds floats before that step;
the model leaves that out.

`decode` bounds its loop with `str::len`, which counts UTF-8 bytes, but reads
characters with `chars().nth(index)`. The model keeps both. `Chars.Utf8Length`
is the byte length, and the characters are Unicode code points. As a result a
string holding any non-ASCII character never decodes to a path.

The main results:

- **Round trip.** `PolylineLaws.RoundTrip`: decoding the encoding of any
  integer path gives back that path. `PolylineLaws.EncodeDecodeRoundTrip`
  lifts this to `polyline_encode_line`.
- **Base-32 chunks are canonical.** `Varint.CanonicalIsEncoded`,
  `Varint.EncodeUnsignedValue` and `Varint.SentinelIsTextbook` show three
  things: the sentinel-based reader computes the textbook base-32 value; the
  writer's output is exactly the canonical chunks; and reading a chunk back
  yields its value.
- **Every outcome of `decode`.** `PolylineLaws.DecodeOutcomes` gives the
  outcome for every string, from the number of chunk-ending characters (those
  below 95), for a precision of at most 9, and for chunks whose accumulator
  stays within an `i32` (the overflow panics beyond that, including those
  that non-ASCII characters cause, are listed under Left out):
  - `decode` panics exactly when that number is odd;
  - it returns a path exactly when the number is even, the string is ASCII
    and the string ends on a chunk end;
  - it returns InvalidEncodingError in every other case.
- **Truncation.** `PolylineLaws.CutInLatitudeFails`,
  `PolylineLaws.CutInLongitudePanics` and `PolylineLaws.CutCheckedFails`
  cover every cut of an encoded path.
- **Worked examples.** `Vectors` holds the crate's examples (the documented
  three-point path, the precision-0 string, the empty path and string), one
  instance of the random round-trip test's rejection branch, and two cuts of
  the documented string that exhibit the Findings row.

The latitude read (src/lib.rs:95-100) reports a truncated string as
InvalidEncodingError; the longitude read (src/lib.rs:118) unwraps and panics
(see Findings).

## Model

| member | source | states |
|---|---|---|
| Chars.Utf8Length | src/lib.rs:83 | The byte length `decode` loops to is at least the character count, and equals it exactly when every character is ASCII. |
| ZigZag.Encode | src/lib.rs:200 | The zig-zag mapping of `encode_signed`: a non-negative result (its type is `nat`), odd exactly for negative deltas (`ZigZag.EncodeOrder`), and inverted by `ZigZag.Decode` (`ZigZag.DecodeEncode`). |
| ZigZag.Decode | src/lib.rs:110-114 | The signed value `decode` takes from an accumulator (`result & 1`, `!(result >> 1)`, the same at lines 127-131): it undoes `ZigZag.Encode` on every delta (`ZigZag.DecodeEncode`), and `ZigZag.Encode` undoes it on every natural accumulator (`ZigZag.EncodeDecode`). |
| ZigZag.EncodeOrder | src/lib.rs:199-201 | The zig-zag value is odd exactly for negative deltas and lies between 2·Abs(v) − 1 and 2·Abs(v), so small deltas stay small. |
| ZigZag.DecodeEncode | src/lib.rs:110-114 | The decoder's `result & 1` / `!(result >> 1)` step inverts the encoder's zig-zag mapping for every integer delta. |
| ZigZag.EncodeDecode | src/lib.rs:127-131 | Conversely, zig-zag encoding the decoder's signed value gives back every non-negative accumulator value. |
| Varint.EncodeUnsigned | src/lib.rs:203-212 | The characters written for a non-negative value form one canonical chunk. Every character is in 63..126. Every character but the last carries the continuation bit and the last does not. There is no superfluous trailing zero group. |
| Varint.EncodeUnsignedLength | src/lib.rs:205-209 | The loop writes the fewest characters that can hold the value: value < 32^n, and value ≥ 32^(n−1) when n > 1. |
| Varint.EncodeUnsignedValue | src/lib.rs:203-212 | Reading the written groups as base-32 digits, least significant first, gives back the value. |
| Varint.CanonicalIsEncoded | src/lib.rs:203-212 | Every canonical chunk is exactly what the writer produces for its base-32 value, so the writer is onto the canonical chunks. |
| Varint.ReadChunk | src/lib.rs:93-109 | A chunk read that succeeds consumes at least one character and stops within the string. |
| Varint.ReadChunkStops | src/lib.rs:93-109 | A chunk read succeeds exactly when a character below 95 lies ahead. It stops just past the first such character, and every character before it is at least 95. |
| Varint.SentinelIsTextbook | src/lib.rs:90-109 | On a well-formed chunk, the sentinel accumulator (start at 1, add `(c − 64) << 5k`) equals the textbook base-32 value of the groups, and the index moves past the chunk. |
| Varint.ChunkRoundTrip | src/lib.rs:93-109 | Reading the characters `encode_unsigned` wrote for a value, wherever they sit in the string, returns that value and the index just past them. |
| Varint.ReadFrom | src/lib.rs:93-109 | The inner loop of `decode`, one character per step: a read that succeeds ends past `index` and within the string. Its full meaning is stated by `Varint.ReadFromStops` (it stops at the first character below 95) and `Varint.ReadFromWellFormed` (on a well-formed chunk it adds the chunk's base-32 value to the accumulator). |
| Varint.EncodedTerminators | src/lib.rs:203-212 | Each written chunk holds exactly one character below 95. |
| Polyline.Validate | src/lib.rs:186-195 | Validation succeeds exactly when −90 ≤ lat ≤ 90 and −180 ≤ lng ≤ 180. Otherwise it fails with an error carrying that latitude and longitude. |
| Polyline.EncodeSigned | src/lib.rs:199-201 | `encode_signed`: the zig-zag value written by `encode_unsigned`, so one canonical chunk (`Varint.EncodeUnsigned`) that reads back as the delta (`PolylineLaws.ReadEncodedPoint`). |
| Polyline.EncodePoint | src/lib.rs:173-180 | One loop iteration of `polyline_encode_line`: the latitude chunk, then the longitude chunk, each delta taken against the previous point; reading it back gives the point (`PolylineLaws.ReadEncodedPoint`). |
| Polyline.EncodePoints | src/lib.rs:170-182 | The whole loop on the transformed points from (0, 0): characters in 63..126 (`Polyline.EncodePointsAlphabet`), two chunk ends per point (`Polyline.EncodePointsTerminators`), and decoded back to the same points (`PolylineLaws.RoundTrip`). |
| Polyline.EncodePointsAlphabet | src/lib.rs:170-182 | Every character the encoding loop emits lies in 63..126. |
| Polyline.EncodePointsTerminators | src/lib.rs:170-182 | The loop writes exactly two chunks per point, so an n-point path has 2n chunk ends and at least 2n characters. |
| Polyline.EncodeLine | src/lib.rs:167-183 | The loop fails exactly when some point is out of range, and then with the first such point's coordinates. Otherwise it returns each point's latitude and longitude deltas, written against the previous transformed point starting from (0, 0). |
| Polyline.PolylineEncodeLine | src/lib.rs:162-184 | The empty path encodes to the empty string, and a successful encoding of n points holds 2n chunk ends. |
| Polyline.ReadPoint | src/lib.rs:89-131 | Reading a whole point consumes at least two characters and stays within the string. |
| Polyline.WalkFrom | src/lib.rs:89-133 | A walk of the outer loop that completes reads at most one point per two characters and was bounded by at most the character count. |
| Polyline.Decode | src/lib.rs:78-136 | The empty string decodes to the empty path. Every error carries the input string. A decoded path comes from an ASCII string with at least two characters per point. |
| Polyline.DecodeChecked | src/lib.rs:117-125 | The corrected decoder never panics. It agrees with `decode` wherever `decode` does not panic, and reports InvalidEncodingError with the input where `decode` would panic. |
| PolylineLaws.ReadEncodedPoint | src/lib.rs:89-131 | Reading the two chunks written for a point, against the same previous point, gives that point and the index just past them. |
| PolylineLaws.WalkEncoded | src/lib.rs:89-133 | Walking over an encoded path that sits anywhere in a string yields exactly its points, in order, and resumes just past it from its last point. |
| PolylineLaws.RoundTrip | src/lib.rs:256-265 | Decoding the encoding of any integer path returns exactly that path, with both `decode` and the corrected decoder. |
| PolylineLaws.EncodeDecodeRoundTrip | src/lib.rs:280-290 | For in-range input, `polyline_encode_line` succeeds, and decoding its output returns the transformed points. Re-encoding those points gives the same string. |
| PolylineLaws.EncodeRejects | src/lib.rs:170-171 | An out-of-range coordinate makes encoding fail with the first such coordinate, whatever valid or invalid points follow it. |
| PolylineLaws.WalkOutcome | src/lib.rs:89-133 | The outer loop dies in a longitude chunk exactly when the remaining chunk ends are odd. It completes exactly when they are even, the string ends on a chunk end and the loop bound is the character count. |
| PolylineLaws.DecodeOutcomes | src/lib.rs:78-136 | Gives the outcome of `decode` for every string: it panics when the number of chunk ends is odd; it returns a path when that number is even, the string is ASCII and the string ends on a chunk end; it returns InvalidEncodingError otherwise. |
| PolylineLaws.DecodeCheckedOutcomes | src/lib.rs:117-125 | The corrected decoder returns a path under exactly the same conditions as `decode`, and InvalidEncodingError in every other case. |
| PolylineLaws.EncodePointsSnoc | src/lib.rs:170-182 | Appending a point appends its two chunks, written against the previous last point. |
| PolylineLaws.EncodePointsPrefix | src/lib.rs:170-182 | The encoding of a path is a prefix of the encoding of every extension of it. |
| PolylineLaws.PointChunksPrefix | src/lib.rs:173-180 | The encoding of the first k points, followed by point k's latitude and longitude chunks, starts the encoding of the whole path. |
| PolylineLaws.CutInLatitudeFails | src/lib.rs:95-100 | An encoded path cut strictly inside a point's latitude chunk makes `decode` return InvalidEncodingError. |
| PolylineLaws.CutInLongitudePanics | src/lib.rs:118 | An encoded path cut inside a point's longitude chunk, or just before it, makes `decode` panic. |
| PolylineLaws.CutCheckedFails | src/lib.rs:117-125 | A cut anywhere inside a point's chunks makes the corrected decoder return InvalidEncodingError. |
| PolylineLaws.LoneLatitudePanics | src/lib.rs:118 | The first latitude chunk of any path, on its own, makes `decode` panic. |
| Vectors.EncodeExample | src/lib.rs:247-252 | The documented path, scaled to precision 5, encodes to the documented string (`_p~iF`, `~ps`, ... `vxq` and a final `@`, chunk by chunk). |
| Vectors.DecodeExample | src/lib.rs:225-231 | That string decodes to the documented path at precision 5. |
| Vectors.DecodeCoarse | src/lib.rs:234-239 | `mAnFC@CH` decodes to (39, −120), (41, −121), (43, −126). |
| Vectors.EmptyVectors | src/lib.rs:219-244 | The empty string decodes to no points, and the empty path encodes to the empty string. |
| Vectors.RejectsPastThePole | src/lib.rs:256-260 | A latitude of 91 after a valid point is rejected with (91, 0). |
| Vectors.CutExample | src/lib.rs:118 | `_p~iF`, the documented string cut after its first latitude chunk, makes `decode` panic, while the corrected decoder reports InvalidEncodingError. |
| Vectors.CutInsideExample | src/lib.rs:95-100 | `_p~`, cut inside the first latitude chunk, makes `decode` return InvalidEncodingError with that string. |

## Left out

- Floating point: `encode`'s scaling by `10^precision` and `round()`, and `decode`'s accumulation in `f64` and division by the factor. The model works on the fixed-point integers before scaling. Its round trip is therefore exact on integers, and it says nothing about re-encoding decoded floats.
- NaN coordinates: `Validate` takes real numbers, and every comparison with NaN is false in the source. A NaN coordinate would pass validation there.
- PolylineLaws.DecodeOutcomes: the classification covers the panics at src/lib.rs:118 only. Under Rust's overflow checks `decode` also panics in three places the model does not have: `10_i32.pow(precision)` at src/lib.rs:79 overflows for a precision of 10 or more, even on the empty string; `result +=` at src/lib.rs:104 and 120 can overflow the `i32` in a chunk of seven or more ASCII characters once its value reaches 2^31, and from a chunk's fourth character when it holds non-ASCII characters (four U+10FFFF characters make `b << 15` wrap and the sum overflow); and `b << shift` at the same lines panics once the shift reaches 35, on a chunk's eighth character. The classification holds for a precision of at most 9 and chunks whose accumulator stays within an `i32`. The model has no precision parameter, because the precision only scales the floats left out above.
- Polyline.Decode: the accumulator is an unbounded integer. In the source, `result` is an `i32` and `b << shift` is an `i32` shift, so a chunk of seven or more characters can overflow (when its value reaches 2^31), and from the eighth character on the shift itself passes 31 bits. The model decodes such chunks to their full value.
- ZigZag.Encode: `value << 1` on an `i64` wraps for deltas of magnitude 2^62 and above, and the `i64` subtraction `end.lat().round() as i64 - start.lat().round() as i64` (src/lib.rs:174, 178, the same for longitude) panics under overflow checks when consecutive transformed coordinates are more than `i64::MAX` apart, which `encode` reaches from precision 17 (latitude 90, then −90). The model subtracts and doubles unbounded integers. So `ZigZag.DecodeEncode` and `PolylineLaws.RoundTrip` hold for every integer rather than for the deltas that fit.
- The `Point` trait, its tuple and `LatLng` implementations, and `PartialEq`. Coordinates are plain pairs here.
- The `Display` and `Error` implementations of the two error types. Only the data the errors carry is modelled.
- Output assembly: `String::from_utf16`, `join`, `Vec::with_capacity` and `shrink_to_fit`. The encoder's output is the concatenated sequence of code points.
- Precision sensitivity (different strings at precision 0 and 5 for non-integer degrees): a property of the float scaling left out above.

## Findings

| source | as written | input that shows it | evidently intended | confidence | as-written member | corrected member |
|---|---|---|---|---|---|---|
| src/lib.rs:118 | The longitude character is read with `chars().nth(index).unwrap()`, so a string that ends inside a longitude chunk, or right after a latitude chunk, panics. | `_p~iF` (the documented string cut after its first latitude chunk) | Report InvalidEncodingError with the input, as the latitude read at src/lib.rs:95-100 does | high; not executed | PolylineLaws.CutInLongitudePanics | Polyline.DecodeChecked |
