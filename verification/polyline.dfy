/** The encoded polyline codec over fixed-point points: `polyline_encode_line`
    with its range validation, and `decode` with its three outcomes. */
module Polyline {
  import opened Outcomes
  import opened Chars
  import opened Varint
  import ZigZag

  /** A position in the fixed-point domain: degrees times 10^precision,
      already rounded, as `encode`'s `transform` closure produces it. */
  datatype FixedPoint = FixedPoint(lat: int, lng: int)

  const Origin := FixedPoint(0, 0)

  /** A caller's coordinate in degrees, as its `lat()` and `lng()` report it. */
  datatype LatLng = LatLng(lat: real, lng: real)

  datatype InvalidLatLngError = InvalidLatLngError(lat: real, lng: real)

  datatype InvalidEncodingError = InvalidEncodingError(encodedPath: seq<CodePoint>)

  /** What a call of `decode` ends in: a path, the error value, or a panic of
      the `unwrap` on the longitude read. */
  datatype DecodeOutcome =
    | Decoded(path: seq<FixedPoint>)
    | Failed(error: InvalidEncodingError)
    | Panicked

  /** The range every coordinate must lie in to be encoded. */
  predicate InRange(p: LatLng) {
    -90.0 <= p.lat <= 90.0 && -180.0 <= p.lng <= 180.0
  }

  /** `validate`: succeeds exactly on coordinates in range, otherwise fails
      with an error carrying the coordinate. */
  function Validate(p: LatLng): (r: Result<(), InvalidLatLngError>)
    ensures r.Ok? <==> InRange(p)
    ensures r.Err? ==> r.error == InvalidLatLngError(p.lat, p.lng)
  {
    if p.lat < -90.0 || p.lat > 90.0 || p.lng < -180.0 || p.lng > 180.0 then
      Err(InvalidLatLngError(p.lat, p.lng))
    else
      Ok(())
  }

  /** `encode_signed`: zig-zag, then the character form. */
  function EncodeSigned(value: int): seq<CodePoint> {
    EncodeUnsigned(ZigZag.Encode(value))
  }

  /** The chunk the latitude of `end` is written as, against `start`. */
  function LatitudeChunk(end: FixedPoint, start: FixedPoint): seq<CodePoint> {
    EncodeSigned(end.lat - start.lat)
  }

  /** The chunk the longitude of `end` is written as, against `start`. */
  function LongitudeChunk(end: FixedPoint, start: FixedPoint): seq<CodePoint> {
    EncodeSigned(end.lng - start.lng)
  }

  /** The characters one loop iteration of `polyline_encode_line` emits: the
      latitude delta against `start`, then the longitude delta. */
  function EncodePoint(end: FixedPoint, start: FixedPoint): seq<CodePoint> {
    LatitudeChunk(end, start) + LongitudeChunk(end, start)
  }

  /** The integer layer of the encoder: the concatenated output for `points`
      when the running position starts at `start`. */
  function EncodePoints(points: seq<FixedPoint>, start: FixedPoint): seq<CodePoint>
    decreases |points|
  {
    if points == [] then []
    else EncodePoint(points[0], start) + EncodePoints(points[1..], points[0])
  }

  /** Every character of an encoded path is in the alphabet. */
  lemma {:induction false} EncodePointsAlphabet(points: seq<FixedPoint>, start: FixedPoint)
    ensures forall i :: 0 <= i < |EncodePoints(points, start)| ==> InAlphabet(EncodePoints(points, start)[i])
    decreases |points|
  {
    if points != [] {
      var lat := EncodeSigned(points[0].lat - start.lat);
      var lng := EncodeSigned(points[0].lng - start.lng);
      var rest := EncodePoints(points[1..], points[0]);
      EncodePointsAlphabet(points[1..], points[0]);
      AlphabetAppend(lat, lng);
      AlphabetAppend(lat + lng, rest);
    }
  }

  lemma AlphabetAppend(a: seq<int>, b: seq<int>)
    requires forall i :: 0 <= i < |a| ==> InAlphabet(a[i])
    requires forall i :: 0 <= i < |b| ==> InAlphabet(b[i])
    ensures forall i :: 0 <= i < |a + b| ==> InAlphabet((a + b)[i])
  {
  }

  /** Exactly two characters of an encoded path (one per coordinate) end a
      chunk for each point, so it is at least twice as long as the path. */
  lemma {:induction false} EncodePointsTerminators(points: seq<FixedPoint>, start: FixedPoint)
    ensures Terminators(EncodePoints(points, start)) == 2 * |points|
    ensures |EncodePoints(points, start)| >= 2 * |points|
    decreases |points|
  {
    if points != [] {
      var lat := EncodeSigned(points[0].lat - start.lat);
      var lng := EncodeSigned(points[0].lng - start.lng);
      var rest := EncodePoints(points[1..], points[0]);
      EncodePointsTerminators(points[1..], points[0]);
      EncodedTerminators(ZigZag.Encode(points[0].lat - start.lat));
      EncodedTerminators(ZigZag.Encode(points[0].lng - start.lng));
      TerminatorsAppend(lat, lng);
      TerminatorsAppend(lat + lng, rest);
    }
  }

  /** The position the encoder's running `start` holds after `points`. */
  function Last(points: seq<FixedPoint>, start: FixedPoint): FixedPoint {
    if points == [] then start else points[|points| - 1]
  }

  /** `transform` applied to every coordinate of the path. */
  function Transformed(path: seq<LatLng>, transform: LatLng -> FixedPoint): (r: seq<FixedPoint>)
    ensures |r| == |path|
    ensures forall i :: 0 <= i < |path| ==> r[i] == transform(path[i])
  {
    seq(|path|, i requires 0 <= i < |path| => transform(path[i]))
  }

  /** Index of the first coordinate out of range, if any. */
  predicate FirstInvalidAt(path: seq<LatLng>, i: int) {
    0 <= i < |path| && !InRange(path[i]) && forall j :: 0 <= j < i ==> InRange(path[j])
  }

  /** The loop of `polyline_encode_line` from running position `start`:
      validate each coordinate, transform it, emit its deltas, move on. It
      fails exactly when some coordinate is out of range, with the first such
      coordinate in the error; otherwise it emits the integer-layer encoding
      of the transformed path. */
  function EncodeLine(path: seq<LatLng>, transform: LatLng -> FixedPoint, start: FixedPoint)
    : (r: Result<seq<CodePoint>, InvalidLatLngError>)
    ensures r.Err? <==> exists i :: 0 <= i < |path| && !InRange(path[i])
    ensures r.Err? ==> exists i :: FirstInvalidAt(path, i) && r.error == InvalidLatLngError(path[i].lat, path[i].lng)
    ensures r.Ok? ==> r.value == EncodePoints(Transformed(path, transform), start)
    decreases |path|
  {
    if path == [] then Ok([])
    else
      match Validate(path[0])
      case Err(e) =>
        assert FirstInvalidAt(path, 0);
        Err(e)
      case Ok(_) =>
        var end := transform(path[0]);
        var tail := path[1..];
        assert Transformed(path, transform)[1..] == Transformed(tail, transform);
        assert forall i :: 0 < i < |path| ==> tail[i - 1] == path[i];
        match EncodeLine(tail, transform, end)
        case Err(e) =>
          assert exists i :: FirstInvalidAt(path, i) && e == InvalidLatLngError(path[i].lat, path[i].lng) by {
            var i :| FirstInvalidAt(tail, i) && e == InvalidLatLngError(tail[i].lat, tail[i].lng);
            assert FirstInvalidAt(path, i + 1);
          }
          Err(e)
        case Ok(rest) => Ok(EncodePoint(end, start) + rest)
  }

  /** `polyline_encode_line` (and `encode` once its scaling closure is given):
      the empty path encodes to the empty string. */
  function PolylineEncodeLine(path: seq<LatLng>, transform: LatLng -> FixedPoint)
    : (r: Result<seq<CodePoint>, InvalidLatLngError>)
    ensures path == [] ==> r == Ok([])
    ensures r.Ok? ==> Terminators(r.value) == 2 * |path|
  {
    EncodePointsTerminators(Transformed(path, transform), Origin);
    EncodeLine(path, transform, Origin)
  }

  /** What reading one point leaves: the point and the index after its two
      chunks, or a read past the last character in either chunk. */
  datatype PointRead = Point(here: FixedPoint, next: nat) | LatitudeMissing | LongitudeMissing

  /** One iteration of the outer loop of `decode`: read the latitude chunk
      (its failure is `InvalidEncodingError`), then the longitude chunk (its
      failure hits `unwrap`), and add both deltas to the running position. */
  function ReadPoint(s: seq<CodePoint>, index: nat, at: FixedPoint): (r: PointRead)
    ensures r.Point? ==> index + 2 <= r.next <= |s|
  {
    match ReadChunk(s, index)
    case None => LatitudeMissing
    case Some(latChunk) =>
      match ReadChunk(s, latChunk.next)
      case None => LongitudeMissing
      case Some(lngChunk) =>
        var here := FixedPoint(at.lat + ZigZag.Decode(latChunk.result), at.lng + ZigZag.Decode(lngChunk.result));
        Point(here, lngChunk.next)
  }

  /** Where the outer loop of `decode` ends: with every point, or on a read
      past the last character inside a latitude or a longitude chunk. */
  datatype Walk = Complete(path: seq<FixedPoint>) | CutInLatitude | CutInLongitude

  /** The outer loop of `decode` from character `index`, with the running
      position `at` and the loop bound `len`. A completed walk reads two
      characters at least per point and needs `len` not to exceed the
      number of characters. */
  function WalkFrom(s: seq<CodePoint>, len: nat, index: nat, at: FixedPoint): (w: Walk)
    requires index <= |s|
    ensures w.Complete? ==> 2 * |w.path| <= |s| - index
    ensures w.Complete? ==> len <= |s|
    decreases |s| - index
  {
    if index >= len then Complete([])
    else
      match ReadPoint(s, index, at)
      case LatitudeMissing => CutInLatitude
      case LongitudeMissing => CutInLongitude
      case Point(here, next) => Prepend([here], WalkFrom(s, len, next, here))
  }

  /** `points` decoded ahead of a walk: a completed walk gains them in
      front, a cut walk stays cut. */
  function Prepend(points: seq<FixedPoint>, w: Walk): (r: Walk)
    ensures r.Complete? <==> w.Complete?
    ensures r.Complete? ==> r.path == points + w.path
  {
    match w
    case Complete(rest) => Complete(points + rest)
    case cut => cut
  }

  /** `decode` on the fixed-point layer. The loop runs while the character
      index is below the byte length, so a string with a non-ASCII character
      never decodes; the empty string decodes to the empty path; an error
      carries the whole input. */
  function Decode(s: seq<CodePoint>): (r: DecodeOutcome)
    ensures s == [] ==> r == Decoded([])
    ensures r.Failed? ==> r.error == InvalidEncodingError(s)
    ensures r.Decoded? ==> IsAscii(s) && 2 * |r.path| <= |s|
  {
    match WalkFrom(s, Utf8Length(s), 0, Origin)
    case Complete(path) => Decoded(path)
    case CutInLatitude => Failed(InvalidEncodingError(s))
    case CutInLongitude => Panicked
  }

  /** `decode` with the longitude read reporting a truncated string the way
      the latitude read does, instead of unwrapping: it never panics, and it
      agrees with `decode` on every input `decode` does not panic on. */
  function DecodeChecked(s: seq<CodePoint>): (r: DecodeOutcome)
    ensures !r.Panicked?
    ensures !Decode(s).Panicked? ==> r == Decode(s)
    ensures Decode(s).Panicked? ==> r == Failed(InvalidEncodingError(s))
  {
    match WalkFrom(s, Utf8Length(s), 0, Origin)
    case Complete(path) => Decoded(path)
    case _ => Failed(InvalidEncodingError(s))
  }
}
