/** Laws of the codec: decoding inverts encoding, the outcome of `decode` on
    every string, and what truncating an encoded path does. */
module PolylineLaws {
  import opened Outcomes
  import opened Chars
  import opened Varint
  import opened Polyline
  import ZigZag

  /** A string that is empty or whose last character ends a chunk. */
  predicate EndsOnChunk(s: seq<int>) {
    s == [] || s[|s| - 1] < MinContinued
  }

  /** Reading the two chunks of one point written against `start` yields
      that point. */
  lemma ReadEncodedPoint(s: seq<CodePoint>, index: nat, p: FixedPoint, start: FixedPoint)
    requires index + |EncodePoint(p, start)| <= |s|
    requires s[index..index + |EncodePoint(p, start)|] == EncodePoint(p, start)
    ensures ReadPoint(s, index, start) == Point(p, index + |EncodePoint(p, start)|)
  {
    var dLat := p.lat - start.lat;
    var dLng := p.lng - start.lng;
    var lat := EncodeSigned(dLat);
    var lng := EncodeSigned(dLng);
    assert EncodePoint(p, start) == lat + lng;
    ReadChunkPair(s, index, dLat, dLng);
    var latChunk := Chunk(ZigZag.Encode(dLat), index + |lat|);
    var lngChunk := Chunk(ZigZag.Encode(dLng), index + |lat| + |lng|);
    ReadPointOf(s, index, start, latChunk, lngChunk);
    ZigZag.DecodeEncode(dLat);
    ZigZag.DecodeEncode(dLng);
  }

  /** Reading two consecutive signed chunks returns both zig-zagged values. */
  lemma ReadChunkPair(s: seq<CodePoint>, index: nat, dLat: int, dLng: int)
    requires index + |EncodeSigned(dLat) + EncodeSigned(dLng)| <= |s|
    requires s[index..index + |EncodeSigned(dLat) + EncodeSigned(dLng)|] == EncodeSigned(dLat) + EncodeSigned(dLng)
    ensures ReadChunk(s, index) == Some(Chunk(ZigZag.Encode(dLat), index + |EncodeSigned(dLat)|))
    ensures ReadChunk(s, index + |EncodeSigned(dLat)|)
         == Some(Chunk(ZigZag.Encode(dLng), index + |EncodeSigned(dLat)| + |EncodeSigned(dLng)|))
  {
    SplitSlice(s, index, EncodeSigned(dLat), EncodeSigned(dLng));
    ChunkRoundTrip(s, index, ZigZag.Encode(dLat));
    ChunkRoundTrip(s, index + |EncodeSigned(dLat)|, ZigZag.Encode(dLng));
  }

  /** A slice holding `a + b` holds `a`, then `b`. */
  lemma SplitSlice<T>(s: seq<T>, index: nat, a: seq<T>, b: seq<T>)
    requires index + |a + b| <= |s|
    requires s[index..index + |a + b|] == a + b
    ensures s[index..index + |a|] == a
    ensures s[index + |a|..index + |a| + |b|] == b
  {
    assert s[index..index + |a|] == s[index..index + |a + b|][..|a|];
    assert s[index + |a|..index + |a| + |b|] == s[index..index + |a + b|][|a|..];
  }

  /** ReadPoint in terms of the two chunk reads. */
  lemma ReadPointOf(s: seq<CodePoint>, index: nat, at: FixedPoint, latChunk: Chunk, lngChunk: Chunk)
    requires ReadChunk(s, index) == Some(latChunk)
    requires ReadChunk(s, latChunk.next) == Some(lngChunk)
    ensures ReadPoint(s, index, at)
         == Point(FixedPoint(at.lat + ZigZag.Decode(latChunk.result), at.lng + ZigZag.Decode(lngChunk.result)), lngChunk.next)
  {
  }

  /** Walking over the encoding of `points` from `start`, which occupies
      `s[index..end]`, decodes exactly `points`, whatever precedes or follows
      it in the string. */
  lemma {:induction false} WalkEncoded(s: seq<CodePoint>, len: nat, index: nat, end: nat, points: seq<FixedPoint>, start: FixedPoint)
    requires index <= end <= |s| <= len
    requires s[index..end] == EncodePoints(points, start)
    ensures WalkFrom(s, len, index, start) == Prepend(points, WalkFrom(s, len, end, Last(points, start)))
    decreases |points|
  {
    if points == [] {
      PrependNothing(WalkFrom(s, len, index, start));
    } else {
      var p0 := points[0];
      var here := EncodePoint(p0, start);
      var rest := EncodePoints(points[1..], p0);
      var mid := index + |here|;
      SplitEncoding(s, index, end, points, start);
      ReadEncodedPoint(s, index, p0, start);
      WalkStep(s, len, index, start, p0, mid);
      WalkEncoded(s, len, mid, end, points[1..], p0);
      LastOfTail(points, start);
      PrependTwice(points, WalkFrom(s, len, end, Last(points, start)));
    }
  }

  /** The slice holding a non-empty encoding holds its first point's
      characters, then the rest. */
  lemma SplitEncoding(s: seq<CodePoint>, index: nat, end: nat, points: seq<FixedPoint>, start: FixedPoint)
    requires index <= end <= |s|
    requires points != []
    requires s[index..end] == EncodePoints(points, start)
    ensures index + |EncodePoint(points[0], start)| <= end
    ensures s[index..index + |EncodePoint(points[0], start)|] == EncodePoint(points[0], start)
    ensures s[index + |EncodePoint(points[0], start)|..end] == EncodePoints(points[1..], points[0])
  {
    var here := EncodePoint(points[0], start);
    var rest := EncodePoints(points[1..], points[0]);
    assert EncodePoints(points, start) == here + rest;
    SplitSlice(s, index, here, rest);
  }

  /** One iteration of the outer loop that reads a whole point. */
  lemma WalkStep(s: seq<CodePoint>, len: nat, index: nat, at: FixedPoint, here: FixedPoint, next: nat)
    requires index <= |s| && index < len
    requires ReadPoint(s, index, at) == Point(here, next)
    ensures WalkFrom(s, len, index, at) == Prepend([here], WalkFrom(s, len, next, here))
  {
  }

  lemma PrependNothing(w: Walk)
    ensures Prepend([], w) == w
  {
    if w.Complete? {
      assert [] + w.path == w.path;
    }
  }

  lemma PrependTwice(points: seq<FixedPoint>, w: Walk)
    requires points != []
    ensures Prepend([points[0]], Prepend(points[1..], w)) == Prepend(points, w)
  {
    if w.Complete? {
      assert points == [points[0]] + points[1..];
      SeqAssoc([points[0]], points[1..], w.path);
    }
  }

  lemma LastOfTail(points: seq<FixedPoint>, start: FixedPoint)
    requires points != []
    ensures Last(points[1..], points[0]) == Last(points, start)
  {
  }

  lemma SeqAssoc<T>(a: seq<T>, b: seq<T>, c: seq<T>)
    ensures a + (b + c) == (a + b) + c
  {
  }

  /** Decoding the integer-layer encoding of any path gives the path back:
      same points, same count, same order. */
  lemma RoundTrip(points: seq<FixedPoint>)
    ensures Decode(EncodePoints(points, Origin)) == Decoded(points)
    ensures DecodeChecked(EncodePoints(points, Origin)) == Decoded(points)
  {
    var e := EncodePoints(points, Origin);
    EncodingIsAscii(points, Origin);
    WalkWhole(e, points);
    DecodeComplete(e, points);
  }

  /** The encoder writes ASCII only. */
  lemma EncodingIsAscii(points: seq<FixedPoint>, start: FixedPoint)
    ensures IsAscii(EncodePoints(points, start))
    ensures Utf8Length(EncodePoints(points, start)) == |EncodePoints(points, start)|
  {
    EncodePointsAlphabet(points, start);
  }

  /** The walk over a whole encoded path, bounded by its length, completes
      with the path. */
  lemma WalkWhole(e: seq<CodePoint>, points: seq<FixedPoint>)
    requires e == EncodePoints(points, Origin)
    ensures WalkFrom(e, |e|, 0, Origin) == Complete(points)
  {
    assert e[0..|e|] == e;
    WalkEncoded(e, |e|, 0, |e|, points, Origin);
    assert points + [] == points;
  }

  lemma DecodeComplete(s: seq<CodePoint>, points: seq<FixedPoint>)
    requires Utf8Length(s) == |s|
    requires WalkFrom(s, |s|, 0, Origin) == Complete(points)
    ensures Decode(s) == Decoded(points)
  {
  }

  /** For a path whose coordinates are all in range, `polyline_encode_line`
      succeeds, `decode` returns the transformed points, and encoding those
      again reproduces the same string. */
  lemma EncodeDecodeRoundTrip(path: seq<LatLng>, transform: LatLng -> FixedPoint)
    requires forall i :: 0 <= i < |path| ==> InRange(path[i])
    ensures PolylineEncodeLine(path, transform).Ok?
    ensures Decode(PolylineEncodeLine(path, transform).value) == Decoded(Transformed(path, transform))
    ensures DecodeChecked(PolylineEncodeLine(path, transform).value) == Decoded(Transformed(path, transform))
    ensures EncodePoints(Transformed(path, transform), Origin) == PolylineEncodeLine(path, transform).value
  {
    RoundTrip(Transformed(path, transform));
  }

  /** Encoding a path with a coordinate out of range fails with the first
      such coordinate, whatever follows it. */
  lemma EncodeRejects(path: seq<LatLng>, transform: LatLng -> FixedPoint, i: nat)
    requires FirstInvalidAt(path, i)
    ensures PolylineEncodeLine(path, transform) == Err(InvalidLatLngError(path[i].lat, path[i].lng))
  {
  }

  /** Terminators of a suffix, stepping over one chunk that ends at `j - 1`. */
  lemma SkipChunk(s: seq<CodePoint>, i: nat, j: nat)
    requires i < j <= |s|
    requires s[j - 1] < MinContinued
    requires forall k :: i <= k < j - 1 ==> s[k] >= MinContinued
    ensures Terminators(s[i..]) == 1 + Terminators(s[j..])
  {
    assert s[i..] == s[i..j - 1] + [s[j - 1]] + s[j..];
    NoTerminators(s[i..j - 1]);
    TerminatorsAppend(s[i..j - 1], [s[j - 1]]);
    TerminatorsAppend(s[i..j - 1] + [s[j - 1]], s[j..]);
    assert [s[j - 1]][1..] == [];
  }

  /** Terminators of a suffix that holds no chunk end. */
  lemma NoChunkEnd(s: seq<CodePoint>, i: nat)
    requires i <= |s|
    requires forall k :: i <= k < |s| ==> s[k] >= MinContinued
    ensures Terminators(s[i..]) == 0
  {
    NoTerminators(s[i..]);
  }

  /** How the outer loop ends, decided by the parity of the chunk ends left
      in the string: it dies in a longitude chunk exactly when their number
      is odd, and completes exactly when it is even, the string ends on a
      chunk end and the loop bound is the character count. */
  lemma {:induction false} WalkOutcome(s: seq<CodePoint>, len: nat, index: nat, at: FixedPoint)
    requires index <= |s| <= len
    ensures WalkFrom(s, len, index, at).CutInLongitude? <==> Terminators(s[index..]) % 2 == 1
    ensures WalkFrom(s, len, index, at).Complete?
        <==> Terminators(s[index..]) % 2 == 0 && len == |s| && (index == |s| || s[|s| - 1] < MinContinued)
    decreases |s| - index
  {
    if index == |s| {
      assert s[index..] == [];
      if index < len {
        WalkCut(s, len, index, at);
      }
    } else {
      ReadChunkStops(s, index);
      match ReadChunk(s, index)
      case None =>
        NoChunkEnd(s, index);
        WalkCut(s, len, index, at);
      case Some(latChunk) =>
        SkipChunk(s, index, latChunk.next);
        ReadChunkStops(s, latChunk.next);
        match ReadChunk(s, latChunk.next)
        case None =>
          NoChunkEnd(s, latChunk.next);
          WalkCut(s, len, index, at);
        case Some(lngChunk) =>
          SkipChunk(s, latChunk.next, lngChunk.next);
          var here := FixedPoint(at.lat + ZigZag.Decode(latChunk.result), at.lng + ZigZag.Decode(lngChunk.result));
          ReadPointOf(s, index, at, latChunk, lngChunk);
          WalkStep(s, len, index, at, here, lngChunk.next);
          WalkOutcome(s, len, lngChunk.next, here);
          OutcomeAfterPoint(WalkFrom(s, len, lngChunk.next, here), here, Terminators(s[index..]), Terminators(s[lngChunk.next..]),
                            len == |s| && s[|s| - 1] < MinContinued);
    }
  }

  /** A whole point in front of a walk keeps how the walk ends, and two
      more chunk ends keep the parity. */
  lemma OutcomeAfterPoint(w: Walk, here: FixedPoint, before: nat, after: nat, ends: bool)
    requires before == 2 + after
    requires w.CutInLongitude? <==> after % 2 == 1
    requires w.Complete? <==> after % 2 == 0 && ends
    ensures Prepend([here], w).CutInLongitude? <==> before % 2 == 1
    ensures Prepend([here], w).Complete? <==> before % 2 == 0 && ends
  {
  }

  /** A loop iteration that cannot read a whole point ends the walk: in the
      latitude chunk or in the longitude chunk. */
  lemma WalkCut(s: seq<CodePoint>, len: nat, index: nat, at: FixedPoint)
    requires index <= |s| && index < len
    ensures ReadChunk(s, index).None? ==> WalkFrom(s, len, index, at) == CutInLatitude
    ensures ReadChunk(s, index).Some? && ReadChunk(s, ReadChunk(s, index).value.next).None?
        ==> WalkFrom(s, len, index, at) == CutInLongitude
  {
  }

  /** The outcome of `decode` for every string. It panics exactly when the
      number of chunk-ending characters is odd; it returns a path exactly when
      that number is even, the string is ASCII and it ends on a chunk end; it
      returns InvalidEncodingError in every other case. */
  lemma DecodeOutcomes(s: seq<CodePoint>)
    ensures Decode(s).Panicked? <==> Terminators(s) % 2 == 1
    ensures Decode(s).Decoded? <==> Terminators(s) % 2 == 0 && IsAscii(s) && EndsOnChunk(s)
    ensures Decode(s).Failed? <==> Terminators(s) % 2 == 0 && !(IsAscii(s) && EndsOnChunk(s))
  {
    assert s[0..] == s;
    WalkOutcome(s, Utf8Length(s), 0, Origin);
  }

  /** The corrected decoder fails exactly on the strings that are not an
      ASCII sequence of complete latitude and longitude chunks. */
  lemma DecodeCheckedOutcomes(s: seq<CodePoint>)
    ensures DecodeChecked(s).Decoded? <==> Terminators(s) % 2 == 0 && IsAscii(s) && EndsOnChunk(s)
    ensures DecodeChecked(s).Failed? <==> !(Terminators(s) % 2 == 0 && IsAscii(s) && EndsOnChunk(s))
  {
    DecodeOutcomes(s);
  }

  /** Appending a point to a path appends its characters to the encoding. */
  lemma {:induction false} EncodePointsSnoc(points: seq<FixedPoint>, p: FixedPoint, start: FixedPoint)
    ensures EncodePoints(points + [p], start) == EncodePoints(points, start) + EncodePoint(p, Last(points, start))
    decreases |points|
  {
    if points == [] {
      assert [] + [p] == [p];
      assert [p][1..] == [];
    } else {
      var tail := points[1..];
      EncodePointsSnoc(tail, p, points[0]);
      assert (points + [p])[0] == points[0];
      assert (points + [p])[1..] == tail + [p];
      assert Last(tail, points[0]) == Last(points, start);
      var head := EncodePoint(points[0], start);
      assert EncodePoints(points + [p], start) == head + EncodePoints(tail + [p], points[0]);
      assert EncodePoints(points, start) == head + EncodePoints(tail, points[0]);
      SeqAssoc(head, EncodePoints(tail, points[0]), EncodePoint(p, Last(points, start)));
    }
  }

  /** An encoded path is a prefix of the encoding of any longer path. */
  lemma {:induction false} EncodePointsPrefix(points: seq<FixedPoint>, more: seq<FixedPoint>, start: FixedPoint)
    ensures EncodePoints(points, start) <= EncodePoints(points + more, start)
    decreases |more|
  {
    if more == [] {
      assert points + more == points;
    } else {
      var init := more[..|more| - 1];
      var p := more[|more| - 1];
      EncodePointsPrefix(points, init, start);
      assert points + more == (points + init) + [p];
      EncodePointsSnoc(points + init, p, start);
    }
  }

  /** Whole points, then the latitude and longitude chunks of the next one,
      start the encoding of every path that continues that way. */
  lemma PointChunksPrefix(points: seq<FixedPoint>, p: FixedPoint, more: seq<FixedPoint>)
    ensures EncodePoints(points, Origin) + LatitudeChunk(p, Last(points, Origin)) + LongitudeChunk(p, Last(points, Origin))
         <= EncodePoints(points + [p] + more, Origin)
  {
    EncodePointsSnoc(points, p, Origin);
    EncodePointsPrefix(points + [p], more, Origin);
  }

  /** A proper prefix of a chunk holds no chunk end, and its last character
      carries the continuation bit. */
  lemma ChunkPrefix(cs: seq<CodePoint>, j: nat)
    requires CanonicalChunk(cs) && j < |cs|
    ensures Terminators(cs[..j]) == 0
    ensures 0 < j ==> cs[..j][j - 1] >= MinContinued
  {
    NoTerminators(cs[..j]);
  }

  /** Complete chunks followed by `j` characters of one more chunk: ASCII,
      the same chunk ends as the complete part, and a last character with
      the continuation bit when `j > 0`. */
  lemma CutShape(head: seq<CodePoint>, cs: seq<CodePoint>, j: nat)
    requires forall i :: 0 <= i < |head| ==> InAlphabet(head[i])
    requires CanonicalChunk(cs) && j < |cs|
    ensures IsAscii(head + cs[..j])
    ensures Terminators(head + cs[..j]) == Terminators(head)
    ensures 0 < j ==> !EndsOnChunk(head + cs[..j])
  {
    ChunkPrefix(cs, j);
    TerminatorsAppend(head, cs[..j]);
  }

  /** An encoded path cut strictly inside the latitude chunk of its next
      point makes `decode` return InvalidEncodingError. */
  lemma CutInLatitudeFails(points: seq<FixedPoint>, p: FixedPoint, j: nat)
    requires 0 < j < |LatitudeChunk(p, Last(points, Origin))|
    ensures Decode(EncodePoints(points, Origin) + LatitudeChunk(p, Last(points, Origin))[..j]).Failed?
  {
    var head := EncodePoints(points, Origin);
    EncodePointsAlphabet(points, Origin);
    EncodePointsTerminators(points, Origin);
    CutShape(head, LatitudeChunk(p, Last(points, Origin)), j);
    DecodeOutcomes(head + LatitudeChunk(p, Last(points, Origin))[..j]);
  }

  /** Whole points and one latitude chunk: all in the alphabet, an odd
      number of chunk ends. */
  lemma LatitudeChunkShape(points: seq<FixedPoint>, p: FixedPoint)
    ensures forall i :: 0 <= i < |EncodePoints(points, Origin) + LatitudeChunk(p, Last(points, Origin))|
              ==> InAlphabet((EncodePoints(points, Origin) + LatitudeChunk(p, Last(points, Origin)))[i])
    ensures Terminators(EncodePoints(points, Origin) + LatitudeChunk(p, Last(points, Origin))) == 2 * |points| + 1
  {
    var head := EncodePoints(points, Origin);
    var lat := LatitudeChunk(p, Last(points, Origin));
    EncodePointsAlphabet(points, Origin);
    EncodePointsTerminators(points, Origin);
    EncodedTerminators(ZigZag.Encode(p.lat - Last(points, Origin).lat));
    TerminatorsAppend(head, lat);
  }

  /** An encoded path cut inside the longitude chunk of its next point, or
      right before it, makes `decode` panic. */
  lemma CutInLongitudePanics(points: seq<FixedPoint>, p: FixedPoint, j: nat)
    requires j < |LongitudeChunk(p, Last(points, Origin))|
    ensures Decode(EncodePoints(points, Origin) + LatitudeChunk(p, Last(points, Origin))
                   + LongitudeChunk(p, Last(points, Origin))[..j]).Panicked?
  {
    var head := EncodePoints(points, Origin) + LatitudeChunk(p, Last(points, Origin));
    LatitudeChunkShape(points, p);
    CutShape(head, LongitudeChunk(p, Last(points, Origin)), j);
    DecodeOutcomes(head + LongitudeChunk(p, Last(points, Origin))[..j]);
  }

  /** With the longitude read checked, a cut anywhere inside the chunks of
      the next point returns InvalidEncodingError. */
  lemma CutCheckedFails(points: seq<FixedPoint>, p: FixedPoint, j: nat)
    requires 0 < j < |EncodePoint(p, Last(points, Origin))|
    ensures DecodeChecked(EncodePoints(points, Origin) + EncodePoint(p, Last(points, Origin))[..j]).Failed?
  {
    var lat := LatitudeChunk(p, Last(points, Origin));
    var lng := LongitudeChunk(p, Last(points, Origin));
    var head := EncodePoints(points, Origin);
    assert EncodePoint(p, Last(points, Origin)) == lat + lng;
    if j < |lat| {
      assert (lat + lng)[..j] == lat[..j];
      CutInLatitudeFails(points, p, j);
    } else {
      assert head + (lat + lng)[..j] == head + lat + lng[..j - |lat|];
      CutInLongitudePanics(points, p, j - |lat|);
    }
  }

  /** The first latitude chunk of a path on its own: `decode` panics. */
  lemma LoneLatitudePanics(p: FixedPoint)
    ensures Decode(EncodeSigned(p.lat)).Panicked?
  {
    var lat := LatitudeChunk(p, Last([], Origin));
    var lng := LongitudeChunk(p, Last([], Origin));
    assert EncodePoints([], Origin) + lat + lng[..0] == EncodeSigned(p.lat);
    CutInLongitudePanics([], p, 0);
  }
}
