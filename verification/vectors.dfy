/** The crate's examples (the documented three-point path, the precision-0
    string, the empty path and string), one instance of the random round-trip
    test's rejection branch, and two cuts of the documented string that show
    the panicking longitude read. */
module Vectors {
  import opened Outcomes
  import opened Chars
  import opened Varint
  import opened Polyline
  import opened PolylineLaws

  /** The code points of a string literal. */
  function Codes(s: string): (r: seq<CodePoint>)
    ensures |r| == |s|
    ensures forall i :: 0 <= i < |s| ==> r[i] == s[i] as int
  {
    seq(|s|, i requires 0 <= i < |s| => s[i] as int)
  }

  /** A three-point path is written point by point, each against the one
      before. */
  lemma ThreePoints(a: FixedPoint, b: FixedPoint, c: FixedPoint, start: FixedPoint)
    ensures EncodePoints([a, b, c], start) == EncodePoint(a, start) + (EncodePoint(b, a) + EncodePoint(c, b))
  {
    assert [a, b, c][1..] == [b, c];
    assert [b, c][1..] == [c];
    assert [c][1..] == [];
    assert EncodePoints([c], b) == EncodePoint(c, b) + [];
    assert EncodePoints([b, c], a) == EncodePoint(b, a) + EncodePoints([c], b);
  }

  /** The documented example path at precision 5, already scaled. */
  const Example: seq<FixedPoint> :=
    [FixedPoint(3850000, -12020000), FixedPoint(4070000, -12095000), FixedPoint(4325200, -12645300)]

  /** The example path written at precision 0. */
  const Coarse: seq<FixedPoint> :=
    [FixedPoint(39, -120), FixedPoint(41, -121), FixedPoint(43, -126)]

  /** The documented string as code points. */
  lemma ExampleString()
    ensures Codes("_p~iF~ps|U_ulLnnqC_mqNvxq`@")
         == [95, 112, 126, 105, 70, 126, 112, 115, 124, 85] + ([95, 117, 108, 76, 110, 110, 113, 67] + [95, 109, 113, 78, 118, 120, 113, 96, 64])
  {
  }

  /** The precision-0 string as code points. */
  lemma CoarseString()
    ensures Codes("mAnFC@CH") == [109, 65, 110, 70] + ([67, 64] + [67, 72])
  {
  }

  /** The delta 3850000, written as "_p~iF". */
  lemma LatitudeOne()
    ensures EncodeSigned(3850000) == [95, 112, 126, 105, 70]
  {
    assert ZigZag.Encode(3850000) == 7700000;
    assert EncodeUnsigned(7) == [70];
    assert EncodeUnsigned(234) == [105, 70];
    assert EncodeUnsigned(7519) == [126, 105, 70];
    assert EncodeUnsigned(240625) == [112, 126, 105, 70];
    assert EncodeUnsigned(7700000) == [95, 112, 126, 105, 70];
  }

  /** The delta -12020000, written as "~ps|U". */
  lemma LongitudeOne()
    ensures EncodeSigned(-12020000) == [126, 112, 115, 124, 85]
  {
    assert ZigZag.Encode(-12020000) == 24039999;
    assert EncodeUnsigned(22) == [85];
    assert EncodeUnsigned(733) == [124, 85];
    assert EncodeUnsigned(23476) == [115, 124, 85];
    assert EncodeUnsigned(751249) == [112, 115, 124, 85];
    assert EncodeUnsigned(24039999) == [126, 112, 115, 124, 85];
  }

  /** The delta 220000, written as "_ulL". */
  lemma LatitudeTwo()
    ensures EncodeSigned(220000) == [95, 117, 108, 76]
  {
    assert ZigZag.Encode(220000) == 440000;
    assert EncodeUnsigned(13) == [76];
    assert EncodeUnsigned(429) == [108, 76];
    assert EncodeUnsigned(13750) == [117, 108, 76];
    assert EncodeUnsigned(440000) == [95, 117, 108, 76];
  }

  /** The delta -75000, written as "nnqC". */
  lemma LongitudeTwo()
    ensures EncodeSigned(-75000) == [110, 110, 113, 67]
  {
    assert ZigZag.Encode(-75000) == 149999;
    assert EncodeUnsigned(4) == [67];
    assert EncodeUnsigned(146) == [113, 67];
    assert EncodeUnsigned(4687) == [110, 113, 67];
    assert EncodeUnsigned(149999) == [110, 110, 113, 67];
  }

  /** The delta 255200, written as "_mqN". */
  lemma LatitudeThree()
    ensures EncodeSigned(255200) == [95, 109, 113, 78]
  {
    assert ZigZag.Encode(255200) == 510400;
    assert EncodeUnsigned(15) == [78];
    assert EncodeUnsigned(498) == [113, 78];
    assert EncodeUnsigned(15950) == [109, 113, 78];
    assert EncodeUnsigned(510400) == [95, 109, 113, 78];
  }

  /** The delta -550300, written as "vxq`@". */
  lemma LongitudeThree()
    ensures EncodeSigned(-550300) == [118, 120, 113, 96, 64]
  {
    assert ZigZag.Encode(-550300) == 1100599;
    assert EncodeUnsigned(1) == [64];
    assert EncodeUnsigned(33) == [96, 64];
    assert EncodeUnsigned(1074) == [113, 96, 64];
    assert EncodeUnsigned(34393) == [120, 113, 96, 64];
    assert EncodeUnsigned(1100599) == [118, 120, 113, 96, 64];
  }

  /** The characters of the first point of the example path. */
  lemma ExamplePointOne()
    ensures EncodePoint(Example[0], Origin) == [95, 112, 126, 105, 70, 126, 112, 115, 124, 85]
  {
    LatitudeOne();
    LongitudeOne();
  }

  /** The characters of the second point: its deltas against the first. */
  lemma ExamplePointTwo()
    ensures EncodePoint(Example[1], Example[0]) == [95, 117, 108, 76, 110, 110, 113, 67]
  {
    LatitudeTwo();
    LongitudeTwo();
  }

  /** The characters of the third point: its deltas against the second. */
  lemma ExamplePointThree()
    ensures EncodePoint(Example[2], Example[1]) == [95, 109, 113, 78, 118, 120, 113, 96, 64]
  {
    LatitudeThree();
    LongitudeThree();
  }

  /** The example path encodes to the documented string. */
  lemma EncodeExample()
    ensures EncodePoints(Example, Origin) == Codes("_p~iF~ps|U_ulLnnqC_mqNvxq`@")
  {
    ExamplePointOne();
    ExamplePointTwo();
    ExamplePointThree();
    ThreePoints(Example[0], Example[1], Example[2], Origin);
    assert Example == [Example[0], Example[1], Example[2]];
    ExampleString();
  }

  /** The documented string decodes to the example path. */
  lemma DecodeExample()
    ensures Decode(Codes("_p~iF~ps|U_ulLnnqC_mqNvxq`@")) == Decoded(Example)
    ensures DecodeChecked(Codes("_p~iF~ps|U_ulLnnqC_mqNvxq`@")) == Decoded(Example)
  {
    EncodeExample();
    RoundTrip(Example);
  }

  /** The characters of each point of the precision-0 path. */
  lemma CoarsePoints()
    ensures EncodePoint(Coarse[0], Origin) == [109, 65, 110, 70]
    ensures EncodePoint(Coarse[1], Coarse[0]) == [67, 64]
    ensures EncodePoint(Coarse[2], Coarse[1]) == [67, 72]
  {
    assert ZigZag.Encode(39) == 78 && ZigZag.Encode(-120) == 239;
    assert EncodeUnsigned(2) == [65] && EncodeUnsigned(7) == [70];
  }

  /** The precision-0 path encodes to the precision-0 string. */
  lemma EncodeCoarse()
    ensures EncodePoints(Coarse, Origin) == Codes("mAnFC@CH")
  {
    CoarsePoints();
    ThreePoints(Coarse[0], Coarse[1], Coarse[2], Origin);
    assert Coarse == [Coarse[0], Coarse[1], Coarse[2]];
    CoarseString();
  }

  /** The precision-0 string decodes to whole degrees. */
  lemma DecodeCoarse()
    ensures Decode(Codes("mAnFC@CH")) == Decoded(Coarse)
    ensures DecodeChecked(Codes("mAnFC@CH")) == Decoded(Coarse)
  {
    EncodeCoarse();
    RoundTrip(Coarse);
  }

  /** The empty string decodes to the empty path, and the empty path encodes
      to the empty string. */
  lemma EmptyVectors(transform: LatLng -> FixedPoint)
    ensures Decode(Codes("")) == Decoded([])
    ensures PolylineEncodeLine([], transform) == Ok(Codes(""))
  {
  }

  /** A latitude past the pole is reported with the offending coordinates,
      even after valid points. */
  lemma RejectsPastThePole(transform: LatLng -> FixedPoint)
    ensures PolylineEncodeLine([LatLng(38.5, -120.2), LatLng(91.0, 0.0)], transform)
         == Err(InvalidLatLngError(91.0, 0.0))
  {
    EncodeRejects([LatLng(38.5, -120.2), LatLng(91.0, 0.0)], transform, 1);
  }

  /** The documented string cut after its first latitude chunk: `decode`
      panics, the checked decoder reports the string. */
  lemma CutExample()
    ensures Decode(Codes("_p~iF")) == Panicked
    ensures DecodeChecked(Codes("_p~iF")) == Failed(InvalidEncodingError(Codes("_p~iF")))
  {
    LatitudeOne();
    assert Codes("_p~iF") == [95, 112, 126, 105, 70];
    LoneLatitudePanics(Example[0]);
  }

  /** The documented string cut inside its first latitude chunk fails. */
  lemma CutInsideExample()
    ensures Decode(Codes("_p~")) == Failed(InvalidEncodingError(Codes("_p~")))
  {
    LatitudeOne();
    assert Codes("_p~") == [95, 112, 126];
    assert LatitudeChunk(Example[0], Last([], Origin)) == [95, 112, 126, 105, 70];
    CutInLatitudeFails([], Example[0], 3);
    assert EncodePoints([], Origin) + LatitudeChunk(Example[0], Last([], Origin))[..3] == Codes("_p~");
  }
}
