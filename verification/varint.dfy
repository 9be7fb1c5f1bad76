/** The variable-length character form of one unsigned value: 5 bits per
    character, least significant group first, continuation bit 0x20, offset
    63 (`encode_unsigned`), and the decoder's sentinel loop that reads it back. */
module Varint {
  import opened Outcomes
  import opened Chars

  /** Added to every 6-bit group to make it a printable character. */
  const Offset: int := 63
  /** The bit that marks a group as not the last of its value. */
  const Continuation: int := 0x20
  /** Characters from this code upward carry the continuation bit; a
      character below it ends a chunk. */
  const MinContinued: int := Offset + Continuation

  function Pow32(k: nat): (p: nat)
    ensures p >= 1
  {
    if k == 0 then 1 else 32 * Pow32(k - 1)
  }

  /** `b << (5 * k)` on unbounded integers, that is b * 32^k. */
  function ShiftLeft(b: int, k: nat): int {
    if k == 0 then b else 32 * ShiftLeft(b, k - 1)
  }

  lemma {:induction false} ShiftLeftAdd(a: int, b: int, k: nat)
    ensures ShiftLeft(a + b, k) == ShiftLeft(a, k) + ShiftLeft(b, k)
  {
    if k > 0 {
      ShiftLeftAdd(a, b, k - 1);
    }
  }

  lemma {:induction false} ShiftLeftSucc(b: int, k: nat)
    ensures ShiftLeft(b, k + 1) == ShiftLeft(32 * b, k)
  {
    if k > 0 {
      ShiftLeftSucc(b, k - 1);
    }
  }

  /** The 64 characters the encoder can emit: codes 63 ('?') to 126 ('~'). */
  predicate InAlphabet(c: int) {
    Offset <= c < Offset + 64
  }

  /** A chunk as the encoder writes it: characters of the alphabet, the
      continuation bit on all but the last. */
  predicate WellFormedChunk(cs: seq<int>) {
    && |cs| >= 1
    && (forall i :: 0 <= i < |cs| ==> InAlphabet(cs[i]))
    && (forall i :: 0 <= i < |cs| - 1 ==> cs[i] >= MinContinued)
    && cs[|cs| - 1] < MinContinued
  }

  /** A well-formed chunk without a superfluous most significant zero group. */
  predicate CanonicalChunk(cs: seq<int>) {
    WellFormedChunk(cs) && (|cs| == 1 || cs[|cs| - 1] != Offset)
  }

  /** The value a chunk denotes in the published algorithm,
      the sum of ((c_i - 63) & 0x1f) * 32^i. On two's complement `& 0x1f` is
      Euclidean `% 32`. */
  function TextbookValue(cs: seq<int>): nat {
    if cs == [] then 0 else (cs[0] - Offset) % 32 + 32 * TextbookValue(cs[1..])
  }

  /** How many characters of `s` end a chunk. */
  function Terminators(s: seq<int>): nat {
    if s == [] then 0 else (if s[0] < MinContinued then 1 else 0) + Terminators(s[1..])
  }

  /** `encode_unsigned`: while the value is at least 0x20, emit
      `(0x20 | (value & 0x1f)) + 63` and shift right by 5; then emit
      `value + 63`. For a non-negative value `& 0x1f` is `% 32`, `>>= 5` is
      `/ 32`, and `0x20 | x` is `0x20 + x` since x < 0x20. The result has the
      fewest characters that can hold the value. */
  function EncodeUnsigned(value: nat): (r: seq<CodePoint>)
    ensures CanonicalChunk(r)
    decreases value
  {
    if value >= Continuation then
      [Continuation + value % 32 + Offset] + EncodeUnsigned(value / 32)
    else
      [value + Offset]
  }

  /** `encode_unsigned` uses the fewest characters that can hold the value:
      k characters hold exactly the values below 32^k. */
  lemma {:induction false} EncodeUnsignedLength(value: nat)
    ensures value < Pow32(|EncodeUnsigned(value)|)
    ensures |EncodeUnsigned(value)| > 1 ==> Pow32(|EncodeUnsigned(value)| - 1) <= value
    decreases value
  {
    if value >= Continuation {
      var rest := EncodeUnsigned(value / 32);
      EncodeUnsignedLength(value / 32);
      assert |EncodeUnsigned(value)| == |rest| + 1;
      assert Pow32(|rest| + 1) == 32 * Pow32(|rest|);
    }
  }

  /** The textbook reading of what `encode_unsigned` writes is the value. */
  lemma {:induction false} EncodeUnsignedValue(value: nat)
    ensures TextbookValue(EncodeUnsigned(value)) == value
    decreases value
  {
    if value >= Continuation {
      EncodeUnsignedValue(value / 32);
      assert EncodeUnsigned(value)[1..] == EncodeUnsigned(value / 32);
    }
  }

  /** Every canonical chunk is what `encode_unsigned` writes for its value:
      together with EncodeUnsignedValue, the encoder is a bijection between
      the naturals and the canonical chunks. */
  lemma {:induction false} CanonicalIsEncoded(cs: seq<int>)
    requires CanonicalChunk(cs)
    ensures EncodeUnsigned(TextbookValue(cs)) == cs
    decreases |cs|
  {
    if |cs| == 1 {
      LastGroup(cs);
    } else {
      var tail := CanonicalTail(cs);
      CanonicalIsEncoded(tail);
      TextbookTailPositive(tail);
      var low := cs[0] - MinContinued;
      assert TextbookValue(cs) == low + 32 * TextbookValue(tail);
      EncodeUnsignedCons(low, TextbookValue(tail));
      assert cs == [cs[0]] + tail;
    }
  }

  /** A one-character chunk is the encoding of its own group. */
  lemma LastGroup(cs: seq<int>)
    requires CanonicalChunk(cs) && |cs| == 1
    ensures EncodeUnsigned(TextbookValue(cs)) == cs
  {
    assert cs[1..] == [];
    assert InAlphabet(cs[0]) && cs[0] < MinContinued;
    assert TextbookValue(cs[1..]) == 0;
    assert TextbookValue(cs) == cs[0] - Offset;
    assert cs == [cs[0]];
  }

  /** The characters after the first of a longer canonical chunk form a
      canonical chunk. */
  lemma CanonicalTail(cs: seq<int>) returns (tail: seq<int>)
    requires CanonicalChunk(cs) && |cs| > 1
    ensures tail == cs[1..] && CanonicalChunk(tail)
    ensures cs[0] >= MinContinued && InAlphabet(cs[0])
  {
    tail := cs[1..];
    forall i | 0 <= i < |tail| ensures InAlphabet(tail[i]) {
      assert tail[i] == cs[i + 1];
    }
  }

  /** A value of at least two groups is encoded as its low group with the
      continuation bit, then the encoding of the remaining groups. */
  lemma EncodeUnsignedCons(low: int, high: nat)
    requires 0 <= low < 32 && high > 0
    ensures EncodeUnsigned(low + 32 * high) == [Continuation + low + Offset] + EncodeUnsigned(high)
  {
    DivMod32(low, high);
  }

  lemma DivMod32(low: int, high: int)
    requires 0 <= low < 32
    ensures (low + 32 * high) % 32 == low
    ensures (low + 32 * high) / 32 == high
  {
  }

  /** A canonical chunk of more than one character denotes a positive value. */
  lemma {:induction false} TextbookTailPositive(cs: seq<int>)
    requires CanonicalChunk(cs)
    ensures |cs| > 1 ==> TextbookValue(cs) > 0
    decreases |cs|
  {
    if |cs| > 1 {
      var tail := cs[1..];
      assert CanonicalChunk(tail) by {
        forall i | 0 <= i < |tail| ensures InAlphabet(tail[i]) {
          assert tail[i] == cs[i + 1];
        }
      }
      TextbookTailPositive(tail);
      if |tail| == 1 {
        assert tail[1..] == [];
      }
    }
  }

  /** What one inner `loop` of `decode` leaves behind: the accumulator
      `result` and the index just past the chunk. */
  datatype Chunk = Chunk(result: int, next: nat)

  /** One inner `loop` of `decode`, started at character `index` with
      `result = 1` and `shift = 0`. `None` is `chars().nth(index)` running
      past the last character. */
  function ReadChunk(s: seq<CodePoint>, index: nat): (r: Option<Chunk>)
    ensures r.Some? ==> index < r.value.next <= |s|
  {
    ReadFrom(s, index, 0, 1)
  }

  /** The inner loop after `k` characters of the chunk (`shift == 5 * k`),
      with accumulator `result`. Each character contributes
      `b = c - 63 - 1`, shifted into place (`b << shift`), and
      the loop stops after the first `b < 0x1f`, that is the first character
      below MinContinued. */
  function ReadFrom(s: seq<CodePoint>, index: nat, k: nat, result: int): (r: Option<Chunk>)
    ensures r.Some? ==> index < r.value.next <= |s|
    decreases |s| - index
  {
    if index >= |s| then None
    else
      var b := s[index] - Offset - 1;
      var result' := result + ShiftLeft(b, k);
      if b < 0x1f then Some(Chunk(result', index + 1))
      else ReadFrom(s, index + 1, k + 1, result')
  }

  /** The chunk reader stops exactly after the first character below
      MinContinued at or after `index`, and runs past the end of the string
      exactly when there is none. */
  lemma ReadChunkStops(s: seq<CodePoint>, index: nat)
    ensures ReadChunk(s, index).Some? <==> exists j :: index <= j < |s| && s[j] < MinContinued
    ensures ReadChunk(s, index).Some? ==> s[ReadChunk(s, index).value.next - 1] < MinContinued
    ensures ReadChunk(s, index).Some?
        ==> forall j :: index <= j < ReadChunk(s, index).value.next - 1 ==> s[j] >= MinContinued
  {
    ReadFromStops(s, index, 0, 1);
  }

  lemma {:induction false} ReadFromStops(s: seq<CodePoint>, index: nat, k: nat, result: int)
    ensures ReadFrom(s, index, k, result).Some? <==> exists j :: index <= j < |s| && s[j] < MinContinued
    ensures ReadFrom(s, index, k, result).Some? ==> s[ReadFrom(s, index, k, result).value.next - 1] < MinContinued
    ensures ReadFrom(s, index, k, result).Some?
        ==> forall j :: index <= j < ReadFrom(s, index, k, result).value.next - 1 ==> s[j] >= MinContinued
    decreases |s| - index
  {
    if index < |s| && s[index] >= MinContinued {
      ReadFromStops(s, index + 1, k + 1, result + ShiftLeft(s[index] - Offset - 1, k));
    }
  }

  /** Reading a well-formed chunk from any accumulator: the sentinel
      bookkeeping adds `(TextbookValue(cs) - 1) << shift`. */
  lemma {:induction false} ReadFromWellFormed(s: seq<CodePoint>, index: nat, k: nat, result: int, cs: seq<int>)
    requires WellFormedChunk(cs)
    requires index + |cs| <= |s| && s[index..index + |cs|] == cs
    ensures ReadFrom(s, index, k, result)
         == Some(Chunk(result - ShiftLeft(1, k) + ShiftLeft(TextbookValue(cs), k), index + |cs|))
    decreases |cs|
  {
    assert s[index] == cs[0];
    assert InAlphabet(cs[0]);
    var b := s[index] - Offset - 1;
    if |cs| == 1 {
      assert cs[0] < MinContinued;
      assert TextbookValue(cs[1..]) == 0;
      assert TextbookValue(cs) == cs[0] - Offset;
      assert b + 1 == TextbookValue(cs);
      ShiftLeftAdd(b, 1, k);
    } else {
      var tail := cs[1..];
      assert cs[0] >= MinContinued;
      assert WellFormedChunk(tail) by {
        forall i | 0 <= i < |tail| ensures InAlphabet(tail[i]) {
          assert tail[i] == cs[i + 1];
        }
      }
      assert s[index + 1..index + 1 + |tail|] == tail;
      var t := TextbookValue(tail);
      ReadFromWellFormed(s, index + 1, k + 1, result + ShiftLeft(b, k), tail);
      var g := cs[0] - MinContinued;
      assert TextbookValue(cs) == g + 32 * t;
      assert b == 31 + g;
      ShiftLeftSucc(1, k);
      ShiftLeftSucc(t, k);
      ContinuationDigit(g, t, k);
    }
  }

  /** One continuation character: its contribution `(31 + g) << shift`
      plus the sentinel correction of the rest of the chunk leaves the
      sentinel correction of this position. */
  lemma ContinuationDigit(g: int, t: int, k: nat)
    ensures ShiftLeft(31 + g, k) - ShiftLeft(32, k) + ShiftLeft(32 * t, k)
         == -ShiftLeft(1, k) + ShiftLeft(g + 32 * t, k)
  {
    var x := g + 32 * t - 1;
    ShiftLeftAdd(31 + g, 32 * t, k);
    ShiftLeftAdd(x, 32, k);
    assert ShiftLeft(x + 32, k) == ShiftLeft(31 + g + 32 * t, k);
    ShiftLeftAdd(x, 1, k);
    assert ShiftLeft(x + 1, k) == ShiftLeft(g + 32 * t, k);
  }

  /** The sentinel trick is exact: starting the accumulator at 1 and adding
      `c - 64` per character yields the textbook value of a well-formed chunk,
      and the loop stops right after it. */
  lemma SentinelIsTextbook(s: seq<CodePoint>, index: nat, cs: seq<int>)
    requires WellFormedChunk(cs)
    requires index + |cs| <= |s| && s[index..index + |cs|] == cs
    ensures ReadChunk(s, index) == Some(Chunk(TextbookValue(cs), index + |cs|))
  {
    ReadFromWellFormed(s, index, 0, 1, cs);
  }

  /** The decoder's chunk reader recovers exactly the value `encode_unsigned`
      wrote, whatever follows the chunk. */
  lemma ChunkRoundTrip(s: seq<CodePoint>, index: nat, value: nat)
    requires index + |EncodeUnsigned(value)| <= |s|
    requires s[index..index + |EncodeUnsigned(value)|] == EncodeUnsigned(value)
    ensures ReadChunk(s, index) == Some(Chunk(value, index + |EncodeUnsigned(value)|))
  {
    SentinelIsTextbook(s, index, EncodeUnsigned(value));
    EncodeUnsignedValue(value);
  }

  /** A chunk of `encode_unsigned` holds exactly one terminating character. */
  lemma EncodedTerminators(value: nat)
    ensures Terminators(EncodeUnsigned(value)) == 1
  {
    WellFormedTerminators(EncodeUnsigned(value));
  }

  lemma {:induction false} WellFormedTerminators(cs: seq<int>)
    requires WellFormedChunk(cs)
    ensures Terminators(cs) == 1
    decreases |cs|
  {
    if |cs| == 1 {
      assert cs[1..] == [];
    } else {
      var tail := cs[1..];
      assert WellFormedChunk(tail) by {
        forall i | 0 <= i < |tail| ensures InAlphabet(tail[i]) {
          assert tail[i] == cs[i + 1];
        }
      }
      WellFormedTerminators(tail);
    }
  }

  /** Terminators count additively over concatenation. */
  lemma {:induction false} TerminatorsAppend(a: seq<int>, b: seq<int>)
    ensures Terminators(a + b) == Terminators(a) + Terminators(b)
    decreases |a|
  {
    if a != [] {
      assert (a + b)[1..] == a[1..] + b;
      TerminatorsAppend(a[1..], b);
    } else {
      assert a + b == b;
    }
  }

  /** A sequence has no terminator exactly when every character carries the
      continuation bit. */
  lemma {:induction false} NoTerminators(s: seq<int>)
    ensures Terminators(s) == 0 <==> forall j :: 0 <= j < |s| ==> s[j] >= MinContinued
    decreases |s|
  {
    if s != [] {
      NoTerminators(s[1..]);
      assert forall j :: 0 < j < |s| ==> s[1..][j - 1] == s[j];
    }
  }
}
