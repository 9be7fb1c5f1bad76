/** The zig-zag mapping between signed deltas and the unsigned values the
    character encoder serialises (`encode_signed` and its inverse in `decode`). */
module ZigZag {

  /** Bitwise complement `!x` of a two's-complement integer, of any width. */
  function Not(x: int): int {
    -x - 1
  }

  function Abs(x: int): nat {
    if x < 0 then -x else x
  }

  /** `encode_signed`: `value << 1`, complemented when `value` is negative. */
  function Encode(value: int): nat {
    if value < 0 then Not(value * 2) else value * 2
  }

  /** Non-negative deltas land on even numbers and negative ones on odd
      numbers; a delta of magnitude m lands on 2m or 2m - 1, so small deltas
      stay small. */
  lemma EncodeOrder(value: int)
    ensures Encode(value) % 2 == 0 <==> value >= 0
    ensures 2 * Abs(value) - 1 <= Encode(value) <= 2 * Abs(value)
  {
  }

  /** The decoder's inverse: `result >> 1`, complemented when the low bit is
      set. For a positive divisor Dafny's `/` and `%` round toward negative
      infinity, exactly as `>>` and `& 1` behave on two's complement, so this
      is also the source's behaviour on negative accumulators. */
  function Decode(result: int): int {
    if result % 2 != 0 then Not(result / 2) else result / 2
  }

  /** Decoding undoes encoding, for every signed delta. */
  lemma DecodeEncode(value: int)
    ensures Decode(Encode(value)) == value
  {
  }

  /** Encoding undoes decoding on every unsigned value, so the two form a
      bijection between the integers and the naturals. */
  lemma EncodeDecode(u: nat)
    ensures Encode(Decode(u)) == u
  {
  }
}
