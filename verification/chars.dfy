/** Characters as Unicode code points, and the byte length Rust's `str::len` reports. */
module Chars {

  /** A Unicode scalar value, the value of a Rust `char` cast `as i32`: a
      code point that is not a surrogate. */
  type CodePoint = c: int | 0 <= c < 0xD800 || 0xE000 <= c < 0x11_0000

  predicate IsAscii(s: seq<CodePoint>) {
    forall i :: 0 <= i < |s| ==> s[i] < 0x80
  }

  /** Number of bytes UTF-8 uses for one code point. */
  function Utf8Width(c: CodePoint): (w: nat)
    ensures 1 <= w <= 4
    ensures w == 1 <==> c < 0x80
  {
    if c < 0x80 then 1
    else if c < 0x800 then 2
    else if c < 0x1_0000 then 3
    else 4
  }

  /** `str::len`: the length in UTF-8 bytes, which equals the number of
      characters exactly when every character is ASCII. */
  function Utf8Length(s: seq<CodePoint>): (n: nat)
    ensures n >= |s|
    ensures n == |s| <==> IsAscii(s)
  {
    if s == [] then 0
    else
      assert forall i :: 0 < i < |s| ==> s[1..][i - 1] == s[i];
      Utf8Width(s[0]) + Utf8Length(s[1..])
  }
}
