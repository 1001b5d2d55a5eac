/** Byte strings. */
module Bytes {
  import opened Alphabet

  type Byte = b: int | 0 <= b < 256

  const NUL: Byte := 0
  const LF: Byte := 10
  const CR: Byte := 13
  const SPACE: Byte := 32
  const PERCENT: Byte := 37
  const AMPERSAND: Byte := 38
  const PLUS: Byte := 43
  const COMMA: Byte := 44
  const COLON: Byte := 58
  const SEMICOLON: Byte := 59
  const EQUALS: Byte := 61
  const QUESTION: Byte := 63

  function LowerByte(c: Byte): Byte
  {
    if 65 <= c <= 90 then c + 32 else c
  }

  function Lower(s: seq<Byte>): (r: seq<Byte>)
    ensures |r| == |s|
    ensures forall i :: 0 <= i < |s| ==> r[i] == LowerByte(s[i])
  {
    seq(|s|, i requires 0 <= i < |s| => LowerByte(s[i]))
  }

  /** Exactly the capital letters change, to the small letter in the same place. */
  lemma LowerByPlace(c: Byte)
    ensures forall k :: 0 <= k < 26 ==> LowerByte(CAPITALS[k] as int) == SMALL[k] as int
    ensures !Among(c, CAPITALS) ==> LowerByte(c) == c
  {
    Places();
    Ranges(c);
  }

  // A C string ends at the first NUL.
  function UpToNul(s: seq<Byte>): (r: seq<Byte>)
    ensures NUL !in r && r <= s && (|r| < |s| ==> s[|r|] == NUL)
  {
    if s == [] || s[0] == NUL then [] else [s[0]] + UpToNul(s[1..])
  }
}
