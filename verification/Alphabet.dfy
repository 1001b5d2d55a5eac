/** Characters by their place in a written-out alphabet. */
module Alphabet {

  const DIGITS := "0123456789"
  const CAPITALS := "ABCDEFGHIJKLMNOPQRSTUVWXYZ"
  const SMALL := "abcdefghijklmnopqrstuvwxyz"

  // `c` is one of the characters.
  predicate Among(c: int, chars: string)
  {
    exists k :: 0 <= k < |chars| && chars[k] as int == c
  }

  lemma Places()
    ensures forall k :: 0 <= k < 10 ==> DIGITS[k] as int == 48 + k
    ensures forall k :: 0 <= k < 26 ==> CAPITALS[k] as int == 65 + k
    ensures forall k :: 0 <= k < 26 ==> SMALL[k] as int == 97 + k
  {}

  lemma Ranges(c: int)
    ensures Among(c, DIGITS) <==> 48 <= c <= 57
    ensures Among(c, CAPITALS) <==> 65 <= c <= 90
    ensures Among(c, SMALL) <==> 97 <= c <= 122
  {
    Places();
    if 48 <= c <= 57 {
      assert DIGITS[c - 48] as int == c;
    } else if 65 <= c <= 90 {
      assert CAPITALS[c - 65] as int == c;
    } else if 97 <= c <= 122 {
      assert SMALL[c - 97] as int == c;
    }
  }

  predicate IsLetterOrDigit(c: int)
  {
    Among(c, DIGITS) || Among(c, CAPITALS) || Among(c, SMALL)
  }

  type Code = c: int | 0 <= c < 128

  // The characters of an ASCII text.
  function Ascii(text: string): (r: seq<Code>)
    ensures |r| == |text|
    ensures forall i :: 0 <= i < |text| ==> r[i] == text[i] as int % 128
  {
    seq(|text|, i requires 0 <= i < |text| => text[i] as int % 128)
  }
}
