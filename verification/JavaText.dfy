/** Java strings as sequences of 16-bit units. */
module JavaText {
  import opened Alphabet

  type Unit = u: int | 0 <= u < 0x1_0000
  type Text = seq<Unit>

  const SPACE: Unit := 32
  const QUOTE: Unit := 34
  const HASH: Unit := 35
  const DOLLAR: Unit := 36
  const AMPERSAND: Unit := 38
  const APOSTROPHE: Unit := 39
  const LPAREN: Unit := 40
  const RPAREN: Unit := 41
  const COMMA: Unit := 44
  const MINUS: Unit := 45
  const SEMICOLON: Unit := 59
  const LESS: Unit := 60
  const EQUALS: Unit := 61
  const GREATER: Unit := 62
  const BACKSLASH: Unit := 92

  /** String.indexOf. */
  function IndexOf(s: Text, c: Unit, i: nat): (k: int)
    ensures k == -1 || (i <= k < |s| && s[k] == c)
    ensures k >= 0 ==> forall j :: i <= j < k ==> s[j] != c
    ensures k < 0 ==> forall j :: i <= j < |s| ==> s[j] != c
    decreases |s| - i
  {
    if i >= |s| then -1 else if s[i] == c then i else IndexOf(s, c, i + 1)
  }

  function LowerUnit(c: Unit): Unit
  {
    if 65 <= c <= 90 then c + 32 else c
  }

  /** Exactly the capital letters change, to the small letter in the same place. */
  lemma LowerByPlace(c: Unit)
    ensures forall k :: 0 <= k < 26 ==> LowerUnit(CAPITALS[k] as int) == SMALL[k] as int
    ensures !Among(c, CAPITALS) ==> LowerUnit(c) == c
  {
    Places();
    Ranges(c);
  }

  function AsciiLower(s: Text): (r: Text)
    ensures |r| == |s| && forall i :: 0 <= i < |s| ==> r[i] == LowerUnit(s[i])
  {
    seq(|s|, i requires 0 <= i < |s| => LowerUnit(s[i]))
  }

  // String.toLowerCase: what it does beyond ASCII is not part of this model.
  type Lowering = Text -> Text

  ghost predicate LowersAscii(lower: Lowering)
  {
    forall s: Text {:trigger lower(s)} :: (forall c <- s :: c < 128) ==> lower(s) == AsciiLower(s)
  }
}
