/** Percent-encoding of byte strings and the two in-place decoders. */
module UrlCodec {
  import opened Basics
  import opened Bytes
  import opened Alphabet

  /// Decoding
  /// --------

  // What the decoders take a byte for in a `%` escape; it is not checked to be a hex digit.
  function HexDigit(c: Byte): int
  {
    if c < 65 then c % 16 else (c + 9) % 16
  }

  function HexByte(hi: Byte, lo: Byte): Byte
  {
    16 * HexDigit(hi) + HexDigit(lo)
  }

  /** One decoded byte and the number of bytes it stands for, which may run past the end. */
  datatype Piece = Piece(byte: Byte, used: nat)

  // Mode 1 leaves `+` alone; the other modes make it a space. A `%` without two bytes after it
  // stays in the modes above 0; in mode 0 it becomes a NUL and ends the string.
  function UrlPiece(s: seq<Byte>, simple: int): (p: Piece)
    requires s != []
    ensures 0 < p.used
  {
    if s[0] == PERCENT then
      if |s| > 2 then Piece(HexByte(s[1], s[2]), 3)
      else if simple >= 1 then Piece(PERCENT, 1)
      else Piece(NUL, 3)
    else if s[0] == PLUS && simple != 1 then Piece(SPACE, 1)
    else Piece(s[0], 1)
  }

  function Drop(s: seq<Byte>, n: nat): (r: seq<Byte>)
    ensures |r| == if n <= |s| then |s| - n else 0
  {
    if n <= |s| then s[n..] else []
  }

  /** url_decode. */
  function UrlDecode(s: seq<Byte>, simple: int): (r: seq<Byte>)
    ensures |r| <= |s|
    decreases |s|
  {
    if s == [] then []
    else
      var p := UrlPiece(s, simple);
      [p.byte] + UrlDecode(Drop(s, p.used), simple)
  }

  /** What char_decode_url makes of a URL: the decoded file part, and the raw query after `?`. */
  datatype Location = Location(file: seq<Byte>, query: Option<seq<Byte>>)

  function CharDecode(s: seq<Byte>): (r: Location)
    ensures |r.file| <= |s|
    ensures r.query.Some? ==> |r.file| + |r.query.value| < |s|
    decreases |s|
  {
    if s == [] then Location([], None)
    else if s[0] == QUESTION then Location([], Some(s[1..]))
    else
      var p := CharPiece(s);
      var rest := CharDecode(Drop(s, p.used));
      rest.(file := [p.byte] + rest.file)
  }

  function CharPiece(s: seq<Byte>): (p: Piece)
    requires s != []
    ensures 0 < p.used
  {
    if s[0] == PERCENT then
      if |s| > 2 then Piece(HexByte(s[1], s[2]), 3) else Piece(NUL, 3)
    else Piece(s[0], 1)
  }

  /** Where there is neither a query nor a `+`, the two decoders agree, truncated escapes included. */
  lemma {:induction false} DecodersAgree(s: seq<Byte>)
    requires QUESTION !in s && PLUS !in s
    ensures CharDecode(s) == Location(UrlDecode(s, 0), None)
    decreases |s|
  {
    if s != [] {
      assert s[0] in s;
      assert CharPiece(s) == UrlPiece(s, 0);
      DecodersAgree(Drop(s, CharPiece(s).used));
    }
  }

  // The buffer `d` while the bytes from `u` to `i` have been replaced by `done`.
  function Rewritten(d: seq<Byte>, u: nat, done: seq<Byte>): seq<Byte>
    requires u + |done| <= |d|
  {
    d[..u] + done + d[u + |done|..]
  }

  lemma RewriteNext(d: seq<Byte>, u: nat, done: seq<Byte>, x: Byte)
    requires u + |done| < |d|
    ensures Rewritten(d, u, done)[u + |done| := x] == Rewritten(d, u, done + [x])
  {}

  lemma RewrittenTail(d: seq<Byte>, u: nat, done: seq<Byte>, lo: nat, hi: nat)
    requires u + |done| <= lo <= hi <= |d|
    ensures Rewritten(d, u, done)[lo..hi] == d[lo..hi]
  {}

  lemma RewriteNone(d: seq<Byte>, u: nat)
    requires u <= |d|
    ensures Rewritten(d, u, []) == d
  {}

  method PieceAt(a: array<Byte>, ptr: nat, end: nat, simple: int) returns (piece: Piece)
    requires ptr < end <= a.Length
    ensures piece == UrlPiece(a[ptr..end], simple)
  {
    if a[ptr] == PERCENT {
      if ptr < end - 2 {
        piece := Piece(HexByte(a[ptr + 1], a[ptr + 2]), 3);
      } else if simple >= 1 {
        piece := Piece(a[ptr], 1);
      } else {
        piece := Piece(NUL, 3);
      }
    } else if a[ptr] == PLUS {
      piece := Piece(if simple == 1 then a[ptr] else SPACE, 1);
    } else {
      piece := Piece(a[ptr], 1);
    }
  }

  // The scratch buffer with the string at `first`.
  method Scratch(str: seq<Byte>, first: nat) returns (mystr: array<Byte>)
    ensures fresh(mystr) && mystr.Length == first + |str| + 1
    ensures mystr[..first] == seq(first, _ => NUL) && mystr[first..first + |str|] == str
  {
    mystr := new Byte[first + |str| + 1](_ => NUL);
    forall k | 0 <= k < |str| {
      mystr[first + k] := str[k];
    }
  }

  /** Decodes in place in a scratch buffer; if `exist`, a NUL goes before the result. */
  method UrlDecodeInPlace(str: seq<Byte>, exist: bool, simple: int) returns (newstr: seq<Byte>)
    ensures newstr == (if exist then [NUL] else []) + UrlDecode(str, simple)
  {
    hide UrlDecode, UrlPiece, Rewritten;
    var first := if exist then 1 else 0;
    var mystr := Scratch(str, first);
    var ptr, end, i := first, first + |str|, first;
    ghost var d, rest, done := mystr[..], str, [];
    RewriteNone(d, first);
    assert d[first..end] == str;
    while ptr < end
      invariant first <= i <= ptr && i <= end && |done| == i - first
      invariant rest == if ptr < end then d[ptr..end] else []
      invariant mystr[..] == Rewritten(d, first, done)
      invariant done + UrlDecode(rest, simple) == UrlDecode(str, simple)
      decreases end - ptr
    {
      RewrittenTail(d, first, done, ptr, end);
      assert mystr[ptr..end] == mystr[..][ptr..end] == rest;
      var piece := PieceAt(mystr, ptr, end, simple);
      UrlDecodeStep(done, rest, simple);
      RewriteNext(d, first, done, piece.byte);
      mystr[i] := piece.byte;
      done, rest := done + [piece.byte], Drop(rest, piece.used);
      ptr, i := ptr + piece.used, i + 1;
    }
    UrlDecodeNothing(simple);
    RewrittenHead(d, first, done);
    assert d[..first] == mystr[..first] == if exist then [NUL] else [];
    newstr := mystr[..i];
    assert newstr == mystr[..][..i];
  }

  lemma RewrittenHead(d: seq<Byte>, u: nat, done: seq<Byte>)
    requires u + |done| <= |d|
    ensures Rewritten(d, u, done)[..u + |done|] == d[..u] + done
  {}

  lemma UrlDecodeNothing(simple: int)
    ensures UrlDecode([], simple) == []
  {}

  lemma UrlDecodeStep(done: seq<Byte>, rest: seq<Byte>, simple: int)
    requires rest != []
    ensures var p := UrlPiece(rest, simple);
      done + UrlDecode(rest, simple) == done + [p.byte] + UrlDecode(Drop(rest, p.used), simple)
  {}

  /// Encoding
  /// --------

  function HexChar(d: int): Byte
    requires 0 <= d < 16
  {
    if d < 10 then 48 + d else 55 + d
  }

  type SafeSet = Byte -> bool

  function EncodeByte(c: Byte, safe: SafeSet): seq<Byte>
  {
    if safe(c) then [c] else [PERCENT, HexChar(c / 16), HexChar(c % 16)]
  }

  function EncodeAll(s: seq<Byte>, safe: SafeSet): seq<Byte>
  {
    if s == [] then [] else EncodeByte(s[0], safe) + EncodeAll(s[1..], safe)
  }

  predicate AllSafe(s: seq<Byte>, safe: SafeSet)
  {
    forall c <- s :: safe(c)
  }

  /** do_encode_stuff with its callers: a string without unsafe bytes before its first NUL
      comes back unchanged; otherwise it is encoded up to the first NUL. */
  function Encode(s: seq<Byte>, safe: SafeSet): seq<Byte>
  {
    if AllSafe(UpToNul(s), safe) then s else EncodeAll(UpToNul(s), safe)
  }

  lemma {:induction false} CountOut(s: seq<Byte>, safe: SafeSet, i: nat)
    requires i < |s|
    ensures EncodeAll(s[..i + 1], safe) == EncodeAll(s[..i], safe) + EncodeByte(s[i], safe)
  {
    if i == 0 {
      assert s[..1][1..] == [] && s[..0] == [];
    } else {
      assert s[..i + 1][1..] == s[1..][..i] && s[..i][1..] == s[1..][..i - 1];
      CountOut(s[1..], safe, i - 1);
      ConcatAssoc(EncodeByte(s[0], safe), EncodeAll(s[1..][..i - 1], safe), EncodeByte(s[i], safe));
    }
  }

  lemma {:induction false} UpToNulIs(s: seq<Byte>, n: nat)
    requires n <= |s| && NUL !in s[..n] && (n == |s| || s[n] == NUL)
    ensures UpToNul(s) == s[..n]
  {
    if n > 0 {
      assert s[0] == s[..n][0];
      assert s[1..][..n - 1] == s[..n][1..];
      UpToNulIs(s[1..], n - 1);
    }
  }

  method CountUnsafe(src: seq<Byte>, safe: SafeSet) returns (unsafe: nat, n: nat)
    ensures n <= |src| && UpToNul(src) == src[..n]
    ensures unsafe == 0 <==> AllSafe(src[..n], safe)
  {
    unsafe, n := 0, 0;
    while n < |src| && src[n] != NUL
      invariant n <= |src| && NUL !in src[..n]
      invariant unsafe == 0 <==> AllSafe(src[..n], safe)
    {
      assert src[..n + 1] == src[..n] + [src[n]];
      if !safe(src[n]) {
        unsafe := unsafe + 1;
      }
      n := n + 1;
    }
    UpToNulIs(src, n);
  }

  method EncodeStuff(src: seq<Byte>, safe: SafeSet) returns (r: seq<Byte>)
    ensures r == Encode(src, safe)
  {
    var unsafe, n := CountUnsafe(src, safe);
    if unsafe == 0 {
      return src;
    }
    r := [];
    var i := 0;
    while i < n
      invariant i <= n && r == EncodeAll(src[..i], safe)
    {
      hide EncodeAll;
      CountOut(src, safe, i);
      if !safe(src[i]) {
        r := r + [PERCENT, HexChar(src[i] / 16), HexChar(src[i] % 16)];
      } else {
        r := r + [src[i]];
      }
      i := i + 1;
    }
  }

  /// The four sets of safe bytes
  /// ---------------------------

  predicate IsAlphanumeric(c: Byte)
  {
    48 <= c <= 57 || 65 <= c <= 90 || 97 <= c <= 122
  }

  // NUL, space, tab, newline, return, %, ', ", <, > and @ are unsafe.
  predicate IsHttpSafe(c: Byte)
  {
    c !in [0, 32, 9, 10, 13, 37, 39, 34, 60, 62, 64]
  }

  // =, comma, ;, % and : are unsafe.
  predicate IsCookieSafe(c: Byte)
  {
    c !in [61, 44, 59, 37, 58]
  }

  // Besides letters and digits, & ? = / : ; $ , . + and @ are safe.
  predicate IsUrlSafe(c: Byte)
  {
    IsAlphanumeric(c) || c in [38, 63, 61, 47, 58, 59, 36, 44, 46, 43, 64]
  }

  /// What is encoded can be decoded
  /// ------------------------------

  lemma HexRoundTrip(c: Byte)
    ensures HexByte(HexChar(c / 16), HexChar(c % 16)) == c
  {}

  lemma {:induction false} DecodeEncodeAll(s: seq<Byte>, safe: SafeSet, simple: int)
    requires !safe(PERCENT) && (simple == 1 || !safe(PLUS))
    ensures UrlDecode(EncodeAll(s, safe), simple) == s
  {
    if s != [] {
      var code, rest := EncodeByte(s[0], safe), EncodeAll(s[1..], safe);
      DecodeEncodeAll(s[1..], safe, simple);
      HexRoundTrip(s[0]);
      assert (code + rest)[|code|..] == rest;
      assert UrlPiece(code + rest, simple) == Piece(s[0], |code|);
    }
  }

  lemma {:induction false} EncodeSafe(s: seq<Byte>, safe: SafeSet)
    requires AllSafe(s, safe)
    ensures EncodeAll(s, safe) == s
  {
    if s != [] {
      assert safe(s[0]);
      EncodeSafe(s[1..], safe);
    }
  }

  lemma {:induction false} UpToNulWhole(s: seq<Byte>)
    requires NUL !in s
    ensures UpToNul(s) == s
  {
    if s != [] {
      assert s[0] in s;
      UpToNulWhole(s[1..]);
    }
  }

  // For a string without NUL, both branches of the encoder encode every byte.
  lemma EncodeIsEncodeAll(s: seq<Byte>, safe: SafeSet)
    requires NUL !in s
    ensures Encode(s, safe) == EncodeAll(s, safe)
  {
    UpToNulWhole(s);
    if AllSafe(s, safe) {
      EncodeSafe(s, safe);
    }
  }

  /** An encoder looks at what is before the first NUL: if all of that is safe the whole string comes back, with the
      NUL and what follows; otherwise these are cut off. */
  lemma EncodeStopsAtNul(a: seq<Byte>, b: seq<Byte>, safe: SafeSet)
    requires NUL !in a
    ensures Encode(a + [NUL] + b, safe) == if forall c <- a :: safe(c) then a + [NUL] + b else EncodeAll(a, safe)
  {
    var s := a + [NUL] + b;
    assert s[..|a|] == a && s[|a|] == NUL;
    UpToNulIs(s, |a|);
  }

  /** Decoding in mode `simple` undoes encoding with the set `safe`. */
  ghost predicate Inverse(safe: SafeSet, simple: int)
  {
    forall s :: NUL !in s ==> UrlDecode(Encode(s, safe), simple) == s
  }

  /** A decoder undoes an encoder that escapes `%` exactly when `+` is escaped or left alone. */
  lemma InverseExactly(safe: SafeSet, simple: int)
    requires !safe(PERCENT)
    ensures Inverse(safe, simple) <==> simple == 1 || !safe(PLUS)
  {
    if simple == 1 || !safe(PLUS) {
      forall s: seq<Byte> | NUL !in s
        ensures UrlDecode(Encode(s, safe), simple) == s
      {
        EncodeIsEncodeAll(s, safe);
        DecodeEncodeAll(s, safe, simple);
      }
    } else {
      var s := [PLUS];
      UpToNulWhole(s);
      assert Encode(s, safe) == s;
      assert UrlPiece(s, simple) == Piece(SPACE, 1);
      assert UrlDecode(s, simple)[0] == SPACE;
      assert NUL !in s && UrlDecode(Encode(s, safe), simple) != s;
    }
  }

  /** http_decode undoes all four encoders; the decoders that make `+` a space undo only http_encode. */
  lemma CodecInverse()
    ensures Inverse(IsAlphanumeric, 1) && Inverse(IsHttpSafe, 1) && Inverse(IsCookieSafe, 1) && Inverse(IsUrlSafe, 1)
    ensures Inverse(IsAlphanumeric, 0) && Inverse(IsAlphanumeric, 2)
    ensures !Inverse(IsHttpSafe, 0) && !Inverse(IsCookieSafe, 0) && !Inverse(IsUrlSafe, 0)
  {
    hide Inverse;
    InverseExactly(IsAlphanumeric, 0);
    InverseExactly(IsAlphanumeric, 1);
    InverseExactly(IsAlphanumeric, 2);
    InverseExactly(IsHttpSafe, 0);
    InverseExactly(IsHttpSafe, 1);
    InverseExactly(IsCookieSafe, 0);
    InverseExactly(IsCookieSafe, 1);
    InverseExactly(IsUrlSafe, 0);
    InverseExactly(IsUrlSafe, 1);
  }

  /// What an encoded text stands for
  /// -------------------------------

  // A hex digit of value `k`, in either case.
  predicate IsHex(b: Byte, k: nat)
    requires k < 16
  {
    b == (DIGITS + "ABCDEF")[k] as int || b == (DIGITS + "abcdef")[k] as int
  }

  // A byte is written as itself or as an escape; `+` is written for itself in mode 1 and for a space in the others.
  predicate Writes(code: seq<Byte>, c: Byte, simple: int)
  {
    || (code == [c] && c != PERCENT && c != PLUS)
    || (code == [PLUS] && c == if simple == 1 then PLUS else SPACE)
    || (|code| == 3 && code[0] == PERCENT && IsHex(code[1], c / 16) && IsHex(code[2], c % 16))
  }

  predicate WritesAll(codes: seq<seq<Byte>>, s: seq<Byte>, simple: int)
  {
    |codes| == |s| && forall i :: 0 <= i < |s| ==> Writes(codes[i], s[i], simple)
  }

  function Flat(codes: seq<seq<Byte>>): seq<Byte>
  {
    if codes == [] then [] else codes[0] + Flat(codes[1..])
  }

  // What is left of an escape at the end of a string.
  predicate IsCutEscape(s: seq<Byte>)
  {
    1 <= |s| <= 2 && s[0] == PERCENT
  }

  lemma PieceOfCode(code: seq<Byte>, c: Byte, rest: seq<Byte>, simple: int)
    requires Writes(code, c, simple)
    ensures UrlPiece(code + rest, simple) == Piece(c, |code|) && Drop(code + rest, |code|) == rest
    ensures simple == 1 && code != [QUESTION] ==> CharPiece(code + rest) == Piece(c, |code|)
    ensures code != [QUESTION] ==> code[0] != QUESTION
  {
    if |code| == 3 {
      assert c == 16 * (c / 16) + c % 16;
      HexValue(code[1], c / 16);
      HexValue(code[2], c % 16);
    }
  }

  lemma HexValue(b: Byte, k: nat)
    requires k < 16 && IsHex(b, k)
    ensures HexDigit(b) == k
  {}

  lemma DecodeCode(code: seq<Byte>, c: Byte, rest: seq<Byte>, simple: int)
    requires Writes(code, c, simple)
    ensures UrlDecode(code + rest, simple) == [c] + UrlDecode(rest, simple)
    ensures simple == 1 && code != [QUESTION] ==>
      CharDecode(code + rest) == Location([c] + CharDecode(rest).file, CharDecode(rest).query)
  {
    hide Writes, UrlPiece, CharPiece;
    PieceOfCode(code, c, rest, simple);
  }

  lemma DecodeCutEscape(tail: seq<Byte>, simple: int)
    requires IsCutEscape(tail) && PLUS !in tail
    ensures UrlDecode(tail, simple) == if simple >= 1 then tail else [NUL]
  {
    if |tail| == 2 && simple >= 1 {
      assert tail[1..] == [tail[1]] && tail[1] in tail;
      assert UrlDecode([tail[1]], simple) == [tail[1]] + UrlDecode([], simple);
    }
  }

  /** Decoding gives what the text was written for, whichever case its hex digits have. A `%` with fewer than two
      bytes after it is left alone above mode 0; in mode 0 it is a NUL. */
  lemma {:induction false} WrittenIsDecoded(codes: seq<seq<Byte>>, s: seq<Byte>, tail: seq<Byte>, simple: int)
    requires WritesAll(codes, s, simple) && (tail == [] || (IsCutEscape(tail) && PLUS !in tail))
    ensures UrlDecode(Flat(codes) + tail, simple)
         == s + if tail == [] then [] else if simple >= 1 then tail else [NUL]
    decreases |codes|
  {
    hide Writes, UrlDecode, IsCutEscape;
    if codes == [] {
      assert Flat(codes) + tail == tail;
      if tail == [] {
        UrlDecodeNothing(simple);
      } else {
        DecodeCutEscape(tail, simple);
      }
    } else {
      var rest := Flat(codes[1..]) + tail;
      DecodeCode(codes[0], s[0], rest, simple);
      assert Flat(codes) + tail == codes[0] + rest;
      WrittenIsDecoded(codes[1..], s[1..], tail, simple);
    }
  }

  // What a `?`, or a cut escape, or nothing gives at the end of a path.
  function Ending(s: seq<Byte>, tail: seq<Byte>): Location
  {
    if tail == [] then Location(s, None)
    else if tail[0] == QUESTION then Location(s, Some(tail[1..]))
    else Location(s + [NUL], None)
  }

  lemma LocateEnding(tail: seq<Byte>)
    requires tail == [] || tail[0] == QUESTION || IsCutEscape(tail)
    ensures CharDecode(tail) == Ending([], tail)
  {}

  lemma EndingAfter(s: seq<Byte>, tail: seq<Byte>)
    requires s != []
    ensures Ending(s, tail) == Location([s[0]] + Ending(s[1..], tail).file, Ending(s[1..], tail).query)
  {
    assert [s[0]] + s[1..] == s;
    assert [s[0]] + (s[1..] + [NUL]) == s + [NUL];
  }

  /** Of a URL, `?` ends the file part and starts the query, and `+` stands for itself; a `%` with fewer than two
      bytes after it is a NUL. */
  lemma {:induction false} WrittenIsLocated(codes: seq<seq<Byte>>, s: seq<Byte>, tail: seq<Byte>)
    requires WritesAll(codes, s, 1) && [QUESTION] !in codes
    requires tail == [] || tail[0] == QUESTION || IsCutEscape(tail)
    ensures CharDecode(Flat(codes) + tail) == Ending(s, tail)
    decreases |codes|
  {
    hide Writes, CharDecode, Ending;
    if codes == [] {
      assert Flat(codes) + tail == tail;
      LocateEnding(tail);
    } else {
      var rest := Flat(codes[1..]) + tail;
      DecodeCode(codes[0], s[0], rest, 1) by {
        assert codes[0] in codes;
      }
      assert Flat(codes) + tail == codes[0] + rest;
      EndingAfter(s, tail);
      WrittenIsLocated(codes[1..], s[1..], tail);
    }
  }

  // The codes of the bytes of a string.
  function Codes(s: seq<Byte>, safe: SafeSet): seq<seq<Byte>>
  {
    seq(|s|, i requires 0 <= i < |s| => EncodeByte(s[i], safe))
  }

  lemma {:induction false} FlatCodes(s: seq<Byte>, safe: SafeSet)
    ensures Flat(Codes(s, safe)) == EncodeAll(s, safe)
  {
    if s != [] {
      assert Codes(s, safe)[1..] == Codes(s[1..], safe);
      FlatCodes(s[1..], safe);
    }
  }

  lemma CodeIsHex(c: Byte)
    ensures IsHex(HexChar(c / 16), c / 16) && IsHex(HexChar(c % 16), c % 16)
  {}

  lemma CodesWrite(s: seq<Byte>, safe: SafeSet)
    requires !safe(PERCENT) && !safe(QUESTION)
    ensures WritesAll(Codes(s, safe), s, 1) && [QUESTION] !in Codes(s, safe)
  {
    hide HexChar, IsHex;
    forall i | 0 <= i < |s| ensures Writes(Codes(s, safe)[i], s[i], 1) && Codes(s, safe)[i] != [QUESTION] {
      CodeIsHex(s[i]);
    }
  }

  /** A path encoded with any set without `%` and `?` is the file part up to the query. */
  lemma EncodedPath(path: seq<Byte>, safe: SafeSet, query: seq<Byte>)
    requires !safe(PERCENT) && !safe(QUESTION)
    ensures CharDecode(EncodeAll(path, safe) + ([QUESTION] + query)) == Location(path, Some(query))
    ensures CharDecode(EncodeAll(path, safe)) == Location(path, None)
  {
    hide CharDecode;
    CodesWrite(path, safe);
    FlatCodes(path, safe);
    WrittenIsLocated(Codes(path, safe), path, [QUESTION] + query);
    assert ([QUESTION] + query)[1..] == query;
    WrittenIsLocated(Codes(path, safe), path, []);
    assert EncodeAll(path, safe) + [] == EncodeAll(path, safe);
  }

  /** A URL without `%` and `?` is its own file part. */
  lemma PlainPath(s: seq<Byte>)
    requires PERCENT !in s && QUESTION !in s
    ensures CharDecode(s) == Location(s, None)
  {
    var safe: SafeSet := c => c != PERCENT && c != QUESTION;
    EncodeSafe(s, safe);
    EncodedPath(s, safe, []);
  }

  /// What can occur in an encoded text
  /// ---------------------------------

  lemma SpelledHttpSafe(c: Byte)
    requires c != NUL
    ensures IsHttpSafe(c) <==> !Among(c, HTTP_UNSAFE)
  {
    var codes := [0, 32, 9, 10, 13, 37, 39, 34, 60, 62, 64];
    assert forall k :: 0 < k < |codes| ==> HTTP_UNSAFE[k - 1] as int == codes[k];
    if c in codes {
      var k :| 0 <= k < |codes| && codes[k] == c;
      assert HTTP_UNSAFE[k - 1] as int == c;
    } else {
      assert forall k :: 0 <= k < |HTTP_UNSAFE| ==> HTTP_UNSAFE[k] as int == codes[k + 1] != c;
    }
  }

  lemma SpelledCookieSafe(c: Byte)
    ensures IsCookieSafe(c) <==> !Among(c, COOKIE_UNSAFE)
  {
    var codes := [61, 44, 59, 37, 58];
    assert forall k :: 0 <= k < |codes| ==> COOKIE_UNSAFE[k] as int == codes[k];
  }

  lemma SpelledUrlSafe(c: Byte)
    ensures IsAlphanumeric(c) <==> IsLetterOrDigit(c)
    ensures IsUrlSafe(c) <==> IsLetterOrDigit(c) || Among(c, URL_SAFE)
  {
    Ranges(c);
    var codes := [38, 63, 61, 47, 58, 59, 36, 44, 46, 43, 64];
    assert forall k :: 0 <= k < |codes| ==> URL_SAFE[k] as int == codes[k];
  }

  const HTTP_UNSAFE := " \t\n\r%'\"<>@"
  const COOKIE_UNSAFE := "=,;%:"
  const URL_SAFE := "&?=/:;$,.+@"

  lemma {:induction false} EncodedBytes(s: seq<Byte>, safe: SafeSet)
    ensures forall c <- EncodeAll(s, safe) :: (safe(c) && c in s) || c == PERCENT || 48 <= c <= 57 || 65 <= c <= 70
  {
    if s != [] {
      EncodedBytes(s[1..], safe);
    }
  }

  lemma EncodeOne(c: Byte, safe: SafeSet)
    requires c != NUL
    ensures Encode([c], safe) == [c] <==> safe(c)
  {
    assert UpToNul([c]) == [c] + UpToNul([]);
    assert AllSafe([c], safe) <==> safe(c);
    EncodeIsEncodeAll([c], safe);
    assert EncodeAll([c], safe) == EncodeByte(c, safe) + EncodeAll([], safe);
  }

  /** The bytes that each encoder leaves alone; every other byte is escaped. */
  lemma LeftAlone(c: Byte)
    requires c != NUL
    ensures Encode([c], IsAlphanumeric) == [c] <==> IsLetterOrDigit(c)
    ensures Encode([c], IsHttpSafe) == [c] <==> !Among(c, " \t\n\r%'\"<>@")
    ensures Encode([c], IsCookieSafe) == [c] <==> !Among(c, "=,;%:")
    ensures Encode([c], IsUrlSafe) == [c] <==> IsLetterOrDigit(c) || Among(c, "&?=/:;$,.+@")
  {
    hide Encode, IsHttpSafe, IsCookieSafe, IsUrlSafe, IsAlphanumeric, Among, IsLetterOrDigit;
    EncodeOne(c, IsAlphanumeric);
    EncodeOne(c, IsHttpSafe);
    EncodeOne(c, IsCookieSafe);
    EncodeOne(c, IsUrlSafe);
    SpelledHttpSafe(c);
    SpelledCookieSafe(c);
    SpelledUrlSafe(c);
  }

  /** What can occur in the output of each encoder. */
  lemma EncodedAmong(s: seq<Byte>)
    requires NUL !in s
    ensures forall c <- Encode(s, IsAlphanumeric) :: IsLetterOrDigit(c) || c == PERCENT
    ensures forall c <- Encode(s, IsHttpSafe) :: c == PERCENT || (c != NUL && !Among(c, " \t\n\r%'\"<>@"))
    ensures forall c <- Encode(s, IsCookieSafe) :: c == PERCENT || !Among(c, "=,;%:")
    ensures forall c <- Encode(s, IsUrlSafe) :: IsLetterOrDigit(c) || Among(c, "&?=/:;$,.+@") || c == PERCENT
  {
    hide Encode, EncodeAll, Among, IsLetterOrDigit;
    forall c <- Encode(s, IsAlphanumeric) ensures IsLetterOrDigit(c) || c == PERCENT {
      EncodedByte(s, IsAlphanumeric, c);
      SpelledUrlSafe(c);
    }
    forall c <- Encode(s, IsHttpSafe) ensures c == PERCENT || (c != NUL && !Among(c, HTTP_UNSAFE)) {
      EncodedByte(s, IsHttpSafe, c);
      SpelledHttpSafe(c);
    }
    forall c <- Encode(s, IsCookieSafe) ensures c == PERCENT || !Among(c, COOKIE_UNSAFE) {
      EncodedByte(s, IsCookieSafe, c);
      SpelledCookieSafe(c);
    }
    forall c <- Encode(s, IsUrlSafe) ensures IsLetterOrDigit(c) || Among(c, URL_SAFE) || c == PERCENT {
      EncodedByte(s, IsUrlSafe, c);
      SpelledUrlSafe(c);
    }
  }

  lemma EncodedByte(s: seq<Byte>, safe: SafeSet, c: Byte)
    requires NUL !in s && c in Encode(s, safe)
    ensures c != NUL && (safe(c) || c == PERCENT || 48 <= c <= 57 || 65 <= c <= 70)
  {
    EncodeIsEncodeAll(s, safe);
    EncodedBytes(s, safe);
  }
}
