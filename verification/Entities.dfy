/** RoxenLib: HTML entities, encoded character by character and decoded by a three-mode automaton. */
module Entities {
  import opened Basics
  import opened JavaText
  import opened Alphabet
  import opened Numerals

  // What the decoder calls: toLowerCase, Integer.parseInt (nothing if it throws), and the table of names.
  datatype Platform = Platform(lower: Lowering, parse: Text -> Option<int>, table: map<Text, Unit>)

  // "amp", "lt", "gt" and "#34", "#39", "#0"
  const AMP: Text := [97, 109, 112]
  const LT: Text := [108, 116]
  const GT: Text := [103, 116]
  const NUMBER_34: Text := [HASH, 51, 52]
  const NUMBER_39: Text := [HASH, 51, 57]
  const NUMBER_0: Text := [HASH, 48]

  // The entries that decoding what was encoded relies on.
  ghost predicate Standard(java: Platform)
  {
    && LowersAscii(java.lower)
    && java.parse([51, 52]) == Some(QUOTE) && java.parse([51, 57]) == Some(APOSTROPHE) && java.parse([48]) == Some(0)
    && AMP in java.table && java.table[AMP] == AMPERSAND
    && LT in java.table && java.table[LT] == LESS
    && GT in java.table && java.table[GT] == GREATER
  }

  // A java.util.StringTokenizer that returns its delimiters: where the token at `p` ends.
  function NextToken(s: Text, p: nat, delims: seq<Unit>): (q: nat)
    requires p < |s|
    ensures p < q <= |s|
    ensures s[p] in delims ==> q == p + 1
    ensures s[p] !in delims ==> (forall k :: p <= k < q ==> s[k] !in delims) && (q < |s| ==> s[q] in delims)
    decreases |s| - p
  {
    if s[p] in delims || p + 1 == |s| || s[p + 1] in delims then p + 1 else NextToken(s, p + 1, delims)
  }

  /// Encoding
  /// --------

  function Reference(name: Text): Text
  {
    [AMPERSAND] + name + [SEMICOLON]
  }

  // The name that stands for a character, if it has to be quoted.
  function NameOf(c: Unit): Option<Text>
  {
    if c == AMPERSAND then Some(AMP)
    else if c == LESS then Some(LT)
    else if c == GREATER then Some(GT)
    else if c == QUOTE then Some(NUMBER_34)
    else if c == APOSTROPHE then Some(NUMBER_39)
    else if c == 0 then Some(NUMBER_0)
    else None
  }

  function Encode(s: Text): Text
  {
    if s == [] then []
    else (match NameOf(s[0]) case None => [s[0]] case Some(name) => Reference(name)) + Encode(s[1..])
  }

  const QUOTED: seq<Unit> := [AMPERSAND, LESS, GREATER, QUOTE, APOSTROPHE, 0]

  lemma EncodeFirst(c: Unit, rest: Text)
    ensures NameOf(c) == None ==> Encode([c] + rest) == [c] + Encode(rest)
    ensures NameOf(c) != None ==> Encode([c] + rest) == Reference(NameOf(c).value) + Encode(rest)
  {
    hide NameOf;
    assert ([c] + rest)[1..] == rest;
  }

  predicate Plain(run: Text)
  {
    forall i | 0 <= i < |run| :: NameOf(run[i]) == None
  }

  lemma {:induction false} EncodeRun(run: Text, rest: Text)
    requires Plain(run)
    ensures Encode(run + rest) == run + Encode(rest)
  {
    hide Encode, NameOf;
    if run == [] {
      assert run + rest == rest;
    } else {
      assert run == [run[0]] + run[1..];
      ConcatAssoc([run[0]], run[1..], rest);
      EncodeFirst(run[0], run[1..] + rest);
      EncodeRun(run[1..], rest);
      ConcatAssoc([run[0]], run[1..], Encode(rest));
    }
  }

  method HtmlEncodeString(s: Text) returns (sb: Text)
    ensures sb == Encode(s)
  {
    hide Encode, NextToken;
    sb := [];
    var p := 0;
    assert s[0..] == s;
    while p < |s|
      invariant p <= |s| && sb + Encode(s[p..]) == Encode(s)
    {
      var q := NextToken(s, p, QUOTED);
      var t := s[p..q];
      TokenEncoded(s, p, q, sb);
      if |t| == 1 {
        var c := t[0];
        if c == AMPERSAND {
          sb := sb + [AMPERSAND] + AMP + [SEMICOLON];
        } else if c == LESS {
          sb := sb + [AMPERSAND] + LT + [SEMICOLON];
        } else if c == GREATER {
          sb := sb + [AMPERSAND] + GT + [SEMICOLON];
        } else if c == QUOTE {
          sb := sb + [AMPERSAND] + NUMBER_34 + [SEMICOLON];
        } else if c == APOSTROPHE {
          sb := sb + [AMPERSAND] + NUMBER_39 + [SEMICOLON];
        } else if c == 0 {
          sb := sb + [AMPERSAND] + NUMBER_0 + [SEMICOLON];
        } else {
          sb := sb + t;
        }
      } else {
        sb := sb + t;
      }
      p := q;
    }
    EncodeNothing(s[p..]);
  }

  lemma EncodeNothing(s: Text)
    requires s == []
    ensures Encode(s) == []
  {}

  // What a token adds, whether it is a delimiter or a run of others.
  lemma TokenEncoded(s: Text, p: nat, q: nat, sb: Text)
    requires p < |s| && q == NextToken(s, p, QUOTED)
    ensures q > p + 1 ==> sb + Encode(s[p..]) == sb + s[p..q] + Encode(s[q..])
    ensures q == p + 1 ==>
      match NameOf(s[p])
      case None => sb + Encode(s[p..]) == sb + s[p..q] + Encode(s[q..])
      case Some(name) => sb + Encode(s[p..]) == sb + [AMPERSAND] + name + [SEMICOLON] + Encode(s[q..])
  {
    hide NextToken, Encode, NameOf;
    SplitToken(s, p, q);
    if s[p] in QUOTED {
      MarkEncoded(s[p], s[q..], sb);
    } else {
      Unquoted(s, p, q);
      EncodeRun(s[p..q], s[q..]);
      ConcatAssoc(sb, s[p..q], Encode(s[q..]));
    }
  }

  lemma SplitToken(s: Text, p: nat, q: nat)
    requires p < q <= |s|
    ensures s[p..] == s[p..q] + s[q..] && (q == p + 1 ==> s[p..q] == [s[p]])
  {}

  lemma Unquoted(s: Text, p: nat, q: nat)
    requires p < q <= |s| && forall k :: p <= k < q ==> s[k] !in QUOTED
    ensures NameOf(s[p]) == None && Plain(s[p..q])
  {}

  lemma MarkEncoded(c: Unit, rest: Text, sb: Text)
    requires c in QUOTED
    ensures NameOf(c) != None
    ensures sb + Encode([c] + rest) == sb + [AMPERSAND] + NameOf(c).value + [SEMICOLON] + Encode(rest)
  {
    hide Encode;
    var name := NameOf(c).value;
    EncodeFirst(c, rest);
    ConcatAssoc(sb, Reference(name), Encode(rest));
    ConcatAssoc(sb, [AMPERSAND] + name, [SEMICOLON]);
    ConcatAssoc(sb, [AMPERSAND], name);
  }

  /// Decoding
  /// --------

  /** What a reference stands for, or the reference as it is. */
  function Decoded(ent: Text, java: Platform): Text
  {
    if |ent| > 1 && ent[0] == HASH && ent[1] != MINUS then
      match java.parse(ent[1..])
      case Some(n) => [n % 0x1_0000]
      case None => Reference(ent)
    else
      var name := java.lower(ent);
      if name in java.table then [java.table[name]] else Reference(ent)
  }

  const MARKS: seq<Unit> := [AMPERSAND, SEMICOLON]

  predicate IsRun(t: Text)
  {
    t != [] && forall c <- t :: c !in MARKS
  }

  function RunEnd(s: Text, p: nat): (q: nat)
    requires p <= |s|
    ensures p <= q <= |s| && (forall k :: p <= k < q ==> s[k] !in MARKS) && (q < |s| ==> s[q] in MARKS)
    decreases |s| - p
  {
    if p == |s| || s[p] in MARKS then p else RunEnd(s, p + 1)
  }

  /** The rule: an ampersand, a run free of marks and a semicolon are decoded, anything else is copied. */
  function Decode(s: Text, java: Platform): Text
  {
    if s == [] then []
    else if s[0] != AMPERSAND then [s[0]] + Decode(s[1..], java)
    else
      var e := RunEnd(s, 1);
      if 1 < e < |s| && s[e] == SEMICOLON then Decoded(s[1..e], java) + Decode(s[e + 1..], java)
      else [AMPERSAND] + Decode(s[1..], java)
  }

  lemma DecodeFirst(c: Unit, rest: Text, java: Platform)
    requires c != AMPERSAND
    ensures Decode([c] + rest, java) == [c] + Decode(rest, java)
  {
    assert ([c] + rest)[1..] == rest;
  }

  lemma {:induction false} DecodePlain(run: Text, rest: Text, java: Platform)
    requires AMPERSAND !in run
    ensures Decode(run + rest, java) == run + Decode(rest, java)
  {
    hide Decode;
    if run == [] {
      assert run + rest == rest;
    } else {
      assert run[0] in run && run == [run[0]] + run[1..];
      ConcatAssoc([run[0]], run[1..], rest);
      DecodeFirst(run[0], run[1..] + rest, java);
      DecodePlain(run[1..], rest, java);
      ConcatAssoc([run[0]], run[1..], Decode(rest, java));
    }
  }

  lemma RunEndIs(s: Text, q: nat)
    requires 1 <= q <= |s| && (forall k :: 1 <= k < q ==> s[k] !in MARKS) && (q < |s| ==> s[q] in MARKS)
    ensures RunEnd(s, 1) == q
  {}

  lemma DecodeReference(ent: Text, rest: Text, java: Platform)
    requires IsRun(ent) && (rest == [] || rest[0] in MARKS)
    ensures Decode([AMPERSAND] + ent + rest, java)
      == if rest != [] && rest[0] == SEMICOLON then Decoded(ent, java) + Decode(rest[1..], java)
         else [AMPERSAND] + ent + Decode(rest, java)
  {
    hide Decoded, RunEnd, IsRun;
    var s, q := [AMPERSAND] + ent + rest, 1 + |ent|;
    ReferenceShape(ent, rest);
    RunEndIs(s, q);
    if rest != [] && rest[0] == SEMICOLON {
      assert s[q + 1..] == s[q..][1..] == rest[1..];
    } else {
      hide Decode;
      DecodePlain(ent, rest, java);
      DecodeNoReference(s, q, java);
      ConcatAssoc([AMPERSAND], ent, Decode(rest, java));
    }
  }

  lemma DecodeNoReference(s: Text, q: nat, java: Platform)
    requires s != [] && s[0] == AMPERSAND && RunEnd(s, 1) == q && (q < |s| ==> s[q] == AMPERSAND)
    ensures Decode(s, java) == [AMPERSAND] + Decode(s[1..], java)
  {
    hide Decoded, RunEnd;
  }

  lemma ReferenceShape(ent: Text, rest: Text)
    requires IsRun(ent) && (rest == [] || rest[0] in MARKS)
    ensures var s, q := [AMPERSAND] + ent + rest, 1 + |ent|;
      && s[1..q] == ent && s[q..] == rest && s[1..] == ent + rest
      && (forall k :: 1 <= k < q ==> s[k] !in MARKS) && (q < |s| ==> s[q] in MARKS && s[q] == rest[0])
      && AMPERSAND !in ent && |ent| > 0
  {
    var s, q := [AMPERSAND] + ent + rest, 1 + |ent|;
    forall k | 1 <= k < q ensures s[k] !in MARKS {
      assert s[k] == ent[k - 1] && ent[k - 1] in ent;
    }
  }

  lemma DecodeLone(rest: Text, java: Platform)
    requires rest == [] || rest[0] in MARKS
    ensures Decode([AMPERSAND] + rest, java) == [AMPERSAND] + Decode(rest, java)
  {
    var s := [AMPERSAND] + rest;
    assert s[1..] == rest;
    RunEndIs(s, 1);
  }

  // What the automaton holds back.
  function Held(mode: int, ent: Text): Text
  {
    if mode == 0 then [] else if mode == 1 then [AMPERSAND] else [AMPERSAND] + ent
  }

  // What is out, what is held back and what is to come decode to the whole.
  ghost predicate Consistent(sb: Text, mode: int, ent: Text, rest: Text, all: Text, java: Platform)
  {
    && 0 <= mode <= 2
    && sb + Decode(Held(mode, ent) + rest, java) == all
    && (mode == 2 ==> IsRun(ent) && (rest == [] || rest[0] in MARKS))
  }

  // A token: a mark by itself, or a whole run.
  ghost predicate IsToken(t: Text, rest: Text)
  {
    t == [AMPERSAND] || t == [SEMICOLON] || (IsRun(t) && (rest == [] || rest[0] in MARKS))
  }

  lemma TokenOf(s: Text, p: nat, q: nat)
    requires p < |s| && q == NextToken(s, p, MARKS)
    ensures s[p..] == s[p..q] + s[q..] && IsToken(s[p..q], s[q..])
  {
    hide NextToken;
    var t := s[p..q];
    if s[p] in MARKS {
      assert t == [s[p]];
    } else {
      assert forall c <- t :: c !in MARKS;
      assert q < |s| ==> s[q..][0] == s[q];
    }
  }

  lemma PlainStep(sb: Text, ent: Text, t: Text, rest: Text, all: Text, java: Platform)
    requires Consistent(sb, 0, ent, t + rest, all, java) && IsToken(t, rest)
    ensures if t == [AMPERSAND] then Consistent(sb, 1, ent, rest, all, java)
            else Consistent(sb + t, 0, ent, rest, all, java)
  {
    hide Decode;
    assert [] + (t + rest) == t + rest && [] + rest == rest;
    if t != [AMPERSAND] {
      DecodePlain(t, rest, java);
      ConcatAssoc(sb, t, Decode(rest, java));
    }
  }

  lemma MarkStep(sb: Text, ent: Text, t: Text, rest: Text, all: Text, java: Platform)
    requires Consistent(sb, 1, ent, t + rest, all, java) && IsToken(t, rest)
    ensures t == [AMPERSAND] ==> Consistent(sb + [AMPERSAND], 1, ent, rest, all, java)
    ensures t == [SEMICOLON] ==> Consistent(sb + [AMPERSAND] + [SEMICOLON], 0, ent, rest, all, java)
    ensures t != [AMPERSAND] && t != [SEMICOLON] ==> Consistent(sb, 2, t, rest, all, java)
  {
    hide Decode;
    assert [] + rest == rest;
    if t == [AMPERSAND] || t == [SEMICOLON] {
      DecodeLone(t + rest, java);
      ConcatAssoc(sb, [AMPERSAND], Decode(t + rest, java));
      if t == [SEMICOLON] {
        DecodePlain(t, rest, java);
        ConcatAssoc(sb + [AMPERSAND], t, Decode(rest, java));
      }
    } else {
      ConcatAssoc([AMPERSAND], t, rest);
    }
  }

  lemma NameStep(sb: Text, ent: Text, t: Text, rest: Text, all: Text, java: Platform)
    requires Consistent(sb, 2, ent, t + rest, all, java) && IsToken(t, rest)
    ensures t == [SEMICOLON] || t == [AMPERSAND]
    ensures t == [SEMICOLON] ==> Consistent(sb + Decoded(ent, java), 0, ent, rest, all, java)
    ensures t == [AMPERSAND] ==> Consistent(sb + [AMPERSAND] + ent, 1, ent, rest, all, java)
  {
    hide Decode, Decoded;
    assert [] + rest == rest;
    assert (t + rest)[0] == t[0] && t[0] in t;
    DecodeReference(ent, t + rest, java);
    if t == [SEMICOLON] {
      assert (t + rest)[1..] == rest;
      ConcatAssoc(sb, Decoded(ent, java), Decode(rest, java));
    } else {
      ConcatAssoc(sb, [AMPERSAND] + ent, Decode(t + rest, java));
      ConcatAssoc(sb, [AMPERSAND], ent);
    }
  }

  lemma Finish(sb: Text, mode: int, ent: Text, all: Text, java: Platform)
    requires Consistent(sb, mode, ent, [], all, java)
    ensures 0 <= mode <= 2
    ensures all == if mode == 0 then sb else if mode == 1 then sb + [AMPERSAND] else sb + [AMPERSAND] + ent
  {
    hide Decode, Decoded;
    assert Decode([], java) == [] by { DecodeNothing(java); }
    if mode == 0 {
      assert Held(mode, ent) + [] == [];
    } else if mode == 1 {
      DecodeLone([], java);
    } else {
      DecodeReference(ent, [], java);
      ConcatAssoc(sb, [AMPERSAND], ent);
    }
  }

  lemma DecodeNothing(java: Platform)
    ensures Decode([], java) == []
  {}

  method AppendDecoded(s: Text, ent: Text, java: Platform) returns (sb: Text)
    requires ent != []
    ensures sb == s + Decoded(ent, java)
  {
    sb := s;
    if ent[0] == HASH && |ent| > 1 && ent[1] != MINUS {
      var n := java.parse(ent[1..]);
      if n != None {
        return sb + [n.value % 0x1_0000];
      }
    } else {
      var name := java.lower(ent);
      if name in java.table {
        return sb + [java.table[name]];
      }
    }
    sb := sb + [AMPERSAND] + ent + [SEMICOLON];
    assert sb == s + Reference(ent);
  }

  method HtmlDecodeString(s: Text, java: Platform) returns (sb: Text)
    ensures sb == Decode(s, java)
  {
    hide Decode, Decoded, NextToken, Consistent;
    sb := [];
    var ent := [];
    var mode := 0;
    var p := 0;
    ghost var all := Decode(s, java);
    Start(s, java);
    while p < |s|
      invariant p <= |s| && Consistent(sb, mode, ent, s[p..], all, java) && (mode == 2 ==> ent != [])
    {
      var q := NextToken(s, p, MARKS);
      var t := s[p..q];
      ghost var rest := s[q..];
      TokenOf(s, p, q);
      if mode == 0 {
        PlainStep(sb, ent, t, rest, all, java);
        if t == [AMPERSAND] {
          mode := 1;
        } else {
          sb := sb + t;
        }
      } else if mode == 1 {
        MarkStep(sb, ent, t, rest, all, java);
        if t == [AMPERSAND] {
          sb := sb + [AMPERSAND];
        } else if t == [SEMICOLON] {
          sb := sb + [AMPERSAND] + [SEMICOLON];
          mode := 0;
        } else {
          ent := t;
          mode := 2;
        }
      } else {
        ModeIs2(sb, mode, ent, s[p..], all, java);
        NameStep(sb, ent, t, rest, all, java);
        if t == [SEMICOLON] {
          sb := AppendDecoded(sb, ent, java);
          mode := 0;
        } else {
          sb := sb + [AMPERSAND] + ent;
          // The source copies any other token here, but there is none.
          assert t == [AMPERSAND];
          mode := 1;
        }
      }
      p := q;
    }
    assert s[p..] == [];
    Finish(sb, mode, ent, all, java);
    if mode == 1 {
      sb := sb + [AMPERSAND];
    } else if mode == 2 {
      sb := sb + [AMPERSAND] + ent;
    }
  }

  lemma ModeIs2(sb: Text, mode: int, ent: Text, rest: Text, all: Text, java: Platform)
    requires Consistent(sb, mode, ent, rest, all, java) && mode != 0 && mode != 1
    ensures mode == 2 && ent != []
  {}

  lemma Start(s: Text, java: Platform)
    ensures s[0..] == s && Consistent([], 0, [], s, Decode(s, java), java)
  {
    hide Decode;
    assert [] + s == s;
  }

  /// What is encoded can be decoded
  /// ------------------------------

  lemma NameDecodes(c: Unit, java: Platform)
    requires Standard(java) && NameOf(c) != None
    ensures IsRun(NameOf(c).value) && Decoded(NameOf(c).value, java) == [c]
  {
    assert java.lower(AMP) == AsciiLower(AMP) == AMP;
    assert java.lower(LT) == AsciiLower(LT) == LT;
    assert java.lower(GT) == AsciiLower(GT) == GT;
    assert NUMBER_34[1..] == [51, 52] && NUMBER_39[1..] == [51, 57] && NUMBER_0[1..] == [48];
  }

  /** Decoding undoes encoding, for every string. */
  lemma {:induction false} DecodeEncode(s: Text, java: Platform)
    requires Standard(java)
    ensures Decode(Encode(s), java) == s
  {
    hide Decode, Decoded, Standard;
    if s == [] {
      DecodeNothing(java);
    } else {
      var rest := Encode(s[1..]);
      DecodeEncode(s[1..], java);
      if NameOf(s[0]) == None {
        DecodePlain([s[0]], rest, java);
      } else {
        var name := NameOf(s[0]).value;
        NameDecodes(s[0], java);
        assert Reference(name) + rest == [AMPERSAND] + name + ([SEMICOLON] + rest);
        DecodeReference(name, [SEMICOLON] + rest, java);
        assert ([SEMICOLON] + rest)[1..] == rest;
      }
    }
  }

  predicate NoMarkup(t: Text)
  {
    forall i | 0 <= i < |t| :: t[i] !in [LESS, GREATER, QUOTE, APOSTROPHE, 0]
  }

  lemma NameHasNoMarkup(c: Unit)
    ensures match NameOf(c) case None => NoMarkup([c]) case Some(name) => NoMarkup(Reference(name))
  {}

  lemma NoMarkupConcat(a: Text, b: Text)
    requires NoMarkup(a) && NoMarkup(b)
    ensures NoMarkup(a + b)
  {}

  /** No markup is left in what is encoded: none of the quoted characters but the ampersand of a reference. */
  lemma {:induction false} EncodedIsQuoted(s: Text)
    ensures NoMarkup(Encode(s))
  {
    hide NameOf, NoMarkup;
    if s == [] {
      assert NoMarkup([]) by { NoMarkupOfNothing(); }
    } else {
      EncodedIsQuoted(s[1..]);
      NameHasNoMarkup(s[0]);
      NoMarkupConcat(if NameOf(s[0]) == None then [s[0]] else Reference(NameOf(s[0]).value), Encode(s[1..]));
    }
  }

  lemma NoMarkupOfNothing()
    ensures NoMarkup([])
  {}

  /// Names with capitals
  /// -------------------

  predicate IsAscii(s: Text)
  {
    forall i | 0 <= i < |s| :: s[i] < 128
  }

  predicate HasCapital(name: Text)
  {
    exists c <- name :: 65 <= c <= 90
  }

  function WithoutCapitals(table: map<Text, Unit>): map<Text, Unit>
  {
    map name | name in table && !HasCapital(name) :: table[name]
  }

  /** An entry whose name has a capital letter is never found: dropping them all changes nothing in ASCII text. */
  lemma {:induction false} CapitalsAreDead(s: Text, java: Platform)
    requires LowersAscii(java.lower) && IsAscii(s)
    ensures Decode(s, java) == Decode(s, java.(table := WithoutCapitals(java.table)))
    decreases |s|
  {
    hide Decoded, RunEnd, LowersAscii;
    if s != [] {
      CapitalsAreDead(s[1..], java);
      if s[0] == AMPERSAND {
        var e := RunEnd(s, 1);
        if 1 < e < |s| && s[e] == SEMICOLON {
          CapitalsAreDead(s[e + 1..], java);
          NameWithoutCapitals(s[1..e], java);
        }
      }
    }
  }

  lemma NameWithoutCapitals(ent: Text, java: Platform)
    requires LowersAscii(java.lower) && IsAscii(ent)
    ensures Decoded(ent, java) == Decoded(ent, java.(table := WithoutCapitals(java.table)))
  {
    var name := java.lower(ent);
    assert name == AsciiLower(ent);
    assert !HasCapital(name);
  }

  lemma ReferenceIsLong(name: Text)
    requires IsRun(name)
    ensures |Reference(name)| > 1 && Reference(name) == [AMPERSAND] + name + [SEMICOLON]
  {}

  /** A reference to an entry of the table gives the character of that entry if and only if the lower-case name
      has an entry with the same character. */
  lemma EntryIsDecoded(name: Text, java: Platform)
    requires LowersAscii(java.lower) && IsAscii(name) && IsRun(name) && name[0] != HASH && name in java.table
    ensures var low := AsciiLower(name);
      Decode(Reference(name), java) == [java.table[name]]
      <==> low in java.table && java.table[low] == java.table[name]
  {
    hide Decode;
    var low := java.lower(name);
    assert low == AsciiLower(name);
    DecodeReference(name, [SEMICOLON], java);
    assert [SEMICOLON][1..] == [];
    DecodeNothing(java);
    ReferenceIsLong(name);
    assert Decode(Reference(name), java) == Decoded(name, java) + [];
  }

  // "Dagger" and "dagger"
  const UPPER_DAGGER: Text := [68, 97, 103, 103, 101, 114]
  const DAGGER: Text := [100, 97, 103, 103, 101, 114]

  // Both daggers are in the table, but the reference to the double one gives the single one.
  lemma DaggerIsWrong(java: Platform)
    requires LowersAscii(java.lower)
    requires UPPER_DAGGER in java.table && java.table[UPPER_DAGGER] == 0x2021
    requires DAGGER in java.table && java.table[DAGGER] == 0x2020
    ensures Decode(Reference(UPPER_DAGGER), java) == [0x2020]
  {
    hide Decode;
    var low := java.lower(UPPER_DAGGER);
    assert low == AsciiLower(UPPER_DAGGER) == DAGGER;
    DecodeReference(UPPER_DAGGER, [SEMICOLON], java);
    assert [SEMICOLON][1..] == [];
    DecodeNothing(java);
    assert Decode(Reference(UPPER_DAGGER), java) == Decoded(UPPER_DAGGER, java) + [];
  }

  /// Every kind of reference
  /// -----------------------

  lemma ReferenceRead(ent: Text, rest: Text, java: Platform)
    requires IsRun(ent)
    ensures Decode(Reference(ent) + rest, java) == Decoded(ent, java) + Decode(rest, java)
  {
    hide Decode, Decoded;
    assert Reference(ent) + rest == [AMPERSAND] + ent + ([SEMICOLON] + rest);
    assert ([SEMICOLON] + rest)[1..] == rest;
    DecodeReference(ent, [SEMICOLON] + rest, java);
  }

  /** A reference by number is the character with the number that is parsed, modulo 65536; if none is, it is copied. */
  lemma NumberIsDecoded(digits: Text, rest: Text, java: Platform)
    requires IsRun(digits) && digits[0] != MINUS
    ensures var reference, tail := [AMPERSAND, HASH] + digits + [SEMICOLON], Decode(rest, java);
      Decode(reference + rest, java)
      == if java.parse(digits).Some? then [java.parse(digits).value % 65536] + tail else reference + tail
  {
    hide Decode;
    var ent := [HASH] + digits;
    assert ent[1..] == digits && [AMPERSAND, HASH] + digits + [SEMICOLON] == Reference(ent);
    ReferenceRead(ent, rest, java);
  }

  // Integer.parseInt of a numeral fails on what does not fit in 32 bits.
  ghost predicate ParsesNumerals(parse: Text -> Option<int>)
  {
    forall n: nat, width: nat :: parse(Padded(n, width)) == if n < 0x8000_0000 then Some(n) else None
  }

  lemma {:induction false} NumeralIsRun(n: nat, width: nat)
    ensures IsRun(Padded(n, width)) && Padded(n, width)[0] != MINUS
  {
    var ds := Padded(n, width);
    forall c <- ds ensures c !in MARKS && c != MINUS {
      var d: Digit := c;
    }
    assert ds[0] in ds;
  }

  /** `&#n;`, with any zeros in front, is the character n modulo 65536 for every 32-bit n, and is copied for
      every longer one. */
  lemma NumeralIsDecoded(n: nat, width: nat, rest: Text, java: Platform)
    requires ParsesNumerals(java.parse)
    ensures var reference := Ascii("&#") + Padded(n, width) + Ascii(";");
      Decode(reference + rest, java) == (if n < 0x8000_0000 then [n % 65536] else reference) + Decode(rest, java)
  {
    hide Decode, Padded, IsRun;
    NumeralIsRun(n, width);
    NumberIsDecoded(Padded(n, width), rest, java);
    assert Ascii("&#") == [AMPERSAND, HASH] && Ascii(";") == [SEMICOLON];
  }

  /** A reference by name, which a `#` alone and a negative number are too, is the character that the table has for
      the name in lower case; if there is none, it is copied. */
  lemma NameIsDecoded(name: Text, rest: Text, java: Platform)
    requires IsRun(name) && (name[0] != HASH || |name| == 1 || name[1] == MINUS)
    ensures var low, tail := java.lower(name), Decode(rest, java);
      Decode([AMPERSAND] + name + [SEMICOLON] + rest, java)
      == if low in java.table then [java.table[low]] + tail else [AMPERSAND] + name + [SEMICOLON] + tail
  {
    hide Decode;
    ReferenceRead(name, rest, java);
  }

  /** What each quoted character is encoded to; every other character stays. */
  lemma EncodedCharacters(c: Unit)
    ensures Encode(Ascii("&")) == Ascii("&amp;") && Encode(Ascii("<")) == Ascii("&lt;")
    ensures Encode(Ascii(">")) == Ascii("&gt;") && Encode(Ascii("\"")) == Ascii("&#34;")
    ensures Encode(Ascii("'")) == Ascii("&#39;") && Encode([0]) == Ascii("&#0;")
    ensures c != 0 && !Among(c, "&<>\"'") ==> Encode([c]) == [c]
  {
    hide Encode, Ascii, Among;
    Spelled();
    EncodedAs(AMPERSAND);
    EncodedAs(LESS);
    EncodedAs(GREATER);
    EncodedAs(QUOTE);
    EncodedAs(APOSTROPHE);
    EncodedAs(0);
    EncodedAs(c);
    QuotedAmong(c);
  }

  lemma Spelled()
    ensures Ascii("&") == [AMPERSAND] && Ascii("&amp;") == Reference(AMP)
    ensures Ascii("<") == [LESS] && Ascii("&lt;") == Reference(LT)
    ensures Ascii(">") == [GREATER] && Ascii("&gt;") == Reference(GT)
    ensures Ascii("\"") == [QUOTE] && Ascii("&#34;") == Reference(NUMBER_34)
    ensures Ascii("'") == [APOSTROPHE] && Ascii("&#39;") == Reference(NUMBER_39)
    ensures Ascii("&#0;") == Reference(NUMBER_0)
  {}

  lemma QuotedAmong(c: Unit)
    ensures c == 0 || Among(c, "&<>\"'") <==> NameOf(c) != None
  {
    var chars := "&<>\"'";
    assert chars[0] as int == AMPERSAND && chars[1] as int == LESS && chars[2] as int == GREATER;
    assert chars[3] as int == QUOTE && chars[4] as int == APOSTROPHE;
  }

  lemma EncodedAs(c: Unit)
    ensures Encode([c]) == match NameOf(c) case None => [c] case Some(name) => Reference(name)
  {
    EncodeNothing([]);
    EncodeFirst(c, []);
    assert [c] + [] == [c];
  }
}
