/** Parsing of query strings: `k=v&k=v...`. */
module QueryString {
  import opened Basics
  import opened Bytes
  import opened UrlCodec

  /** The variables with values, and the raw names of those without. */
  datatype Form = Form(vars: map<seq<Byte>, seq<Byte>>, empties: set<seq<Byte>>)

  /// What a query means
  /// ------------------

  predicate IsSeparator(c: Byte)
  {
    c == AMPERSAND || c == SEMICOLON
  }

  // The first separator at or after `i`, or the end.
  function NextSeparator(q: seq<Byte>, i: nat): (k: nat)
    requires i <= |q|
    ensures i <= k <= |q| && (k < |q| ==> IsSeparator(q[k]))
    ensures forall j :: i <= j < k ==> !IsSeparator(q[j])
    decreases |q| - i
  {
    if i < |q| && !IsSeparator(q[i]) then NextSeparator(q, i + 1) else i
  }

  // The first equals sign at or after `i`, or the end.
  function FirstEquals(s: seq<Byte>, i: nat): (k: nat)
    requires i <= |s|
    ensures i <= k <= |s| && (k < |s| ==> s[k] == EQUALS)
    ensures forall j :: i <= j < k ==> s[j] != EQUALS
    decreases |s| - i
  {
    if i < |s| && s[i] != EQUALS then FirstEquals(s, i + 1) else i
  }

  /** Values of one variable are joined by NUL; the name of a variable without value is not decoded. */
  function Assign(f: Form, name: seq<Byte>, value: seq<Byte>): Form
  {
    if value == [] then f.(empties := f.empties + {name})
    else
      var key := UrlDecode(name, 0);
      var decoded := UrlDecode(value, 0);
      f.(vars := f.vars[key := if key in f.vars then f.vars[key] + ([NUL] + decoded) else decoded])
  }

  function AssignSegment(f: Form, seg: seq<Byte>): Form
  {
    var e := FirstEquals(seg, 0);
    if e == |seg| then Assign(f, seg, []) else Assign(f, seg[..e], seg[e + 1..])
  }

  // A segment that is empty, unless a `;` ends it, or starts with a NUL ends the parsing.
  predicate IsBlank(q: seq<Byte>)
  {
    q == [] || q[0] == AMPERSAND || q[0] == NUL
  }

  /** The segments of `q` are assigned in order, up to the first blank one. */
  function Segments(q: seq<Byte>, f: Form): Form
    decreases |q|
  {
    if IsBlank(q) then f
    else
      var k := NextSeparator(q, 0);
      var g := AssignSegment(f, q[..k]);
      if k == |q| then g else Segments(q[k + 1..], g)
  }

  /** After a leading `;` the next byte is not looked at, so a first segment is misread. */
  function AfterSemicolon(q: seq<Byte>, f: Form): Form
    requires |q| > 0 && q[0] == SEMICOLON
  {
    if |q| == 1 then f
    else
      var k := NextSeparator(q, 2);
      var e := FirstEquals(q[..k], 2);
      var g :=
        if e < k then Assign(f, q[..e], q[e + 1..k])
        else Assign(f, q[if IsSeparator(q[1]) then 2 else 1..k], []);
      if k == |q| then g else Segments(q[k + 1..], g)
  }

  function Parse(q: seq<Byte>, f: Form): Form
  {
    if q != [] && q[0] == SEMICOLON then AfterSemicolon(q, f) else Segments(q, f)
  }

  /// The parser
  /// ----------

  // Where the segment that ends at `ptr` begins.
  method BackUp(q: seq<Byte>, ptr: nat) returns (name: nat)
    requires 0 < ptr <= |q|
    ensures name <= ptr && (name == 0 || IsSeparator(q[name - 1]))
    ensures forall j :: name <= j < ptr ==> !IsSeparator(q[j])
  {
    var p := ptr - 1;
    while p >= 0
      invariant -1 <= p < ptr
      invariant forall j :: p < j < ptr ==> !IsSeparator(q[j])
    {
      if IsSeparator(q[p]) {
        return p + 1;
      }
      p := p - 1;
    }
    name := p + 1;
  }

  // Where the loop stands: before a leading `;`, in the segment after it, in another segment, or past a blank one.
  datatype Mode = Semicolon | Leading | Reading | Stuck

  // Up to `ptr` the segment at `name` has no separator, and `equal` is its first equals sign, if any.
  ghost predicate Scanned(q: seq<Byte>, name: nat, from: nat, ptr: nat, equal: int)
  {
    && name <= from <= ptr <= |q|
    && (forall j :: from <= j < ptr ==> !IsSeparator(q[j]))
    && (if equal < 0 then forall j :: from <= j < ptr ==> q[j] != EQUALS
        else from <= equal < ptr && q[equal] == EQUALS && forall j :: from <= j < equal ==> q[j] != EQUALS)
  }

  // In each mode, what is left to do for the result `target`.
  ghost predicate Standing(q: seq<Byte>, mode: Mode, name: nat, ptr: nat, equal: int, f: Form, target: Form)
  {
    match mode
    case Semicolon =>
      ptr == 0 && name == 0 && equal < 0 && q != [] && q[0] == SEMICOLON && AfterSemicolon(q, f) == target
    case Reading =>
      && Scanned(q, name, name, ptr, equal)
      && (name == 0 || IsSeparator(q[name - 1]))
      && !IsBlank(q[name..]) && (name == 0 ==> q[0] != SEMICOLON)
      && Segments(q[name..], f) == target
    case Stuck =>
      name <= |q| && IsBlank(q[name..]) && f == target
    case Leading =>
      && name == 0 && |q| >= 2 && q[0] == SEMICOLON
      && Scanned(q, 0, 2, ptr, equal)
      && AfterSemicolon(q, f) == target
  }

  lemma NextIs(q: seq<Byte>, i: nat, k: nat)
    requires i <= k <= |q| && (k < |q| ==> IsSeparator(q[k]))
    requires forall j :: i <= j < k ==> !IsSeparator(q[j])
    ensures NextSeparator(q, i) == k
    decreases k - i
  {
    if i < k {
      NextIs(q, i + 1, k);
    }
  }

  lemma EqualsIs(s: seq<Byte>, i: nat, e: nat)
    requires i <= e <= |s| && (e < |s| ==> s[e] == EQUALS)
    requires forall j :: i <= j < e ==> s[j] != EQUALS
    ensures FirstEquals(s, i) == e
    decreases e - i
  {
    if i < e {
      EqualsIs(s, i + 1, e);
    }
  }

  // The segment that ends at `ptr` is assigned, and the segments after it remain.
  lemma ReadSegment(q: seq<Byte>, name: nat, ptr: nat, equal: int, f: Form, target: Form)
    requires Standing(q, Reading, name, ptr, equal, f, target)
    requires ptr < |q| ==> IsSeparator(q[ptr])
    ensures
      var g := if equal < 0 then Assign(f, q[name..ptr], []) else Assign(f, q[name..equal], q[equal + 1..ptr]);
      target == if ptr == |q| then g else Segments(q[ptr + 1..], g)
  {
    hide Assign, IsBlank, IsSeparator;
    var rest, seg := q[name..], q[name..ptr];
    NextIs(rest, 0, ptr - name);
    assert rest[..ptr - name] == seg;
    EqualsIs(seg, 0, if equal < 0 then |seg| else equal - name);
    if equal >= 0 {
      assert seg[..equal - name] == q[name..equal] && seg[equal - name + 1..] == q[equal + 1..ptr];
    }
    if ptr < |q| {
      assert rest[ptr - name + 1..] == q[ptr + 1..];
    }
  }

  lemma ReadLeading(q: seq<Byte>, ptr: nat, equal: int, f: Form, target: Form)
    requires Standing(q, Leading, 0, ptr, equal, f, target)
    requires ptr < |q| ==> IsSeparator(q[ptr])
    ensures
      var g := if equal < 0 then Assign(f, q[if IsSeparator(q[1]) then 2 else 1..ptr], [])
               else Assign(f, q[..equal], q[equal + 1..ptr]);
      target == if ptr == |q| then g else Segments(q[ptr + 1..], g)
  {
    hide Assign, IsSeparator;
    NextIs(q, 2, ptr);
    var first := q[..ptr];
    EqualsIs(first, 2, if equal < 0 then ptr else equal);
  }

  function ModeAt(q: seq<Byte>, name: nat): Mode
  {
    if name > |q| || IsBlank(q[name..]) then Stuck else Reading
  }

  // A new segment starts after the separator at `ptr`, or the query is at its end.
  lemma StartSegment(q: seq<Byte>, ptr: nat, f: Form, target: Form)
    requires ptr <= |q| && (ptr < |q| ==> IsSeparator(q[ptr]))
    requires target == if ptr == |q| then f else Segments(q[ptr + 1..], f)
    ensures if ptr == |q| then f == target
            else Standing(q, ModeAt(q, ptr + 1), ptr + 1, ptr + 1, -1, f, target)
  {}

  method ParseQueryString(q: seq<Byte>, f0: Form) returns (f: Form)
    ensures f == Parse(q, f0)
  {
    hide Segments, AfterSemicolon, Assign;
    f := f0;
    var ptr, name, equal := 0, 0, -1;
    ghost var target := Parse(q, f0);
    ghost var mode := if q != [] && q[0] == SEMICOLON then Semicolon else ModeAt(q, 0);
    SegmentsOfBlank(q, f0);
    while ptr <= |q|
      invariant if ptr <= |q| then Standing(q, mode, name, ptr, equal, f, target) else f == target
      decreases |q| + 1 - ptr
    {
      var c := if ptr < |q| then q[ptr] else NUL;
      if c == EQUALS {
        if equal < 0 {
          equal := ptr;
        }
      } else if (c == NUL && ptr == |q|) || IsSeparator(c) {
        var first := if name < |q| then q[name] else NUL;
        if first == NUL || first == AMPERSAND {
          ptr := ptr + 1;
        } else if equal < 0 {
          if ptr == 0 {
            LoneSemicolon(q, f);
            ptr, mode := ptr + 1, Leading;
          } else {
            ghost var was := name;
            name := BackUp(q, ptr);
            if mode == Reading {
              ReadSegment(q, was, ptr, equal, f, target);
            } else {
              ReadLeading(q, ptr, equal, f, target);
            }
            f := Assign(f, q[name..ptr], []);
            StartSegment(q, ptr, f, target);
            name, equal, mode := ptr + 1, -1, ModeAt(q, ptr + 1);
          }
        } else {
          if mode == Reading {
            ReadSegment(q, name, ptr, equal, f, target);
          } else {
            ReadLeading(q, ptr, equal, f, target);
          }
          f := Assign(f, q[name..equal], q[equal + 1..ptr]);
          StartSegment(q, ptr, f, target);
          name, equal, mode := ptr + 1, -1, ModeAt(q, ptr + 1);
        }
      }
      ptr := ptr + 1;
    }
  }

  lemma SegmentsOfBlank(q: seq<Byte>, f: Form)
    ensures IsBlank(q) ==> Segments(q, f) == f
  {}

  lemma LoneSemicolon(q: seq<Byte>, f: Form)
    ensures |q| == 1 && q[0] == SEMICOLON ==> AfterSemicolon(q, f) == f
  {}

  /// What is written can be read
  /// ---------------------------

  datatype Pair = Pair(key: seq<Byte>, value: seq<Byte>)

  // Keys and values are C strings, and keys are not empty.
  ghost predicate Writable(pairs: seq<Pair>)
  {
    forall p <- pairs :: NUL !in p.key && NUL !in p.value && p.key != []
  }

  // http_encode.
  function HttpEncode(s: seq<Byte>): seq<Byte>
  {
    Encode(s, IsAlphanumeric)
  }

  function PairText(p: Pair): seq<Byte>
  {
    HttpEncode(p.key) + ([EQUALS] + HttpEncode(p.value))
  }

  function QueryText(pairs: seq<Pair>): seq<Byte>
  {
    if pairs == [] then []
    else PairText(pairs[0]) + if |pairs| == 1 then [] else [AMPERSAND] + QueryText(pairs[1..])
  }

  /** A value is appended to the variable; a key without value is kept as it was written. */
  function Add(f: Form, p: Pair): Form
  {
    if p.value == [] then f.(empties := f.empties + {HttpEncode(p.key)})
    else f.(vars := f.vars[p.key := if p.key in f.vars then f.vars[p.key] + ([NUL] + p.value) else p.value])
  }

  function AddAll(f: Form, pairs: seq<Pair>): Form
    decreases |pairs|
  {
    if pairs == [] then f else AddAll(Add(f, pairs[0]), pairs[1..])
  }

  predicate IsPlain(c: Byte)
  {
    IsAlphanumeric(c) || c == PERCENT
  }

  lemma {:induction false} EncodedIsPlain(s: seq<Byte>)
    requires NUL !in s
    ensures forall c <- HttpEncode(s) :: IsPlain(c)
    ensures s != [] ==> HttpEncode(s) != []
    ensures s == [] ==> HttpEncode(s) == []
    ensures UrlDecode(HttpEncode(s), 0) == s
  {
    EncodeIsEncodeAll(s, IsAlphanumeric);
    EncodeAllPlain(s);
    DecodeEncodeAll(s, IsAlphanumeric, 0);
  }

  lemma {:induction false} EncodeAllPlain(s: seq<Byte>)
    ensures forall c <- EncodeAll(s, IsAlphanumeric) :: IsPlain(c)
    ensures |EncodeAll(s, IsAlphanumeric)| >= |s|
  {
    if s != [] {
      EncodeAllPlain(s[1..]);
      assert forall c <- EncodeByte(s[0], IsAlphanumeric) :: IsPlain(c);
    }
  }

  lemma PairAssigned(p: Pair, f: Form)
    requires NUL !in p.key && NUL !in p.value && p.key != []
    ensures AssignSegment(f, PairText(p)) == Add(f, p)
    ensures forall c <- PairText(p) :: !IsSeparator(c)
    ensures !IsBlank(PairText(p)) && PairText(p)[0] != SEMICOLON
  {
    hide Encode, UrlDecode;
    EncodedIsPlain(p.key);
    EncodedIsPlain(p.value);
    var k, v, t := HttpEncode(p.key), HttpEncode(p.value), PairText(p);
    assert t[..|k|] == k && t[|k|] == EQUALS && t[|k| + 1..] == v;
    forall j | 0 <= j < |k| ensures t[j] != EQUALS {
      assert t[j] == k[j] && IsPlain(k[j]);
    }
    EqualsIs(t, 0, |k|);
    assert t[0] == k[0] && IsPlain(k[0]);
  }

  lemma FirstSegment(t: seq<Byte>, tail: seq<Byte>, f: Form)
    requires !IsBlank(t) && forall c <- t :: !IsSeparator(c)
    requires tail != [] ==> IsSeparator(tail[0])
    ensures Segments(t + tail, f)
         == if tail == [] then AssignSegment(f, t) else Segments(tail[1..], AssignSegment(f, t))
  {
    hide AssignSegment, IsSeparator;
    var q := t + tail;
    forall j | 0 <= j < |t| ensures !IsSeparator(q[j]) {
      assert q[j] == t[j];
    }
    NextIs(q, 0, |t|);
    assert q[..|t|] == t && q[0] == t[0];
    assert tail != [] ==> q[|t| + 1..] == tail[1..];
  }

  lemma {:induction false} SegmentsOfText(pairs: seq<Pair>, f: Form)
    requires Writable(pairs)
    ensures Segments(QueryText(pairs), f) == AddAll(f, pairs)
    ensures pairs != [] ==> QueryText(pairs)[0] != SEMICOLON
    decreases |pairs|
  {
    if pairs != [] {
      hide PairText, AssignSegment, Add, IsBlank, IsSeparator;
      var p, tail := pairs[0], if |pairs| == 1 then [] else [AMPERSAND] + QueryText(pairs[1..]);
      assert p in pairs;
      PairAssigned(p, f);
      assert IsSeparator(AMPERSAND) by { AmpersandSeparates(); }
      FirstSegment(PairText(p), tail, f);
      SegmentsOfText(pairs[1..], Add(f, p));
      assert |pairs| > 1 ==> tail[1..] == QueryText(pairs[1..]);
    }
  }

  lemma AmpersandSeparates()
    ensures IsSeparator(AMPERSAND)
  {}

  /** Parsing the written query adds every pair in order to what was there. */
  lemma QueryRoundTrip(pairs: seq<Pair>, f: Form)
    requires Writable(pairs)
    ensures Parse(QueryText(pairs), f) == AddAll(f, pairs)
  {
    SegmentsOfText(pairs, f);
  }

  /// The form that a list of pairs makes
  /// -----------------------------------

  function ValuesOf(pairs: seq<Pair>, key: seq<Byte>): seq<seq<Byte>>
  {
    if pairs == [] then []
    else (if pairs[0].key == key && pairs[0].value != [] then [pairs[0].value] else []) + ValuesOf(pairs[1..], key)
  }

  function JoinNul(values: seq<seq<Byte>>): seq<Byte>
    requires values != []
  {
    if |values| == 1 then values[0] else values[0] + ([NUL] + JoinNul(values[1..]))
  }

  lemma {:induction false} AddedValues(pairs: seq<Pair>, f: Form, key: seq<Byte>)
    ensures var values := ValuesOf(pairs, key);
      && (key in AddAll(f, pairs).vars <==> key in f.vars || values != [])
      && (key in f.vars && values != [] ==> AddAll(f, pairs).vars[key] == f.vars[key] + ([NUL] + JoinNul(values)))
      && (key in f.vars && values == [] ==> AddAll(f, pairs).vars[key] == f.vars[key])
      && (key !in f.vars && values != [] ==> AddAll(f, pairs).vars[key] == JoinNul(values))
  {
    if pairs != [] {
      hide HttpEncode;
      var p, g, rest := pairs[0], Add(f, pairs[0]), ValuesOf(pairs[1..], key);
      AddedValues(pairs[1..], g, key);
      if p.key == key && p.value != [] {
        assert ValuesOf(pairs, key) == [p.value] + rest && ([p.value] + rest)[1..] == rest;
        if key in f.vars && rest != [] {
          ConcatAssoc(f.vars[key], [NUL] + p.value, [NUL] + JoinNul(rest));
          ConcatAssoc([NUL], p.value, [NUL] + JoinNul(rest));
        }
      } else {
        assert ValuesOf(pairs, key) == rest;
      }
    }
  }

  lemma {:induction false} AddedEmpties(pairs: seq<Pair>, f: Form)
    ensures AddAll(f, pairs).empties == f.empties + set p <- pairs | p.value == [] :: HttpEncode(p.key)
  {
    if pairs != [] {
      hide HttpEncode;
      AddedEmpties(pairs[1..], Add(f, pairs[0]));
      assert pairs == [pairs[0]] + pairs[1..];
    }
  }

  /** From nothing, each key with a nonempty value gets its nonempty values joined by NUL in order,
      and each empty value leaves its encoded key in the set. */
  lemma FormOfPairs(pairs: seq<Pair>)
    requires Writable(pairs)
    ensures var form := Parse(QueryText(pairs), Form(map[], {}));
      && (forall key :: key in form.vars <==> ValuesOf(pairs, key) != [])
      && (forall key :: key in form.vars ==> form.vars[key] == JoinNul(ValuesOf(pairs, key)))
      && form.empties == set p <- pairs | p.value == [] :: HttpEncode(p.key)
  {
    hide HttpEncode;
    var none := Form(map[], {});
    QueryRoundTrip(pairs, none);
    AddedEmpties(pairs, none);
    forall key
      ensures key in AddAll(none, pairs).vars <==> ValuesOf(pairs, key) != []
      ensures key in AddAll(none, pairs).vars ==> AddAll(none, pairs).vars[key] == JoinNul(ValuesOf(pairs, key))
    {
      AddedValues(pairs, none, key);
    }
  }

  /// Blank segments
  /// --------------

  /** After an empty segment that an `&` ends, or where a segment begins with a NUL, everything is dropped. */
  lemma BlankDropsRest(q: seq<Byte>, c: Byte, rest: seq<Byte>, f: Form)
    requires q == [] || q[|q| - 1] == AMPERSAND || q[|q| - 1] == SEMICOLON
    requires q != [] ==> q[0] != SEMICOLON
    requires c == AMPERSAND || c == NUL
    ensures Parse(q + [c] + rest, f) == Parse(q, f)
  {
    assert q + [c] + rest == q + ([c] + rest);
    BlankTail(q, [c] + rest, f);
    assert (q + ([c] + rest))[0] == if q == [] then c else q[0];
  }

  lemma {:induction false} BlankTail(q: seq<Byte>, tail: seq<Byte>, f: Form)
    requires (q == [] || IsSeparator(q[|q| - 1])) && IsBlank(tail)
    ensures Segments(q + tail, f) == Segments(q, f)
    decreases |q|
  {
    var all := q + tail;
    if q == [] {
      assert all == tail;
    } else if !IsBlank(q) {
      hide AssignSegment;
      var k := NextSeparator(q, 0);
      NextIs(all, 0, k);
      assert all[..k] == q[..k] && all[k + 1..] == q[k + 1..] + tail && all[0] == q[0];
      BlankTail(q[k + 1..], tail, AssignSegment(f, q[..k]));
    } else {
      assert all[0] == q[0];
    }
  }
}
