/** What the query parser reads of any list of segments. */
module QuerySegments {
  import opened Bytes
  import opened UrlCodec
  import opened QueryString

  // A segment has no separator, and does not begin with a NUL.
  ghost predicate IsSegment(t: seq<Byte>)
  {
    (forall c <- t :: !IsSeparator(c)) && (t != [] ==> t[0] != NUL)
  }

  ghost predicate AreSegments(segs: seq<seq<Byte>>)
  {
    forall t <- segs :: IsSegment(t)
  }

  function Join(segs: seq<seq<Byte>>): seq<Byte>
  {
    if segs == [] then []
    else segs[0] + if |segs| == 1 then [] else [AMPERSAND] + Join(segs[1..])
  }

  // What reading all of the segments would give; the empty ones mean nothing.
  function AssignAll(f: Form, segs: seq<seq<Byte>>): Form
    decreases |segs|
  {
    if segs == [] then f else AssignAll(if segs[0] == [] then f else AssignSegment(f, segs[0]), segs[1..])
  }

  function FirstEmpty(segs: seq<seq<Byte>>): (n: nat)
    ensures n <= |segs| && (n < |segs| ==> segs[n] == []) && forall i :: 0 <= i < n ==> segs[i] != []
  {
    if segs == [] || segs[0] == [] then 0 else 1 + FirstEmpty(segs[1..])
  }

  /// Segments joined by `&`
  /// ----------------------

  lemma RestAreSegments(segs: seq<seq<Byte>>)
    requires segs != [] && AreSegments(segs)
    ensures IsSegment(segs[0]) && AreSegments(segs[1..])
  {
    assert segs[0] in segs;
  }

  lemma SegmentStarts(t: seq<Byte>)
    requires IsSegment(t) && t != []
    ensures !IsBlank(t) && t[0] != SEMICOLON
  {
    assert t[0] in t;
  }

  lemma {:induction false} SegmentsOfList(segs: seq<seq<Byte>>, f: Form)
    requires AreSegments(segs)
    ensures Segments(Join(segs), f) == AssignAll(f, segs[..FirstEmpty(segs)])
    ensures Join(segs) != [] ==> Join(segs)[0] != SEMICOLON
    decreases |segs|
  {
    hide AssignSegment, IsSegment, AreSegments, IsBlank;
    if segs == [] {
      BlankStarts([]);
    } else {
      var t, tail := segs[0], if |segs| == 1 then [] else [AMPERSAND] + Join(segs[1..]);
      RestAreSegments(segs);
      if t == [] {
        assert Join(segs) == tail;
        BlankStarts(tail);
      } else {
        SegmentStarts(t);
        SegmentRead(t, tail, f);
        SegmentsOfList(segs[1..], AssignSegment(f, t));
        var front := segs[..FirstEmpty(segs)];
        assert front[0] == t && front[1..] == segs[1..][..FirstEmpty(segs[1..])];
        if |segs| == 1 {
          assert segs[1..] == [];
        } else {
          assert tail[1..] == Join(segs[1..]);
        }
      }
    }
  }

  lemma BlankStarts(q: seq<Byte>)
    ensures q == [] || q[0] == AMPERSAND ==> IsBlank(q)
  {}

  lemma SegmentRead(t: seq<Byte>, tail: seq<Byte>, f: Form)
    requires IsSegment(t) && t != [] && (tail != [] ==> IsSeparator(tail[0]))
    ensures Segments(t + tail, f)
         == if tail == [] then AssignSegment(f, t) else Segments(tail[1..], AssignSegment(f, t))
  {
    SegmentStarts(t);
    FirstSegment(t, tail, f);
  }

  /** Of segments joined by `&`, exactly those before the first empty one are read. */
  lemma ReadsToFirstEmpty(segs: seq<seq<Byte>>, f: Form)
    requires AreSegments(segs)
    ensures Parse(Join(segs), f) == AssignAll(f, segs[..FirstEmpty(segs)])
  {
    SegmentsOfList(segs, f);
  }

  /// When all segments are read
  /// --------------------------

  // No segment comes after an empty one.
  ghost predicate NoneAfterEmpty(segs: seq<seq<Byte>>)
  {
    forall i, j :: 0 <= i < j < |segs| && segs[i] == [] ==> segs[j] == []
  }

  lemma {:induction false} AssignConcat(f: Form, a: seq<seq<Byte>>, b: seq<seq<Byte>>)
    ensures AssignAll(f, a + b) == AssignAll(AssignAll(f, a), b)
    decreases |a|
  {
    hide AssignSegment;
    if a == [] {
      assert a + b == b;
    } else {
      assert (a + b)[1..] == a[1..] + b;
      AssignConcat(if a[0] == [] then f else AssignSegment(f, a[0]), a[1..], b);
    }
  }

  lemma {:induction false} AssignEmpties(f: Form, segs: seq<seq<Byte>>)
    requires forall i :: 0 <= i < |segs| ==> segs[i] == []
    ensures AssignAll(f, segs) == f
  {
    if segs != [] {
      AssignEmpties(f, segs[1..]);
    }
  }

  /** A list in which no segment comes after an empty one is read whole. */
  lemma ReadsWhole(segs: seq<seq<Byte>>, f: Form)
    requires AreSegments(segs) && NoneAfterEmpty(segs)
    ensures Parse(Join(segs), f) == AssignAll(f, segs)
  {
    hide AreSegments;
    var n := FirstEmpty(segs);
    ReadsToFirstEmpty(segs, f);
    assert segs == segs[..n] + segs[n..];
    AssignConcat(f, segs[..n], segs[n..]);
    AssignEmpties(AssignAll(f, segs[..n]), segs[n..]);
  }

  // A segment with a value.
  ghost predicate HasValue(t: seq<Byte>)
  {
    FirstEquals(t, 0) + 1 < |t|
  }

  function KeyOf(t: seq<Byte>): seq<Byte>
  {
    UrlDecode(t[..FirstEquals(t, 0)], 0)
  }

  // How much has been assigned to a variable.
  function Amount(f: Form, key: seq<Byte>): nat
  {
    if key in f.vars then 1 + |f.vars[key]| else 0
  }

  lemma SegmentAdds(f: Form, t: seq<Byte>, key: seq<Byte>)
    ensures Amount(AssignSegment(f, t), key) >= Amount(f, key)
    ensures HasValue(t) ==> Amount(AssignSegment(f, t), KeyOf(t)) > Amount(f, KeyOf(t))
  {
    hide UrlDecode;
  }

  lemma {:induction false} AssignAdds(f: Form, segs: seq<seq<Byte>>, key: seq<Byte>)
    ensures Amount(AssignAll(f, segs), key) >= Amount(f, key)
    decreases |segs|
  {
    hide AssignSegment, Amount;
    if segs != [] {
      var g := if segs[0] == [] then f else AssignSegment(f, segs[0]);
      SegmentAdds(f, segs[0], key);
      AssignAdds(g, segs[1..], key);
    }
  }

  lemma AssignGrows(f: Form, segs: seq<seq<Byte>>, j: nat)
    requires j < |segs| && segs[j] != [] && HasValue(segs[j])
    ensures AssignAll(f, segs) != f
  {
    hide AssignSegment, Amount, HasValue, KeyOf;
    var key := KeyOf(segs[j]);
    var front, rest := segs[..j], segs[j..];
    assert segs == front + rest && rest[0] == segs[j];
    AssignConcat(f, front, rest);
    AssignAdds(f, front, key);
    var g := AssignAll(f, front);
    SegmentAdds(g, segs[j], key);
    AssignAdds(AssignSegment(g, segs[j]), rest[1..], key);
  }

  // What a segment without a value puts into the set.
  function NameOf(t: seq<Byte>): seq<Byte>
  {
    t[..FirstEquals(t, 0)]
  }

  // An empty segment, or one without a value whose name is in the set already.
  ghost predicate AddsNothing(t: seq<Byte>, f: Form)
  {
    t == [] || (!HasValue(t) && NameOf(t) in f.empties)
  }

  lemma SegmentNames(f: Form, t: seq<Byte>)
    ensures f.empties <= AssignSegment(f, t).empties
    ensures !HasValue(t) ==> AssignSegment(f, t) == f.(empties := f.empties + {NameOf(t)})
  {
    hide UrlDecode;
    assert t[..|t|] == t && t[|t|..] == [];
  }

  lemma {:induction false} AssignNames(f: Form, segs: seq<seq<Byte>>)
    ensures f.empties <= AssignAll(f, segs).empties
    decreases |segs|
  {
    hide AssignSegment;
    if segs != [] {
      SegmentNames(f, segs[0]);
      AssignNames(if segs[0] == [] then f else AssignSegment(f, segs[0]), segs[1..]);
    }
  }

  lemma AssignNamesOne(f: Form, segs: seq<seq<Byte>>, j: nat)
    requires j < |segs| && segs[j] != [] && !HasValue(segs[j])
    ensures NameOf(segs[j]) in AssignAll(f, segs).empties
  {
    hide AssignSegment, HasValue, NameOf;
    var front, rest := segs[..j], segs[j..];
    assert segs == front + rest && rest[0] == segs[j];
    AssignConcat(f, front, rest);
    var g := AssignAll(f, front);
    SegmentNames(g, segs[j]);
    AssignNames(AssignSegment(g, segs[j]), rest[1..]);
  }

  lemma {:induction false} AssignNothing(f: Form, segs: seq<seq<Byte>>)
    requires forall i | 0 <= i < |segs| :: AddsNothing(segs[i], f)
    ensures AssignAll(f, segs) == f
    decreases |segs|
  {
    hide AssignSegment, HasValue, NameOf;
    if segs != [] {
      assert AddsNothing(segs[0], f);
      SegmentNames(f, segs[0]);
      assert segs[0] != [] ==> f.empties + {NameOf(segs[0])} == f.empties;
      AssignNothing(f, segs[1..]);
    }
  }

  lemma AssignNothingExactly(f: Form, segs: seq<seq<Byte>>)
    ensures AssignAll(f, segs) == f <==> forall i | 0 <= i < |segs| :: AddsNothing(segs[i], f)
  {
    hide AssignAll, HasValue, NameOf;
    if forall i | 0 <= i < |segs| :: AddsNothing(segs[i], f) {
      AssignNothing(f, segs);
    } else {
      var j :| 0 <= j < |segs| && !AddsNothing(segs[j], f);
      if HasValue(segs[j]) {
        AssignGrows(f, segs, j);
      } else {
        AssignNamesOne(f, segs, j);
      }
    }
  }

  /** A list is read whole if and only if each segment from the first empty one on is empty, or has no value and
      a name that is in the set already. */
  lemma ReadsWholeExactly(segs: seq<seq<Byte>>, f: Form)
    requires AreSegments(segs)
    ensures var n := FirstEmpty(segs);
      var g := AssignAll(f, segs[..n]);
      Parse(Join(segs), f) == AssignAll(f, segs) <==> forall j | n <= j < |segs| :: AddsNothing(segs[j], g)
  {
    hide AreSegments, AssignAll, Parse, Join, AddsNothing;
    var n := FirstEmpty(segs);
    var front, rest := segs[..n], segs[n..];
    var g := AssignAll(f, front);
    ReadsToFirstEmpty(segs, f);
    assert segs == front + rest;
    AssignConcat(f, front, rest);
    AssignNothingExactly(g, rest);
    assert forall i :: 0 <= i < |rest| ==> rest[i] == segs[n + i];
    assert forall j :: n <= j < |segs| ==> segs[j] == rest[j - n];
  }

  /** If every segment that is not empty has a value, this is that none comes after an empty one. */
  lemma ValuesReadWhole(segs: seq<seq<Byte>>, f: Form)
    requires AreSegments(segs) && forall t <- segs :: t == [] || HasValue(t)
    ensures Parse(Join(segs), f) == AssignAll(f, segs) <==> NoneAfterEmpty(segs)
  {
    hide AreSegments, AssignAll, Parse, Join, HasValue;
    ReadsWholeExactly(segs, f);
    var n := FirstEmpty(segs);
    var g := AssignAll(f, segs[..n]);
    forall j | n <= j < |segs| ensures AddsNothing(segs[j], g) <==> segs[j] == [] {
      assert segs[j] in segs;
    }
  }

  // a=1&&b=2
  lemma SecondIsDropped()
    ensures Parse([97, EQUALS, 49, AMPERSAND, AMPERSAND, 98, EQUALS, 50], Form(map[], {}))
         == Form(map[[97] := [49]], {})
  {
    var a, b: seq<Byte> := [97, EQUALS, 49], [98, EQUALS, 50];
    var segs: seq<seq<Byte>> := [a, [], b];
    var f := Form(map[], {});
    assert segs[1..] == [[], b] && segs[1..][1..] == [b];
    assert Join([b]) == b && Join(segs[1..]) == [AMPERSAND] + b && Join(segs) == a + ([AMPERSAND] + ([AMPERSAND] + b));
    assert Join(segs) == [97, EQUALS, 49, AMPERSAND, AMPERSAND, 98, EQUALS, 50];
    ReadsToFirstEmpty(segs, f);
    assert |segs[..1]| == 1 && segs[..1][0] == a;
    EqualsIs(a, 0, 1);
    assert a[..1] == [97] && a[2..] == [49];
    DecodeOne(97);
    DecodeOne(49);
  }

  lemma DecodeOne(c: Byte)
    requires c != PERCENT && c != PLUS
    ensures UrlDecode([c], 0) == [c]
  {
    assert Drop([c], 1) == [];
  }

  /// Semicolons
  /// ----------

  /** An empty segment that a `;` ends does not end the parsing: it puts an empty name into the set. */
  lemma SemicolonNamesNothing(t: seq<Byte>, rest: seq<Byte>, f: Form)
    requires IsSegment(t) && t != []
    ensures Parse(t + ([AMPERSAND] + ([SEMICOLON] + rest)), f)
      == var g := AssignSegment(f, t); Segments(rest, g.(empties := g.empties + {[]}))
  {
    var tail := [SEMICOLON] + rest;
    SegmentStarts(t);
    SegmentRead(t, [AMPERSAND] + tail, f);
    assert ([AMPERSAND] + tail)[1..] == tail;
    assert (t + ([AMPERSAND] + tail))[0] == t[0];
    EmptyBeforeSemicolon(rest, AssignSegment(f, t));
  }

  lemma EmptyBeforeSemicolon(rest: seq<Byte>, f: Form)
    ensures Segments([SEMICOLON] + rest, f) == Segments(rest, f.(empties := f.empties + {[]}))
  {
    var q := [SEMICOLON] + rest;
    NextIs(q, 0, 0);
    assert q[..0] == [] && q[1..] == rest;
    assert FirstEquals([], 0) == 0;
  }

  /** After a leading `;` a segment is read as it would be alone if and only if it has no equals sign. */
  lemma LeadingSemicolon(t: seq<Byte>)
    requires IsSegment(t) && t != []
    ensures (forall f :: Parse([SEMICOLON] + t, f) == Parse(t, f)) <==> EQUALS !in t
  {
    var none := Form(map[], {});
    if EQUALS !in t {
      forall f ensures Parse([SEMICOLON] + t, f) == Parse(t, f) {
        WithoutEquals(t, f);
      }
    } else {
      WithEquals(t);
      assert Parse([SEMICOLON] + t, none) != Parse(t, none);
    }
  }

  /** After a leading `;` and another separator, a segment is read as it would be alone if it has no equals sign; if it
      has one, both separators count as part of the name. */
  lemma TwoSeparators(c: Byte, t: seq<Byte>, f: Form)
    requires IsSeparator(c) && EQUALS !in t && forall b <- t :: !IsSeparator(b)
    ensures Parse([SEMICOLON, c] + t, f) == f.(empties := f.empties + {t})
    ensures Parse([SEMICOLON, c] + t + [EQUALS], f) == f.(empties := f.empties + {[SEMICOLON, c] + t})
  {
    var q, n := [SEMICOLON, c] + t, |t| + 2;
    var p := q + [EQUALS];
    forall j | 2 <= j < n ensures !IsSeparator(q[j]) && q[j] != EQUALS && p[j] == q[j] {
      assert q[j] == t[j - 2] && t[j - 2] in t;
    }
    assert NextSeparator(q, 2) == n && q[..n] == q && FirstEquals(q, 2) == n;
    assert p[n] == EQUALS;
    assert NextSeparator(p, 2) == n + 1 && p[..n + 1] == p && FirstEquals(p, 2) == n;
    assert q[2..n] == t && p[..n] == q && p[n + 1..n + 1] == [];
  }

  // A lone segment, and the same after a semicolon.
  lemma AloneAndAfter(t: seq<Byte>, f: Form)
    requires IsSegment(t) && t != []
    ensures Parse(t, f) == AssignSegment(f, t)
    ensures var q := [SEMICOLON] + t; var e := FirstEquals(q, 2);
      Parse(q, f) == if e < |q| then Assign(f, q[..e], q[e + 1..]) else Assign(f, t, [])
  {
    hide Assign, UrlDecode;
    var q := [SEMICOLON] + t;
    SegmentStarts(t);
    SegmentRead(t, [], f);
    assert t + [] == t;
    assert !IsSeparator(t[0]) && q[1] == t[0] by {
      assert t[0] in t;
    }
    forall j | 2 <= j < |q| ensures !IsSeparator(q[j]) {
      assert q[j] == t[j - 1] && t[j - 1] in t;
    }
    NextIs(q, 2, |q|);
    assert q[..|q|] == q && q[1..] == t;
  }

  lemma WithoutEquals(t: seq<Byte>, f: Form)
    requires IsSegment(t) && t != [] && EQUALS !in t
    ensures Parse([SEMICOLON] + t, f) == Parse(t, f)
  {
    hide Parse, Assign;
    AloneAndAfter(t, f);
    var q := [SEMICOLON] + t;
    EqualsIs(t, 0, |t|);
    forall j | 2 <= j < |q| ensures q[j] != EQUALS {
      assert q[j] == t[j - 1] && t[j - 1] in t;
    }
    EqualsIs(q, 2, |q|);
  }

  // From nothing, the results have different variables or different empty ones.
  lemma WithEquals(t: seq<Byte>)
    requires IsSegment(t) && t != [] && EQUALS in t
    ensures Parse([SEMICOLON] + t, Form(map[], {})) != Parse(t, Form(map[], {}))
  {
    hide Parse, UrlDecode;
    var f, q := Form(map[], {}), [SEMICOLON] + t;
    AloneAndAfter(t, f);
    var e := FirstEquals(t, 0);
    assert e < |t|;
    if e == 0 {
      var e' := FirstEquals(q, 2);
      NamesDiffer(t, q, 0, e');
    } else {
      forall j | 2 <= j < e + 1 ensures q[j] != EQUALS {
        assert q[j] == t[j - 1];
      }
      EqualsIs(q, 2, e + 1);
      assert q[..e + 1] == [SEMICOLON] + t[..e] && q[e + 2..] == t[e + 1..];
      DecodeSemicolon(t[..e]);
      var a, b := Assign(f, [SEMICOLON] + t[..e], t[e + 1..]), Assign(f, t[..e], t[e + 1..]);
      if t[e + 1..] == [] {
        assert [SEMICOLON] + t[..e] in a.empties;
        assert |[SEMICOLON] + t[..e]| != |t[..e]|;
      } else {
        assert UrlDecode([SEMICOLON] + t[..e], 0) in a.vars;
        assert |UrlDecode([SEMICOLON] + t[..e], 0)| != |UrlDecode(t[..e], 0)|;
      }
    }
  }

  lemma DecodeSemicolon(name: seq<Byte>)
    ensures UrlDecode([SEMICOLON] + name, 0) == [SEMICOLON] + UrlDecode(name, 0)
  {
    assert Drop([SEMICOLON] + name, 1) == name;
  }

  // A segment that begins with its equals sign has the empty name alone, and never after a semicolon.
  lemma NamesDiffer(t: seq<Byte>, q: seq<Byte>, e: nat, e': nat)
    requires t != [] && t[0] == EQUALS && q == [SEMICOLON] + t && e == 0 && e' == FirstEquals(q, 2)
    ensures var f := Form(map[], {});
      AssignSegment(f, t) != if e' < |q| then Assign(f, q[..e'], q[e' + 1..]) else Assign(f, t, [])
  {
    hide UrlDecode;
    var f := Form(map[], {});
    EqualsIs(t, 0, 0);
    var alone := AssignSegment(f, t);
    assert t[..0] == [];
    if |t| == 1 {
      assert [] in alone.empties && alone.vars == map[];
    } else {
      assert t[1..] != [];
      DecodeNothingIsEmpty();
      assert [] in alone.vars && alone.empties == {};
    }
    if e' < |q| {
      assert q[0] == SEMICOLON && q[..e'] == [SEMICOLON] + q[1..e'];
      DecodeSemicolon(q[1..e']);
    }
  }

  lemma DecodeNothingIsEmpty()
    ensures UrlDecode([], 0) == []
  {}
}
