/** What the incremental HTTP request parser computes. */
module ParseHttp {
  import opened Bytes

  const OK := 1
  const MORE_DATA := 0
  const BAD_REQUEST := 400
  const TOO_LARGE := 413

  type Bytestring = seq<Byte>
  type Other = map<string, Bytestring>
  type Headers = map<Bytestring, Bytestring>

  /// The end of the headers
  /// ----------------------

  function Counted(n: nat, c: Byte): nat
  {
    if c == LF then n + 1 else if c == CR then n else 0
  }

  // `n` line feeds with only returns between them end at `i`; the first place where it is two, or -1.
  function ScanFrom(d: Bytestring, i: nat, n: nat): (e: int)
    requires i <= |d| && n <= 2
    ensures e == -1 || i <= e <= |d|
    decreases |d| - i
  {
    if n == 2 then i
    else if i == |d| then -1
    else ScanFrom(d, i + 1, Counted(n, d[i]))
  }

  // An append looks back three bytes for the start of the end of the headers.
  function LookBack(received: nat): nat
  {
    if received < 3 then 0 else received - 3
  }

  // The two line feeds of the end of the headers are at `a` and just before `e`.
  predicate IsEndFrom(d: Bytestring, a: nat, e: nat)
  {
    a + 1 < e <= |d| && d[a] == LF && d[e - 1] == LF && forall k :: a < k < e - 1 ==> d[k] == CR
  }

  /** The headers end at `e`: a line feed, any number of returns, and a line feed. */
  ghost predicate IsEnd(d: Bytestring, e: nat)
  {
    exists a :: IsEndFrom(d, a, e)
  }

  ghost predicate IsFirstEnd(d: Bytestring, e: nat)
  {
    IsEnd(d, e) && forall k: nat :: k < e ==> !IsEnd(d, k)
  }

  // The line feed that ends before `i` and the returns after it.
  ghost predicate OneLineFeed(d: Bytestring, lo: nat, a: nat, i: nat)
  {
    lo <= a < i <= |d| && d[a] == LF && forall k :: a < k < i ==> d[k] == CR
  }

  // What the scan knows at `i` with count `n`.
  ghost predicate ScanState(d: Bytestring, lo: nat, i: nat, n: nat)
    requires lo <= i <= |d|
  {
    if n == 0 then forall a: nat :: !OneLineFeed(d, lo, a, i)
    else n == 1 && exists a: nat :: OneLineFeed(d, lo, a, i)
  }

  // No end of the headers lies between `lo` and `hi`.
  ghost predicate NoEnd(d: Bytestring, lo: nat, hi: nat)
  {
    forall a: nat, e: nat :: lo <= a && e <= hi ==> !IsEndFrom(d, a, e)
  }

  lemma ScanStep(d: Bytestring, lo: nat, i: nat, n: nat)
    requires lo <= i < |d| && n <= 1 && ScanState(d, lo, i, n)
    ensures Counted(n, d[i]) <= 1 ==> ScanState(d, lo, i + 1, Counted(n, d[i]))
    ensures Counted(n, d[i]) == 2 ==> exists a :: OneLineFeed(d, lo, a, i)
    ensures Counted(n, d[i]) <= 1 && NoEnd(d, lo, i) ==> NoEnd(d, lo, i + 1)
  {
    if d[i] == LF {
      assert OneLineFeed(d, lo, i, i + 1);
    } else if d[i] == CR && n == 1 {
      var a :| OneLineFeed(d, lo, a, i);
      assert OneLineFeed(d, lo, a, i + 1);
    }
    var j := i + 1;
    forall a: nat | OneLineFeed(d, lo, a, j)
      ensures (a == i && d[i] == LF) || (d[i] == CR && OneLineFeed(d, lo, a, i))
    {
      if a < i {
        assert d[i] == CR;
      }
    }
    forall a: nat, e: nat | lo <= a && e <= i + 1 && IsEndFrom(d, a, e)
      ensures e <= i || (d[i] == LF && OneLineFeed(d, lo, a, i))
    {
      if e == i + 1 {
        assert d[e - 1] == LF;
      }
    }
  }

  /** The scan from `lo` finds the first end of the headers that starts there or later. */
  lemma {:induction false} ScanFinds(d: Bytestring, lo: nat, i: nat, n: nat)
    requires lo <= i <= |d| && n <= 1 && ScanState(d, lo, i, n) && NoEnd(d, lo, i)
    ensures var e := ScanFrom(d, i, n);
      && (e < 0 ==> NoEnd(d, lo, |d|))
      && (e >= 0 ==> e > 0 && NoEnd(d, lo, e - 1) && exists a: nat :: lo <= a && IsEndFrom(d, a, e))
    decreases |d| - i
  {
    if i < |d| {
      ScanStep(d, lo, i, n);
      if Counted(n, d[i]) == 2 {
        var a :| OneLineFeed(d, lo, a, i);
        assert IsEndFrom(d, a, i + 1);
      } else {
        hide ScanState, NoEnd;
        ScanFinds(d, lo, i + 1, Counted(n, d[i]));
      }
    }
  }

  /** A scan of all of `d` finds the first end of the headers. */
  lemma ScanAll(d: Bytestring)
    ensures var e := ScanFrom(d, 0, 0);
      && (e < 0 ==> NoEnd(d, 0, |d|))
      && (e >= 0 ==> e > 0 && NoEnd(d, 0, e - 1) && exists a: nat :: IsEndFrom(d, a, e))
  {
    ScanFinds(d, 0, 0, 0);
  }

  /// Delivery in pieces
  /// ------------------

  datatype Delivery = Waiting(data: Bytestring) | Complete(data: Bytestring, end: nat) | Refused

  /** Appends `chunks` to `data` until the headers are complete. With `lookBack` each append scans
      from three bytes before its chunk, as the parser does; without it, everything received so far. */
  function Deliver(capacity: nat, data: Bytestring, chunks: seq<Bytestring>, lookBack: bool): Delivery
    decreases |chunks|
  {
    if chunks == [] then Waiting(data)
    else if |chunks[0]| >= capacity - |data| then Refused
    else
      var d := data + chunks[0];
      var e := ScanFrom(d, if lookBack then LookBack(|data|) else 0, 0);
      if e < 0 then Deliver(capacity, d, chunks[1..], lookBack) else Complete(d, e)
  }

  function Concat(chunks: seq<Bytestring>): Bytestring
  {
    if chunks == [] then [] else chunks[0] + Concat(chunks[1..])
  }

  // Two returns at most are between the line feeds of the end at `e`.
  ghost predicate IsClose(d: Bytestring, e: nat)
  {
    exists a: nat :: IsEndFrom(d, a, e) && e - a <= 4
  }

  lemma EndIsUnique(d: Bytestring, a: nat, b: nat, e: nat)
    requires IsEndFrom(d, a, e) && IsEndFrom(d, b, e)
    ensures a == b
  {
    assert d[a] == LF && d[b] == LF;
  }

  // An append whose scan starts at `lo` finds the first end if its first line feed is not before `lo`.
  lemma LookBackFinds(d: Bytestring, received: nat)
    requires received <= |d| && NoEnd(d, 0, received)
    requires var e := ScanFrom(d, 0, 0); e >= 0 ==> IsClose(d, e)
    ensures ScanFrom(d, LookBack(received), 0) == ScanFrom(d, 0, 0)
  {
    var lo := LookBack(received);
    ScanAll(d);
    ScanFinds(d, lo, lo, 0);
    var e, f := ScanFrom(d, 0, 0), ScanFrom(d, lo, 0);
    if e >= 0 {
      var a: nat :| IsEndFrom(d, a, e) && e - a <= 4;
      assert e > received;
      assert IsEndFrom(d, a, e) && lo <= a;
    }
    if f >= 0 {
      var b: nat :| lo <= b && IsEndFrom(d, b, f);
    }
  }

  // More bytes at the end do not change a first end that is already there.
  lemma {:induction false} ScanPrefix(d: Bytestring, m: nat, i: nat, n: nat)
    requires i <= m <= |d| && n <= 2
    ensures ScanFrom(d[..m], i, n) == if 0 <= ScanFrom(d, i, n) <= m then ScanFrom(d, i, n) else -1
    decreases m - i
  {
    if i < m && n < 2 {
      ScanPrefix(d, m, i + 1, Counted(n, d[i]));
    } else if i == m && n < 2 {
      ScanIsLate(d, i, n);
    }
  }

  lemma ScanIsLate(d: Bytestring, i: nat, n: nat)
    requires i <= |d| && n < 2
    ensures ScanFrom(d, i, n) < 0 || ScanFrom(d, i, n) > i
  {}

  // One more chunk: nothing ends in what was received, and what ends after it is as close as in all of `d`.
  lemma NextChunk(data: Bytestring, chunk: Bytestring, d: Bytestring)
    requires data + chunk <= d && ScanFrom(data, 0, 0) < 0
    requires var e := ScanFrom(d, 0, 0); e >= 0 ==> IsClose(d, e)
    ensures ScanFrom(data + chunk, LookBack(|data|), 0) == ScanFrom(data + chunk, 0, 0)
  {
    var next := data + chunk;
    assert next == d[..|next|];
    ScanPrefix(d, |next|, 0, 0);
    var e := ScanFrom(next, 0, 0);
    if e >= 0 {
      var a: nat :| IsEndFrom(d, a, e) && e - a <= 4;
      assert IsEndFrom(next, a, e);
    }
    ScanAll(data);
    forall a: nat, k: nat | k <= |data| && IsEndFrom(next, a, k) ensures IsEndFrom(data, a, k) {
      forall j | a < j < k - 1 ensures data[j] == CR {
        assert data[j] == next[j];
      }
    }
    assert NoEnd(next, 0, |data|);
    LookBackFinds(next, |data|);
  }

  lemma {:induction false} DeliverySame(capacity: nat, data: Bytestring, chunks: seq<Bytestring>, d: Bytestring)
    requires d == data + Concat(chunks)
    requires ScanFrom(data, 0, 0) < 0
    requires var e := ScanFrom(d, 0, 0); e >= 0 ==> IsClose(d, e)
    ensures Deliver(capacity, data, chunks, true) == Deliver(capacity, data, chunks, false)
    decreases |chunks|
  {
    hide IsClose, ScanFrom;
    if chunks != [] {
      var next := data + chunks[0];
      assert next + Concat(chunks[1..]) == d;
      NextChunk(data, chunks[0], d);
      if ScanFrom(next, 0, 0) < 0 {
        DeliverySame(capacity, next, chunks[1..], d);
      }
    }
  }

  /** However the bytes `d` are cut into pieces that fit the buffer, the parser waits until the end
      of the headers has arrived and then finds it as a fresh parser would in one append. */
  ghost predicate AnyCutWorks(d: Bytestring)
  {
    forall capacity: nat, chunks :: |d| < capacity && Concat(chunks) == d ==>
      Deliver(capacity, [], chunks, true) == Deliver(capacity, [], chunks, false)
  }

  /** Any cut works exactly when at most two returns are between the line feeds of the first end. */
  lemma ChunkIndependence(d: Bytestring)
    ensures AnyCutWorks(d) <==> forall e: nat :: IsFirstEnd(d, e) ==> IsClose(d, e)
  {
    ScanAll(d);
    var e := ScanFrom(d, 0, 0);
    FirstEndIsScan(d);
    if e < 0 || IsClose(d, e) {
      forall capacity: nat, chunks | |d| < capacity && Concat(chunks) == d
        ensures Deliver(capacity, [], chunks, true) == Deliver(capacity, [], chunks, false)
      {
        assert [] + Concat(chunks) == d;
        DeliverySame(capacity, [], chunks, d);
      }
    } else {
      BadCut(d, e);
    }
  }

  lemma FirstEndIsScan(d: Bytestring)
    ensures forall e: nat :: IsFirstEnd(d, e) <==> e == ScanFrom(d, 0, 0)
    ensures (exists e: nat :: IsFirstEnd(d, e)) <==> ScanFrom(d, 0, 0) >= 0
  {
    ScanAll(d);
    var s := ScanFrom(d, 0, 0);
    forall e: nat ensures IsFirstEnd(d, e) <==> e == s {
      if IsFirstEnd(d, e) {
        var a: nat :| IsEndFrom(d, a, e);
        assert s >= 0 ==> IsEnd(d, s);
      }
      if e == s {
        forall k: nat, a: nat | k < e ensures !IsEndFrom(d, a, k) {}
      }
    }
    assert s >= 0 ==> IsFirstEnd(d, s);
  }

  lemma DeliverOne(capacity: nat, data: Bytestring, chunk: Bytestring, lookBack: bool)
    requires |data| + |chunk| < capacity
    ensures var e := ScanFrom(data + chunk, if lookBack then LookBack(|data|) else 0, 0);
      Deliver(capacity, data, [chunk], lookBack) == if e < 0 then Waiting(data + chunk) else Complete(data + chunk, e)
  {
    assert [chunk][1..] == [];
  }

  lemma DeliverTwo(capacity: nat, head: Bytestring, tail: Bytestring, lookBack: bool)
    requires |head| + |tail| < capacity && ScanFrom(head, 0, 0) < 0
    ensures Deliver(capacity, [], [head, tail], lookBack) == Deliver(capacity, head, [tail], lookBack)
    ensures Concat([head, tail]) == head + tail
  {
    var chunks := [head, tail];
    assert chunks[1..] == [tail] && [tail][1..] == [];
    assert [] + head == head;
    assert Concat([tail]) == tail + Concat([tail][1..]) == tail;
  }

  // Cut between three returns and the line feed after them.
  lemma BadCut(d: Bytestring, e: nat)
    requires ScanFrom(d, 0, 0) == e && !IsClose(d, e)
    ensures !AnyCutWorks(d)
  {
    hide Deliver, Concat;
    ScanAll(d);
    var a: nat :| IsEndFrom(d, a, e);
    var head, tail, capacity := d[..e - 1], d[e - 1..], |d| + 1;
    assert head + tail == d;
    ScanPrefix(d, e - 1, 0, 0);
    var lo := LookBack(|head|);
    ScanFinds(d, lo, lo, 0);
    forall b: nat | IsEndFrom(d, b, e) ensures b == a {
      EndIsUnique(d, a, b, e);
    }
    DeliverTwo(capacity, head, tail, false);
    DeliverTwo(capacity, head, tail, true);
    DeliverOne(capacity, head, tail, false);
    DeliverOne(capacity, head, tail, true);
    assert Concat([head, tail]) == d
        && Deliver(capacity, [], [head, tail], true) != Deliver(capacity, [], [head, tail], false);
  }

  /** A completed delivery is what one append of the bytes received so far gives a fresh parser. */
  lemma {:induction false} CompleteIsOneAppend(capacity: nat, data: Bytestring, chunks: seq<Bytestring>)
    requires |data| < capacity
    ensures var r := Deliver(capacity, data, chunks, false);
      r.Complete? ==> Deliver(capacity, [], [r.data], true) == r
    decreases |chunks|
  {
    if chunks != [] && |chunks[0]| < capacity - |data| {
      var d := data + chunks[0];
      assert [] + d == d;
      if ScanFrom(d, 0, 0) < 0 {
        CompleteIsOneAppend(capacity, d, chunks[1..]);
      }
    }
  }
}
