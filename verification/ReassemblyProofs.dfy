/** What the fragment store keeps and when it is right. */
module ReassemblyProofs {
  import opened Bytes
  import opened Options
  import opened Sequences
  import opened Reassembly

  ghost predicate Has(k: Bucket, p: nat) { k.offset <= p < k.End() }

  /** Byte position p is covered by some bucket. */
  ghost predicate Covers(b: seq<Bucket>, p: nat)
  {
    exists i :: 0 <= i < |b| && Has(b[i], p)
  }

  /** The bucket holds the bytes of body at its place. */
  ghost predicate Holds(k: Bucket, body: seq<byte>)
  {
    k.End() <= |body| && k.buf == body[k.offset..k.End()]
  }

  ghost predicate AllHold(b: seq<Bucket>, body: seq<byte>)
  {
    forall i :: 0 <= i < |b| ==> Holds(b[i], body)
  }

  /** The fragment lies strictly between two stored runs and touches neither. */
  predicate Gap(b: seq<Bucket>, off: nat, len: nat)
  {
    var i := PlaceIndex(b, off);
    0 < i < |b| && off + len < b[i].offset
  }

  /** The fragment starts before a stored run and ends inside it. */
  predicate LeftOverlap(b: seq<Bucket>, off: nat, len: nat)
  {
    var i := PlaceIndex(b, off);
    i < |b| && off < b[i].offset < off + len < b[i].End()
  }

  /** A left overlap whose surviving bytes differ from the bytes the merge puts in their place. */
  predicate Shifted(b: seq<Bucket>, off: nat, len: nat)
  {
    LeftOverlap(b, off, len) && ShiftShows(b[PlaceIndex(b, off)], off, off + len)
  }

  predicate ShiftShows(cur: Bucket, off: nat, end: nat)
  {
    off < cur.offset <= end < cur.End() && cur.buf[..cur.End() - end] != cur.buf[end - cur.offset..]
  }

  /** A fragment that only touches a run leaves its bytes in place. */
  lemma ShiftedIs(b: seq<Bucket>, off: nat, len: nat)
    requires PlaceIndex(b, off) < |b|
    ensures Shifted(b, off, len) <==> ShiftShows(b[PlaceIndex(b, off)], off, off + len)
  {
    var cur := b[PlaceIndex(b, off)];
    assert cur.offset == off + len ==> cur.buf[..|cur.buf|] == cur.buf[0..];
  }

  // ---------- shape: sorted, within the message, bytes counted ----------

  lemma CombinedRange(cur: Bucket, next: Option<Bucket>, off: nat, data: seq<byte>, junk: Junk)
    requires off <= cur.End()
    requires !(off >= cur.offset && off + |data| <= cur.End())
    requires next.Some? ==> cur.End() < next.value.offset && off + |data| < next.value.End()
    ensures
      var k := Combined(cur, next, off, data, junk);
      && k.offset == (if cur.offset < off then cur.offset else off)
      && k.End() == (if CombineNext(next, off + |data|) then next.value.End()
                     else if cur.End() > off + |data| then cur.End() else off + |data|)
  {
  }

  lemma SpliceSorted(b: seq<Bucket>, i: nat, n: nat, k: Bucket, sz: nat)
    requires Sorted(b) && Within(b, sz) && i <= n <= |b| && k.End() <= sz
    requires forall x :: 0 <= x < i ==> b[x].End() < k.offset
    requires n < |b| ==> k.End() < b[n].offset
    ensures Sorted(b[..i] + [k] + b[n..]) && Within(b[..i] + [k] + b[n..], sz)
  {
    assert forall x :: n < x < |b| ==> b[n].End() < b[x].offset;
  }

  lemma MergeSorted(b: seq<Bucket>, off: nat, data: seq<byte>, junk: Junk, sz: nat)
    requires Sorted(b) && Within(b, sz) && PlaceIndex(b, off) < |b| && !Contained(b, off, |data|)
    requires off + |data| <= sz
    ensures Sorted(Merge(b, off, data, junk)) && Within(Merge(b, off, data, junk), sz)
  {
    var i := PlaceIndex(b, off);
    var n := MergeEnd(b, off, |data|);
    var next := NextBucket(b, off, |data|);
    CombinedRange(b[i], next, off, data, junk);
    SpliceSorted(b, i, n, Combined(b[i], next, off, data, junk), sz);
  }

  lemma PlaceSorted(b: seq<Bucket>, off: nat, data: seq<byte>, alloc: bool, junk: Junk, sz: nat)
    requires Sorted(b) && Within(b, sz) && off + |data| <= sz
    ensures Sorted(Place(b, off, data, alloc, junk).0) && Within(Place(b, off, data, alloc, junk).0, sz)
  {
    var k := Bucket(off, data);
    var r := PlaceIs(b, off, data, alloc, junk);
    if r == b {
    } else if r == b + [k] && PlaceIndex(b, off) == |b| {
      SpliceSorted(b, |b|, |b|, k, sz);
      assert b[..|b|] + [k] + b[|b|..] == r;
    } else if r == [k] + b {
      SpliceSorted(b, 0, 0, k, sz);
      assert b[..0] + [k] + b[0..] == r;
    } else {
      MergeSorted(b, off, data, junk, sz);
    }
  }

  /** The list is left as it is, gets one bucket more at either end, or is merged with the fragment. */
  lemma PlaceIs(b: seq<Bucket>, off: nat, data: seq<byte>, alloc: bool, junk: Junk) returns (r: seq<Bucket>)
    requires Sorted(b)
    ensures r == Place(b, off, data, alloc, junk).0
    ensures
      || r == b
      || (r == b + [Bucket(off, data)] && PlaceIndex(b, off) == |b|)
      || (r == [Bucket(off, data)] + b && b != [] && off + |data| < b[0].offset)
      || (PlaceIndex(b, off) < |b| && !Contained(b, off, |data|) && r == Merge(b, off, data, junk))
  {
    r := Place(b, off, data, alloc, junk).0;
    if b == [] && alloc {
      assert r == b + [Bucket(off, data)];
    }
  }

  /** Separated runs hold at most the bytes between the first offset and the last end. */
  lemma {:induction false} TotalBound(b: seq<Bucket>)
    requires Sorted(b) && b != []
    ensures b[0].offset + Total(b) + |b| - 1 <= b[|b| - 1].End()
  {
    if |b| == 1 {
      assert b[1..] == [];
    } else {
      assert Sorted(b[1..]);
      TotalBound(b[1..]);
    }
  }

  /** The invariant of a stored message, whatever fragments were offered. */
  ghost predicate MsgOK(m: Msg)
  {
    && Sorted(m.buckets) && Within(m.buckets, m.sz)
    && (!m.Ready() ==> m.received == Total(m.buckets))
    && (m.Ready() ==> |m.full.value| == m.sz && m.buckets == [] && m.htype != NO_SHAKE)
    && (m.htype == NO_SHAKE ==> m.buckets == [])
  }

  /** When the byte count reaches the message size the buckets are one run from 0: assembly cannot fail. */
  lemma AssemblyNeverFails(b: seq<Bucket>, sz: nat)
    requires Sorted(b) && Within(b, sz) && b != [] && Total(b) == sz
    ensures |b| == 1 && b[0].offset == 0 && |b[0].buf| == sz
  {
    TotalBound(b);
    assert b[|b| - 1].End() <= sz;
    assert b == [b[0]];
    assert Total([b[0]]) == |b[0].buf| + Total([b[0]][1..]);
  }

  lemma SetKeepsMsgOK(m: Msg, epoch: nat, num: nat, htype: nat, total: nat, off: nat, data: seq<byte>,
                      alloc: bool, junk: Junk)
    requires MsgOK(m) && htype != NO_SHAKE
    ensures
      var (r, st) := MsgAfterSet(m, epoch, num, htype, total, off, data, alloc, junk);
      && MsgOK(r)
      && r.sz == m.sz
      && (r == m || (r.epoch == epoch && r.num == num && r.htype == htype))
      && (st == Ok && !m.Ready() ==> (r.Ready() <==> r.received == r.sz))
  {
    if !(m.sz != total || off + |data| > total) && !m.Ready() {
      PlaceSorted(m.buckets, off, data, alloc, junk, m.sz);
      var (b, st) := Place(m.buckets, off, data, alloc, junk);
      if st == Ok && Total(b) == m.sz && b != [] {
        AssemblyNeverFails(b, m.sz);
      }
    }
  }

  /** An incomplete message takes over the placed buckets, or keeps its own; a complete one is their only bucket. */
  lemma SetPlaces(m: Msg, epoch: nat, num: nat, htype: nat, total: nat, off: nat, data: seq<byte>, alloc: bool,
                  junk: Junk) returns (b: seq<Bucket>)
    requires Sorted(m.buckets) && !m.Ready()
    ensures b == Place(m.buckets, off, data, alloc, junk).0
    ensures
      var r := MsgAfterSet(m, epoch, num, htype, total, off, data, alloc, junk).0;
      if r.Ready() then |b| == 1 && b[0].offset == 0 && b[0].buf == r.full.value && |r.full.value| == m.sz
      else r.buckets == m.buckets || r.buckets == b
  {
    var placed := Place(m.buckets, off, data, alloc, junk);
    b := placed.0;
    WithBucketsIs(m.(epoch := epoch, num := num, htype := htype), b, placed.1);
  }

  lemma WithBucketsIs(m: Msg, b: seq<Bucket>, st: Status)
    requires !m.Ready()
    ensures
      var r := WithBuckets(m, b, st).0;
      if r.Ready() then |b| == 1 && b[0].offset == 0 && b[0].buf == r.full.value && |r.full.value| == m.sz
      else r.buckets == m.buckets || r.buckets == b
  {
  }

  // ---------- coverage and contents ----------

  ghost predicate CoversIn(b: seq<Bucket>, lo: nat, hi: nat, p: nat)
    requires hi <= |b|
  {
    exists i :: lo <= i < hi && Has(b[i], p)
  }

  /** Coverage of a list in which buckets i up to n were replaced by k. */
  lemma CoversSplice(b: seq<Bucket>, i: nat, n: nat, k: Bucket, p: nat)
    requires i <= n <= |b|
    ensures Covers(b[..i] + [k] + b[n..], p) <==> CoversIn(b, 0, i, p) || Has(k, p) || CoversIn(b, n, |b|, p)
  {
    var r := b[..i] + [k] + b[n..];
    assert forall x :: 0 <= x < i ==> r[x] == b[x];
    assert r[i] == k;
    assert forall x :: n <= x < |b| ==> r[x - n + i + 1] == b[x];
    if Covers(r, p) {
      var x :| 0 <= x < |r| && Has(r[x], p);
      assert x > i ==> r[x] == b[x - i - 1 + n];
    }
    if Has(k, p) {
      assert Has(r[i], p);
    }
    if CoversIn(b, 0, i, p) {
      var x :| 0 <= x < i && Has(b[x], p);
      assert Has(r[x], p);
    }
    if CoversIn(b, n, |b|, p) {
      var x :| n <= x < |b| && Has(b[x], p);
      assert Has(r[x - n + i + 1], p);
    }
  }

  function MergeLo(b: seq<Bucket>, off: nat): nat
    requires PlaceIndex(b, off) < |b|
  {
    var cur := b[PlaceIndex(b, off)];
    if cur.offset < off then cur.offset else off
  }

  function MergeHi(b: seq<Bucket>, off: nat, len: nat): nat
    requires PlaceIndex(b, off) < |b|
  {
    var cur, next := b[PlaceIndex(b, off)], NextBucket(b, off, len);
    if CombineNext(next, off + len) then next.value.End()
    else if cur.End() > off + len then cur.End() else off + len
  }

  lemma NextBeyond(b: seq<Bucket>, off: nat, len: nat)
    requires Sorted(b) && PlaceIndex(b, off) < |b|
    ensures
      var cur, next := b[PlaceIndex(b, off)], NextBucket(b, off, len);
      next.Some? ==> cur.End() < next.value.offset && off + len < next.value.End()
  {
  }

  /** A swallowed bucket behind the first ends within the data, or is the last one, which the data reaches. */
  lemma SwallowedEnds(b: seq<Bucket>, off: nat, len: nat, x: nat)
    requires PlaceIndex(b, off) < x < |b| && x < MergeEnd(b, off, len)
    ensures b[x].End() <= off + len ||
            (CombineNext(NextBucket(b, off, len), off + len) && b[x] == NextBucket(b, off, len).value)
  {
    var j := NextIndex(b, PlaceIndex(b, off) + 1, off + len);
    assert x < j || x == j;
  }

  /** A swallowed bucket lies inside the merged run. */
  lemma SwallowedOne(b: seq<Bucket>, off: nat, len: nat, x: nat, p: nat)
    requires Sorted(b) && PlaceIndex(b, off) <= x < |b| && x < MergeEnd(b, off, len) && Has(b[x], p)
    ensures MergeLo(b, off) <= p < MergeHi(b, off, len)
  {
    var i := PlaceIndex(b, off);
    NextBeyond(b, off, len);
    if i < x {
      SwallowedEnds(b, off, len, x);
      assert b[i].End() < b[x].offset;
    }
  }

  lemma SwallowedCovered(b: seq<Bucket>, off: nat, len: nat, p: nat)
    requires Sorted(b) && PlaceIndex(b, off) < |b|
    requires CoversIn(b, PlaceIndex(b, off), MergeEnd(b, off, len), p)
    ensures MergeLo(b, off) <= p < MergeHi(b, off, len)
  {
    var x :| PlaceIndex(b, off) <= x < MergeEnd(b, off, len) && Has(b[x], p);
    SwallowedOne(b, off, len, x, p);
  }

  lemma CoveredSwallowed(b: seq<Bucket>, off: nat, len: nat, p: nat)
    requires Sorted(b) && PlaceIndex(b, off) < |b|
    requires MergeLo(b, off) <= p < MergeHi(b, off, len)
    ensures CoversIn(b, PlaceIndex(b, off), MergeEnd(b, off, len), p) || off <= p < off + len
            || off + len <= p < b[PlaceIndex(b, off)].offset
  {
    var i := PlaceIndex(b, off);
    var next := NextBucket(b, off, len);
    if Has(b[i], p) {
      assert i < MergeEnd(b, off, len);
    } else if CombineNext(next, off + len) && Has(next.value, p) {
      LastSwallowed(b, off, len);
    }
  }

  lemma LastSwallowed(b: seq<Bucket>, off: nat, len: nat)
    requires PlaceIndex(b, off) < |b| && CombineNext(NextBucket(b, off, len), off + len)
    ensures PlaceIndex(b, off) < MergeEnd(b, off, len) - 1 < |b|
    ensures NextBucket(b, off, len).value == b[MergeEnd(b, off, len) - 1]
  {
  }

  /** Position by position, what offering a fragment does to coverage. */
  lemma PlaceCovers(b: seq<Bucket>, off: nat, data: seq<byte>, junk: Junk, p: nat)
    requires Sorted(b) && Place(b, off, data, true, junk).1 == Ok
    ensures Covers(Place(b, off, data, true, junk).0, p) <==>
            Covers(b, p) || off <= p < off + |data|
            || (Gap(b, off, |data|) && off + |data| <= p < b[PlaceIndex(b, off)].offset)
  {
    var i := PlaceIndex(b, off);
    var len := |data|;
    var k := Bucket(off, data);
    if b == [] || (!Contained(b, off, len) && i == |b|) {
      CoversSplice(b, |b|, |b|, k, p);
      assert b[..|b|] + [k] + b[|b|..] == Place(b, off, data, true, junk).0;
    } else if Contained(b, off, len) {
      if off <= p < off + len {
        assert Has(b[i], p);
      }
    } else if i == 0 && off + len < b[0].offset {
      CoversSplice(b, 0, 0, k, p);
      assert b[..0] + [k] + b[0..] == [k] + b;
    } else {
      MergeCovers(b, off, data, junk, p);
    }
  }

  lemma CoversThirds(b: seq<Bucket>, i: nat, n: nat, p: nat)
    requires i <= n <= |b|
    ensures Covers(b, p) <==> CoversIn(b, 0, i, p) || CoversIn(b, i, n, p) || CoversIn(b, n, |b|, p)
  {
  }

  lemma MergeCovers(b: seq<Bucket>, off: nat, data: seq<byte>, junk: Junk, p: nat)
    requires Sorted(b) && PlaceIndex(b, off) < |b| && !Contained(b, off, |data|)
    ensures Covers(Merge(b, off, data, junk), p) <==>
            Covers(b, p) || off <= p < off + |data| || off + |data| <= p < b[PlaceIndex(b, off)].offset
  {
    var i, n := PlaceIndex(b, off), MergeEnd(b, off, |data|);
    var merged := Combined(b[i], NextBucket(b, off, |data|), off, data, junk);
    CombinedRange(b[i], NextBucket(b, off, |data|), off, data, junk);
    CoversSplice(b, i, n, merged, p);
    CoversThirds(b, i, n, p);
    if Has(merged, p) {
      CoveredSwallowed(b, off, |data|, p);
    }
    if CoversIn(b, i, n, p) {
      SwallowedCovered(b, off, |data|, p);
    }
  }

  lemma JoinSlices(body: seq<byte>, a: nat, b: nat, c: nat, d: nat)
    requires a <= b <= c <= d <= |body|
    ensures body[a..b] + body[b..c] + body[c..d] == body[a..d]
  {
  }

  lemma SubSlice(body: seq<byte>, a: nat, d: nat, x: nat, y: nat)
    requires a <= d <= |body| && x <= y <= d - a
    ensures body[a..d][x..y] == body[a + x..a + y]
  {
    var l, r := body[a..d][x..y], body[a + x..a + y];
    assert forall i :: 0 <= i < |l| ==> l[i] == r[i];
  }

  /** In the shifted tail, the merged bytes are right exactly when the shift does not show. */
  lemma TailHolds(body: seq<byte>, cur: Bucket, off: nat, end: nat)
    requires off < cur.offset <= end < cur.End() && Holds(cur, body)
    ensures body[off..end] + cur.buf[..cur.End() - end] == body[off..cur.End()] <==>
            cur.buf[..cur.End() - end] == cur.buf[end - cur.offset..]
  {
    SubSlice(body, cur.offset, cur.End(), end - cur.offset, |cur.buf|);
    ConcatSlices(body, off, end, cur.End());
    var shifted := body[off..end] + cur.buf[..cur.End() - end];
    assert shifted[end - off..] == cur.buf[..cur.End() - end];
    assert body[off..cur.End()][end - off..] == body[end..cur.End()];
  }

  lemma CurFirstHolds(body: seq<byte>, cur: Bucket, off: nat, end: nat, upTo: nat, hi: nat)
    requires cur.offset < off <= cur.End() <= upTo <= end <= |body| && upTo <= hi <= |body| && Holds(cur, body)
    ensures cur.buf + body[off..end][cur.End() - off..upTo - off] + body[upTo..hi] == body[cur.offset..hi]
  {
    SubSlice(body, off, end, cur.End() - off, upTo - off);
    JoinSlices(body, cur.offset, cur.End(), upTo, hi);
  }

  lemma BridgeHolds(body: seq<byte>, off: nat, end: nat, next: Bucket)
    requires off <= next.offset <= end <= next.End() && Holds(next, body)
    ensures body[off..end][..next.offset - off] + next.buf == body[off..next.End()]
  {
    SubSlice(body, off, end, 0, next.offset - off);
    ConcatSlices(body, off, next.offset, next.End());
  }

  lemma CurFirstMerged(cur: Bucket, next: Option<Bucket>, off: nat, data: seq<byte>, junk: Junk, body: seq<byte>)
    requires cur.offset < off <= cur.End() < off + |data| <= |body| && data == body[off..off + |data|]
    requires next.Some? ==> cur.End() < next.value.offset && off + |data| < next.value.End()
    requires Holds(cur, body) && (next.Some? ==> Holds(next.value, body))
    ensures Holds(Combined(cur, next, off, data, junk), body)
  {
    var end := off + |data|;
    if CombineNext(next, end) {
      CurFirstHolds(body, cur, off, end, next.value.offset, next.value.End());
    } else {
      CurFirstHolds(body, cur, off, end, end, end);
      assert body[end..end] == [];
    }
  }

  lemma TailMerged(cur: Bucket, next: Option<Bucket>, off: nat, data: seq<byte>, junk: Junk, body: seq<byte>)
    requires off < cur.offset <= off + |data| < cur.End() && off + |data| <= |body|
    requires data == body[off..off + |data|] && Holds(cur, body) && !CombineNext(next, off + |data|)
    requires next.Some? ==> cur.End() < next.value.offset && off + |data| < next.value.End()
    ensures Holds(Combined(cur, next, off, data, junk), body) <==> !ShiftShows(cur, off, off + |data|)
  {
    TailHolds(body, cur, off, off + |data|);
  }

  lemma DataFirstMerged(cur: Bucket, next: Option<Bucket>, off: nat, data: seq<byte>, junk: Junk, body: seq<byte>)
    requires off <= cur.offset <= off + |data| <= |body| && data == body[off..off + |data|]
    requires !(off >= cur.offset && off + |data| <= cur.End())
    requires next.Some? ==> cur.End() < next.value.offset && off + |data| < next.value.End()
    requires Holds(cur, body) && (next.Some? ==> Holds(next.value, body))
    ensures Holds(Combined(cur, next, off, data, junk), body) <==> !ShiftShows(cur, off, off + |data|)
  {
    var end := off + |data|;
    if CombineNext(next, end) {
      BridgeHolds(body, off, end, next.value);
    } else if cur.End() > end {
      TailMerged(cur, next, off, data, junk, body);
    }
  }

  /** Merging bytes of body gives bytes of body, exactly unless a left overlap shifted cur. */
  lemma CombinedHolds(cur: Bucket, next: Option<Bucket>, off: nat, data: seq<byte>, junk: Junk, body: seq<byte>)
    requires off <= cur.End()
    requires !(off >= cur.offset && off + |data| <= cur.End())
    requires next.Some? ==> cur.End() < next.value.offset && off + |data| < next.value.End()
    requires off + |data| <= |body| && data == body[off..off + |data|]
    requires Holds(cur, body) && (next.Some? ==> Holds(next.value, body))
    requires cur.offset <= off + |data|
    ensures
      Holds(Combined(cur, next, off, data, junk), body) <==> !ShiftShows(cur, off, off + |data|)
  {
    if cur.offset < off {
      CurFirstMerged(cur, next, off, data, junk, body);
    } else {
      DataFirstMerged(cur, next, off, data, junk, body);
    }
  }

  lemma NotCovered(b: seq<Bucket>, i: nat, p: nat)
    requires Sorted(b) && i < |b|
    requires p < b[i].offset && (i > 0 ==> b[i - 1].End() <= p)
    ensures !Covers(b, p)
  {
    assert forall x :: 0 <= x < i ==> b[x].End() <= p;
    assert forall x :: i <= x < |b| ==> p < b[x].offset;
  }

  lemma HoldSplice(b: seq<Bucket>, i: nat, n: nat, k: Bucket, body: seq<byte>)
    requires AllHold(b, body) && i <= n <= |b|
    ensures AllHold(b[..i] + [k] + b[n..], body) <==> Holds(k, body)
  {
    var r := b[..i] + [k] + b[n..];
    assert r[i] == k;
    assert forall x :: 0 <= x < |r| && x != i ==> r[x] == b[if x < i then x else x - i - 1 + n];
  }

  lemma MergeHolds(b: seq<Bucket>, off: nat, data: seq<byte>, junk: Junk, body: seq<byte>)
    requires Sorted(b) && AllHold(b, body) && PlaceIndex(b, off) < |b| && !Contained(b, off, |data|)
    requires off + |data| <= |body| && data == body[off..off + |data|]
    requires b[PlaceIndex(b, off)].offset <= off + |data|
    ensures AllHold(Merge(b, off, data, junk), body) <==> !Shifted(b, off, |data|)
  {
    var i, n := PlaceIndex(b, off), MergeEnd(b, off, |data|);
    var next := NextBucket(b, off, |data|);
    NextBeyond(b, off, |data|);
    NextHolds(b, off, |data|, body);
    CombinedHolds(b[i], next, off, data, junk, body);
    HoldSplice(b, i, n, Combined(b[i], next, off, data, junk), body);
    ShiftedIs(b, off, |data|);
  }

  lemma NextHolds(b: seq<Bucket>, off: nat, len: nat, body: seq<byte>)
    requires AllHold(b, body) && PlaceIndex(b, off) < |b|
    ensures Holds(b[PlaceIndex(b, off)], body)
    ensures NextBucket(b, off, len).Some? ==> Holds(NextBucket(b, off, len).value, body)
  {
  }

  /**
   Offering a fragment of body adds exactly its bytes, with their right values, if and only if the
   fragment neither falls in a gap nor shifts a left-overlapped run.
   */
  lemma PlaceExact(b: seq<Bucket>, off: nat, data: seq<byte>, junk: Junk, body: seq<byte>)
    requires Sorted(b) && AllHold(b, body)
    requires off + |data| <= |body| && data == body[off..off + |data|]
    requires Place(b, off, data, true, junk).1 == Ok
    ensures
      var r := Place(b, off, data, true, junk).0;
      (AllHold(r, body) && forall p: nat :: Covers(r, p) <==> Covers(b, p) || off <= p < off + |data|)
      <==> !Gap(b, off, |data|) && !Shifted(b, off, |data|)
  {
    var r := Place(b, off, data, true, junk).0;
    var i, end := PlaceIndex(b, off), off + |data|;
    if Gap(b, off, |data|) {
      PlaceCovers(b, off, data, junk, end);
      NotCovered(b, i, end);
    } else {
      forall p: nat
        ensures Covers(r, p) <==> Covers(b, p) || off <= p < off + |data|
      {
        PlaceCovers(b, off, data, junk, p);
      }
      if b != [] && i < |b| && !Contained(b, off, |data|) && b[i].offset <= end {
        MergeHolds(b, off, data, junk, body);
      }
    }
  }

  /** A message of at least one run is complete exactly when every byte is covered. */
  lemma FullIffCovered(b: seq<Bucket>, sz: nat)
    requires Sorted(b) && Within(b, sz) && b != []
    ensures Total(b) == sz <==> forall p: nat :: p < sz ==> Covers(b, p)
  {
    if Total(b) == sz {
      AssemblyNeverFails(b, sz);
      forall p: nat | p < sz
        ensures Covers(b, p)
      {
        assert Has(b[0], p);
      }
    } else if forall p: nat :: p < sz ==> Covers(b, p) {
      if |b| > 1 {
        assert b[0].End() < b[1].offset;
        NotCovered(b, 1, b[0].End());
      } else {
        assert b == [b[0]] && Total(b) == |b[0].buf|;
        assert !Has(b[0], 0) ==> !Covers(b, 0);
        assert sz > 0 && !Has(b[0], sz - 1) ==> !Covers(b, sz - 1);
      }
    }
  }
}
