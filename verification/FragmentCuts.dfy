/**
 One sender cuts a message once and always resends the same fragments.  This file settles which cuts the
 fragment store of module Reassembly puts back together correctly under every loss, duplication and
 reordering: exactly the cuts into at most four fragments.
 */
module FragmentCuts {
  import opened Bytes
  import opened Options
  import opened Reassembly
  import opened ReassemblyProofs

  const MAX_SAFE_FRAGMENTS := 4

  ghost predicate InOrder(cuts: seq<nat>, i: int, j: int)
    requires 0 <= i < j < |cuts|
  {
    cuts[i] < cuts[j]
  }

  ghost predicate Rising(cuts: seq<nat>)
  {
    forall i, j :: 0 <= i < j < |cuts| ==> InOrder(cuts, i, j)
  }

  /** The places at which a message of n bytes is cut; an empty message is one empty fragment. */
  ghost predicate Cut(cuts: seq<nat>, n: nat)
  {
    && |cuts| >= 2 && cuts[0] == 0 && cuts[|cuts| - 1] == n
    && (n == 0 ==> |cuts| == 2)
    && (n > 0 ==> Rising(cuts))
  }

  lemma CutRises(cuts: seq<nat>, n: nat)
    requires Cut(cuts, n)
    ensures forall i, j :: 0 <= i <= j < |cuts| ==> cuts[i] <= cuts[j]
    ensures n > 0 ==> forall i, j :: 0 <= i < j < |cuts| ==> cuts[i] < cuts[j]
  {
    if n > 0 {
      forall i, j | 0 <= i < j < |cuts|
        ensures cuts[i] < cuts[j]
      {
        assert InOrder(cuts, i, j);
      }
    }
  }

  /** [off, end) is one of the fragments. */
  ghost predicate Piece(cuts: seq<nat>, off: nat, end: nat)
  {
    exists i :: 0 <= i < |cuts| - 1 && cuts[i] == off && cuts[i + 1] == end
  }

  /** The bucket is a run of whole fragments. */
  ghost predicate AlignedBucket(k: Bucket, cuts: seq<nat>)
  {
    exists a, c :: 0 <= a < c < |cuts| && k.offset == cuts[a] && k.End() == cuts[c]
  }

  ghost predicate Aligned(b: seq<Bucket>, cuts: seq<nat>)
  {
    forall i :: 0 <= i < |b| ==> AlignedBucket(b[i], cuts)
  }

  /** A fragment that falls in a gap needs two fragments stored around it and two missing next to it. */
  lemma ShortCutSafe(b: seq<Bucket>, cuts: seq<nat>, n: nat, off: nat, len: nat)
    requires Sorted(b) && Aligned(b, cuts) && Cut(cuts, n) && Piece(cuts, off, off + len)
    ensures !LeftOverlap(b, off, len)
    ensures |cuts| <= MAX_SAFE_FRAGMENTS + 1 ==> !Gap(b, off, len)
  {
    CutRises(cuts, n);
    var i := PlaceIndex(b, off);
    var f :| 0 <= f < |cuts| - 1 && cuts[f] == off && cuts[f + 1] == off + len;
    if i < |b| {
      var a, c :| 0 <= a < c < |cuts| && b[i].offset == cuts[a] && b[i].End() == cuts[c];
      assert a <= f || f + 1 <= a;
      if i > 0 && off + len < b[i].offset {
        var a0, c0 :| 0 <= a0 < c0 < |cuts| && b[i - 1].offset == cuts[a0] && b[i - 1].End() == cuts[c0];
        assert cuts[c0] < cuts[f] && c0 < f;
        assert cuts[f + 1] < cuts[a] && f + 1 < a;
        assert c >= 5;
      }
    }
  }

  /** The state of a stored message that has been offered only fragments of one cut of body. */
  ghost predicate Honest(m: Msg, body: seq<byte>, cuts: seq<nat>)
  {
    && MsgOK(m) && m.sz == |body| && Cut(cuts, |body|)
    && (m.Ready() ==> m.full.value == body)
    && (!m.Ready() ==> AllHold(m.buckets, body) && Aligned(m.buckets, cuts))
  }

  lemma AlignedSpan(k: Bucket, x: Bucket, y: Bucket, cuts: seq<nat>, n: nat)
    requires Cut(cuts, n) && AlignedBucket(x, cuts) && AlignedBucket(y, cuts)
    requires k.offset == x.offset <= y.offset && k.End() == y.End()
    ensures AlignedBucket(k, cuts)
  {
    CutRises(cuts, n);
    var a, c :| 0 <= a < c < |cuts| && x.offset == cuts[a] && x.End() == cuts[c];
    var a', c' :| 0 <= a' < c' < |cuts| && y.offset == cuts[a'] && y.End() == cuts[c'];
    assert n > 0 ==> a <= a';
  }

  lemma AlignedSplice(b: seq<Bucket>, i: nat, e: nat, k: Bucket, cuts: seq<nat>)
    requires Aligned(b, cuts) && AlignedBucket(k, cuts) && i <= e <= |b|
    ensures Aligned(b[..i] + [k] + b[e..], cuts)
  {
    var r := b[..i] + [k] + b[e..];
    forall x | 0 <= x < |r|
      ensures AlignedBucket(r[x], cuts)
    {
      assert r[x] == if x < i then b[x] else if x == i then k else b[x - i - 1 + e];
    }
  }

  lemma CombinedAligned(cur: Bucket, next: Option<Bucket>, off: nat, data: seq<byte>, junk: Junk,
                        cuts: seq<nat>, n: nat)
    requires off <= cur.End()
    requires !(off >= cur.offset && off + |data| <= cur.End())
    requires next.Some? ==> cur.End() < next.value.offset && off + |data| < next.value.End()
    requires Cut(cuts, n) && AlignedBucket(Bucket(off, data), cuts) && AlignedBucket(cur, cuts)
    requires next.Some? ==> AlignedBucket(next.value, cuts)
    ensures AlignedBucket(Combined(cur, next, off, data, junk), cuts)
  {
    var piece := Bucket(off, data);
    var k := Combined(cur, next, off, data, junk);
    CombinedRange(cur, next, off, data, junk);
    var first := if cur.offset < off then cur else piece;
    var last := if CombineNext(next, off + |data|) then next.value else if cur.End() > off + |data| then cur else piece;
    AlignedSpan(k, first, last, cuts, n);
  }

  lemma MergeAligned(b: seq<Bucket>, cuts: seq<nat>, n: nat, off: nat, data: seq<byte>, junk: Junk)
    requires Sorted(b) && Aligned(b, cuts) && Cut(cuts, n) && AlignedBucket(Bucket(off, data), cuts)
    requires PlaceIndex(b, off) < |b| && !Contained(b, off, |data|)
    ensures Aligned(Merge(b, off, data, junk), cuts)
  {
    var i, next := PlaceIndex(b, off), NextBucket(b, off, |data|);
    CombinedAligned(b[i], next, off, data, junk, cuts, n);
    AlignedSplice(b, i, MergeEnd(b, off, |data|), Combined(b[i], next, off, data, junk), cuts);
  }

  lemma PlaceAligned(b: seq<Bucket>, cuts: seq<nat>, n: nat, off: nat, data: seq<byte>, alloc: bool, junk: Junk)
    requires Sorted(b) && Aligned(b, cuts) && Cut(cuts, n) && AlignedBucket(Bucket(off, data), cuts)
    ensures Aligned(Place(b, off, data, alloc, junk).0, cuts)
  {
    var k := Bucket(off, data);
    AlignedSplice(b, |b|, |b|, k, cuts);
    assert b[..|b|] + [k] + b[|b|..] == b + [k];
    AlignedSplice(b, 0, 0, k, cuts);
    assert b[..0] + [k] + b[0..] == [k] + b;
    var r := PlaceIs(b, off, data, alloc, junk);
    if PlaceIndex(b, off) < |b| && !Contained(b, off, |data|) {
      MergeAligned(b, cuts, n, off, data, junk);
    }
  }

  /** Offering a fragment of the cut keeps a message honest, as long as the fragment does not fall in a gap. */
  lemma SetKeepsHonest(m: Msg, body: seq<byte>, cuts: seq<nat>, epoch: nat, num: nat, htype: nat, off: nat,
                       data: seq<byte>, alloc: bool, junk: Junk)
    requires Honest(m, body, cuts) && htype != NO_SHAKE
    requires off + |data| <= |body| && data == body[off..off + |data|] && Piece(cuts, off, off + |data|)
    requires m.Ready() || !Gap(m.buckets, off, |data|)
    ensures Honest(MsgAfterSet(m, epoch, num, htype, |body|, off, data, alloc, junk).0, body, cuts)
  {
    SetKeepsMsgOK(m, epoch, num, htype, |body|, off, data, alloc, junk);
    if !m.Ready() {
      PlaceKeepsHonest(m.buckets, body, cuts, off, data, alloc, junk);
      var (b, st) := Place(m.buckets, off, data, alloc, junk);
      if |b| == 1 && b[0].offset == 0 && |b[0].buf| == |body| {
        assert b[0].buf == body[0..|body|] == body;
      }
    }
  }

  lemma PlaceKeepsHonest(b: seq<Bucket>, body: seq<byte>, cuts: seq<nat>, off: nat, data: seq<byte>,
                         alloc: bool, junk: Junk)
    requires Sorted(b) && AllHold(b, body) && Aligned(b, cuts) && Cut(cuts, |body|)
    requires off + |data| <= |body| && data == body[off..off + |data|] && Piece(cuts, off, off + |data|)
    requires !Gap(b, off, |data|)
    ensures AllHold(Place(b, off, data, alloc, junk).0, body)
    ensures Aligned(Place(b, off, data, alloc, junk).0, cuts)
  {
    ShortCutSafe(b, cuts, |body|, off, |data|);
    PieceAligned(cuts, off, data);
    PlaceAligned(b, cuts, |body|, off, data, alloc, junk);
    if alloc && Place(b, off, data, alloc, junk).1 == Ok {
      PlaceExact(b, off, data, junk, body);
    }
  }

  lemma PieceAligned(cuts: seq<nat>, off: nat, data: seq<byte>)
    requires Piece(cuts, off, off + |data|)
    ensures AlignedBucket(Bucket(off, data), cuts)
  {
    var f :| 0 <= f < |cuts| - 1 && cuts[f] == off && cuts[f + 1] == off + |data|;
    assert Bucket(off, data).offset == cuts[f] && Bucket(off, data).End() == cuts[f + 1];
  }

  // ---------- every order of arrival ----------

  /** Fragment number index arrives; alloc and junk say what the allocator does meanwhile. */
  datatype Arrival = Arrival(index: nat, alloc: bool, junk: Junk)

  ghost predicate Arrivals(arrivals: seq<Arrival>, cuts: seq<nat>)
  {
    forall i :: 0 <= i < |arrivals| ==> arrivals[i].index + 1 < |cuts|
  }

  function Fragment(body: seq<byte>, cuts: seq<nat>, i: nat): seq<byte>
    requires i + 1 < |cuts| && cuts[i] <= cuts[i + 1] <= |body|
  {
    body[cuts[i]..cuts[i + 1]]
  }

  lemma CutBounds(cuts: seq<nat>, n: nat, i: nat)
    requires Cut(cuts, n) && i + 1 < |cuts|
    ensures cuts[i] <= cuts[i + 1] <= n && Piece(cuts, cuts[i], cuts[i + 1])
    ensures n > 0 ==> cuts[i] < cuts[i + 1]
  {
    CutRises(cuts, n);
  }

  /** The identity of a stored message. */
  datatype Id = Id(epoch: nat, num: nat, htype: nat)

  /** What a stored message of the given identity and size looks like, whatever arrived. */
  ghost predicate Stored(m: Msg, id: Id, n: nat)
  {
    && MsgOK(m) && m.sz == n
    && (m.htype != NO_SHAKE ==> m.epoch == id.epoch && m.num == id.num && m.htype == id.htype)
  }

  function Arrive(m: Msg, id: Id, body: seq<byte>, cuts: seq<nat>, a: Arrival): (r: Msg)
    requires Stored(m, id, |body|) && id.htype != NO_SHAKE && Cut(cuts, |body|) && a.index + 1 < |cuts|
    ensures Stored(r, id, |body|)
  {
    CutBounds(cuts, |body|, a.index);
    var f := Fragment(body, cuts, a.index);
    SetKeepsMsgOK(m, id.epoch, id.num, id.htype, |body|, cuts[a.index], f, a.alloc, a.junk);
    MsgAfterSet(m, id.epoch, id.num, id.htype, |body|, cuts[a.index], f, a.alloc, a.junk).0
  }

  /** The stored message after the arrivals, in their order. */
  function Deliver(id: Id, body: seq<byte>, cuts: seq<nat>, arrivals: seq<Arrival>): (m: Msg)
    requires Cut(cuts, |body|) && id.htype != NO_SHAKE && Arrivals(arrivals, cuts)
    ensures Stored(m, id, |body|)
  {
    if arrivals == [] then NewMsg(|body|)
    else
      var k := |arrivals| - 1;
      Arrive(Deliver(id, body, cuts, arrivals[..k]), id, body, cuts, arrivals[k])
  }

  /** Up to four fragments: whatever arrives, in whatever order and however often, the message stays honest. */
  lemma {:induction false} AnyOrderHonest(id: Id, body: seq<byte>, cuts: seq<nat>, arrivals: seq<Arrival>)
    requires Cut(cuts, |body|) && |cuts| <= MAX_SAFE_FRAGMENTS + 1
    requires id.htype != NO_SHAKE && Arrivals(arrivals, cuts)
    ensures Honest(Deliver(id, body, cuts, arrivals), body, cuts)
  {
    if arrivals != [] {
      var k := |arrivals| - 1;
      AnyOrderHonest(id, body, cuts, arrivals[..k]);
      ArriveHonest(Deliver(id, body, cuts, arrivals[..k]), id, body, cuts, arrivals[k]);
    }
  }

  lemma ArriveHonest(m: Msg, id: Id, body: seq<byte>, cuts: seq<nat>, a: Arrival)
    requires Stored(m, id, |body|) && Honest(m, body, cuts) && |cuts| <= MAX_SAFE_FRAGMENTS + 1
    requires id.htype != NO_SHAKE && a.index + 1 < |cuts|
    ensures Honest(Arrive(m, id, body, cuts, a), body, cuts)
  {
    CutBounds(cuts, |body|, a.index);
    var f := Fragment(body, cuts, a.index);
    if !m.Ready() {
      ShortCutSafe(m.buckets, cuts, |body|, cuts[a.index], |f|);
    }
    SetKeepsHonest(m, body, cuts, id.epoch, id.num, id.htype, cuts[a.index], f, a.alloc, a.junk);
  }

  /** Byte p belongs to a fragment that arrived. */
  ghost predicate Received(cuts: seq<nat>, arrivals: seq<Arrival>, p: nat)
    requires Arrivals(arrivals, cuts)
  {
    exists i :: 0 <= i < |arrivals| && cuts[arrivals[i].index] <= p < cuts[arrivals[i].index + 1]
  }

  lemma EndIndex(b: seq<Bucket>, cuts: seq<nat>, n: nat, k: nat) returns (c: nat)
    requires Sorted(b) && Aligned(b, cuts) && Cut(cuts, n) && k < |b|
    ensures 2 * k < c < |cuts| && b[k].End() == cuts[c]
  {
    CutRises(cuts, n);
    var a, e :| 0 <= a < e < |cuts| && b[k].offset == cuts[a] && b[k].End() == cuts[e];
    c := e;
    if k > 0 {
      var before := EndIndex(b, cuts, n, k - 1);
      assert cuts[before] < cuts[a];
    }
  }

  /** Separate runs of whole fragments: a message in f fragments never has more than (f + 1) / 2 buckets. */
  lemma FewBuckets(b: seq<Bucket>, cuts: seq<nat>, n: nat)
    requires Sorted(b) && Aligned(b, cuts) && Cut(cuts, n)
    ensures 2 * |b| <= |cuts|
  {
    if b != [] {
      var c := EndIndex(b, cuts, n, |b| - 1);
    }
  }

  /** While the message is incomplete, its runs cover exactly the bytes of the fragments that arrived. */
  ghost predicate CoverageExact(m: Msg, cuts: seq<nat>, arrivals: seq<Arrival>)
    requires Arrivals(arrivals, cuts)
  {
    forall p: nat :: Covers(m.buckets, p) <==> Received(cuts, arrivals, p)
  }

  lemma ReceivedExtend(cuts: seq<nat>, arrivals: seq<Arrival>, p: nat)
    requires Arrivals(arrivals, cuts) && arrivals != []
    ensures var k := |arrivals| - 1;
      Received(cuts, arrivals, p) <==>
      Received(cuts, arrivals[..k], p) || cuts[arrivals[k].index] <= p < cuts[arrivals[k].index + 1]
  {
    var k := |arrivals| - 1;
    if Received(cuts, arrivals[..k], p) {
      var i :| 0 <= i < k && cuts[arrivals[..k][i].index] <= p < cuts[arrivals[..k][i].index + 1];
      assert arrivals[i] == arrivals[..k][i];
    }
    if Received(cuts, arrivals, p) && !(cuts[arrivals[k].index] <= p < cuts[arrivals[k].index + 1]) {
      var i :| 0 <= i < |arrivals| && cuts[arrivals[i].index] <= p < cuts[arrivals[i].index + 1];
      assert arrivals[i] == arrivals[..k][i];
    }
  }

  ghost predicate Arrived(arrivals: seq<Arrival>, f: nat)
  {
    exists i :: 0 <= i < |arrivals| && arrivals[i].index == f
  }

  /** Every fragment arrived at least once. */
  ghost predicate AllArrived(cuts: seq<nat>, arrivals: seq<Arrival>)
  {
    forall f: nat :: f + 1 < |cuts| ==> Arrived(arrivals, f)
  }

  lemma AllArrivedIffReceived(cuts: seq<nat>, n: nat, arrivals: seq<Arrival>)
    requires Cut(cuts, n) && n > 0 && Arrivals(arrivals, cuts)
    ensures AllArrived(cuts, arrivals) <==> forall p: nat :: p < n ==> Received(cuts, arrivals, p)
  {
    CutRises(cuts, n);
    if AllArrived(cuts, arrivals) {
      forall p: nat | p < n
        ensures Received(cuts, arrivals, p)
      {
        var f := FragmentOf(cuts, n, p);
        assert Arrived(arrivals, f);
      }
    }
    if forall p: nat :: p < n ==> Received(cuts, arrivals, p) {
      forall f: nat | f + 1 < |cuts|
        ensures Arrived(arrivals, f)
      {
        assert cuts[f] < cuts[f + 1] <= n;
        assert Received(cuts, arrivals, cuts[f]);
        var i :| 0 <= i < |arrivals| && cuts[arrivals[i].index] <= cuts[f] < cuts[arrivals[i].index + 1];
        assert arrivals[i].index == f;
      }
    }
  }

  lemma FragmentOf(cuts: seq<nat>, n: nat, p: nat) returns (f: nat)
    requires Cut(cuts, n) && p < n
    ensures f + 1 < |cuts| && cuts[f] <= p < cuts[f + 1]
  {
    f := 0;
    while !(p < cuts[f + 1])
      invariant f + 1 < |cuts| && cuts[f] <= p
      decreases |cuts| - f
    {
      f := f + 1;
    }
  }

  ghost predicate AllAllocated(arrivals: seq<Arrival>)
  {
    forall i :: 0 <= i < |arrivals| ==> arrivals[i].alloc
  }

  /** What holds of a message in at most four fragments while memory does not run out. */
  ghost predicate Tracks(m: Msg, body: seq<byte>, cuts: seq<nat>, arrivals: seq<Arrival>)
    requires Arrivals(arrivals, cuts)
  {
    && Honest(m, body, cuts)
    && (m.Ready() ==> AllArrived(cuts, arrivals))
    && (!m.Ready() ==> CoverageExact(m, cuts, arrivals) && !AllArrived(cuts, arrivals))
    && (!m.Ready() ==> (m.buckets == [] <==> arrivals == []))
  }

  lemma AllArrivedGrows(cuts: seq<nat>, arrivals: seq<Arrival>)
    requires arrivals != [] && AllArrived(cuts, arrivals[..|arrivals| - 1])
    ensures AllArrived(cuts, arrivals)
  {
    var k := |arrivals| - 1;
    forall x: nat | x + 1 < |cuts|
      ensures Arrived(arrivals, x)
    {
      assert Arrived(arrivals[..k], x);
      var i :| 0 <= i < k && arrivals[..k][i].index == x;
      assert arrivals[i].index == x;
    }
  }

  /** A fragment of a short cut that finds memory is stored, and the runs then cover what arrived. */
  lemma PlaceTracks(b: seq<Bucket>, body: seq<byte>, cuts: seq<nat>, arrivals: seq<Arrival>, f: seq<byte>)
    requires Cut(cuts, |body|) && |cuts| <= MAX_SAFE_FRAGMENTS + 1
    requires Arrivals(arrivals, cuts) && arrivals != []
    requires Sorted(b) && Within(b, |body|) && Aligned(b, cuts)
    requires forall p: nat :: Covers(b, p) <==> Received(cuts, arrivals[..|arrivals| - 1], p)
    requires var a := arrivals[|arrivals| - 1]; cuts[a.index] + |f| == cuts[a.index + 1] <= |body|
    ensures
      var a := arrivals[|arrivals| - 1];
      var (r, st) := Place(b, cuts[a.index], f, true, a.junk);
      && st == Ok && r != []
      && forall p: nat :: Covers(r, p) <==> Received(cuts, arrivals, p)
  {
    var k := |arrivals| - 1;
    var a := arrivals[k];
    CutBounds(cuts, |body|, a.index);
    FewBuckets(b, cuts, |body|);
    ShortCutSafe(b, cuts, |body|, cuts[a.index], |f|);
    var (r, st) := Place(b, cuts[a.index], f, true, a.junk);
    forall p: nat
      ensures Covers(r, p) <==> Received(cuts, arrivals, p)
    {
      PlaceCovers(b, cuts[a.index], f, a.junk, p);
      ReceivedExtend(cuts, arrivals, p);
    }
  }

  lemma ArriveTracks(m: Msg, id: Id, body: seq<byte>, cuts: seq<nat>, arrivals: seq<Arrival>)
    requires Cut(cuts, |body|) && |cuts| <= MAX_SAFE_FRAGMENTS + 1 && id.htype != NO_SHAKE
    requires Arrivals(arrivals, cuts) && arrivals != [] && arrivals[|arrivals| - 1].alloc
    requires Stored(m, id, |body|) && Tracks(m, body, cuts, arrivals[..|arrivals| - 1])
    ensures Tracks(Arrive(m, id, body, cuts, arrivals[|arrivals| - 1]), body, cuts, arrivals)
  {
    var a := arrivals[|arrivals| - 1];
    ArriveHonest(m, id, body, cuts, a);
    CutBounds(cuts, |body|, a.index);
    var f := Fragment(body, cuts, a.index);
    if m.Ready() {
      AllArrivedGrows(cuts, arrivals);
    } else {
      PlaceTracks(m.buckets, body, cuts, arrivals, f);
      PlaceSorted(m.buckets, cuts[a.index], f, true, a.junk, |body|);
      var b := Place(m.buckets, cuts[a.index], f, true, a.junk).0;
      CompleteIffAllArrived(b, body, cuts, arrivals);
      SetReadyIff(m, id, body, cuts[a.index], f, a.junk);
    }
  }

  lemma SetReadyIff(m: Msg, id: Id, body: seq<byte>, off: nat, data: seq<byte>, junk: Junk)
    requires Stored(m, id, |body|) && !m.Ready() && off + |data| <= |body| && id.htype != NO_SHAKE
    requires Place(m.buckets, off, data, true, junk).1 == Ok
    requires Place(m.buckets, off, data, true, junk).0 != []
    ensures
      var b := Place(m.buckets, off, data, true, junk).0;
      var r := MsgAfterSet(m, id.epoch, id.num, id.htype, |body|, off, data, true, junk).0;
      if Total(b) == |body| then r.Ready() && b == [Bucket(0, r.full.value)] else !r.Ready() && r.buckets == b
  {
    PlaceSorted(m.buckets, off, data, true, junk, |body|);
    var b := Place(m.buckets, off, data, true, junk).0;
    if Total(b) == |body| {
      AssemblyNeverFails(b, |body|);
    }
  }

  lemma CompleteIffAllArrived(b: seq<Bucket>, body: seq<byte>, cuts: seq<nat>, arrivals: seq<Arrival>)
    requires Cut(cuts, |body|) && Arrivals(arrivals, cuts) && arrivals != []
    requires Sorted(b) && Within(b, |body|) && b != []
    requires forall p: nat :: Covers(b, p) <==> Received(cuts, arrivals, p)
    ensures Total(b) == |body| <==> AllArrived(cuts, arrivals)
  {
    FullIffCovered(b, |body|);
    if |body| > 0 {
      AllArrivedIffReceived(cuts, |body|, arrivals);
    } else {
      assert arrivals[0].index == 0;
      assert Arrived(arrivals, 0);
    }
  }

  /**
   A message in at most four fragments, with memory available: after any arrivals in any order it is
   ready exactly when every fragment has arrived, and then it is the message that was sent.
   */
  lemma {:induction false} ShortCutReady(id: Id, body: seq<byte>, cuts: seq<nat>, arrivals: seq<Arrival>)
    requires Cut(cuts, |body|) && |cuts| <= MAX_SAFE_FRAGMENTS + 1
    requires id.htype != NO_SHAKE && Arrivals(arrivals, cuts) && AllAllocated(arrivals)
    ensures Tracks(Deliver(id, body, cuts, arrivals), body, cuts, arrivals)
  {
    if arrivals == [] {
      assert !Arrived(arrivals, 0);
    } else {
      var k := |arrivals| - 1;
      ShortCutReady(id, body, cuts, arrivals[..k]);
      ArriveTracks(Deliver(id, body, cuts, arrivals[..k]), id, body, cuts, arrivals);
    }
  }

  // ---------- five fragments or more ----------

  lemma ArriveShape(m: Msg, id: Id, body: seq<byte>, cuts: seq<nat>, a: Arrival, b: seq<Bucket>)
    requires Stored(m, id, |body|) && !m.Ready() && Cut(cuts, |body|) && id.htype != NO_SHAKE
    requires a.alloc && a.index + 1 < |cuts| && b != []
    requires cuts[a.index] <= cuts[a.index + 1] <= |body|
    requires Place(m.buckets, cuts[a.index], Fragment(body, cuts, a.index), true, a.junk) == (b, Ok)
    ensures
      var r := Arrive(m, id, body, cuts, a);
      if Total(b) == |body| then r.Ready() && b == [Bucket(0, r.full.value)] else !r.Ready() && r.buckets == b
  {
    var f := Fragment(body, cuts, a.index);
    var r := Arrive(m, id, body, cuts, a);
    assert r == MsgAfterSet(m, id.epoch, id.num, id.htype, |body|, cuts[a.index], f, true, a.junk).0;
    SetReadyIff(m, id, body, cuts[a.index], f, a.junk);
  }

  /** The first four arrivals of the bad order: fragments 0, 4, 2, 1. */
  lemma PlaceZeroFourTwoOne(cuts: seq<nat>, n: nat, f0: seq<byte>, f1: seq<byte>, f2: seq<byte>, f4: seq<byte>,
                            junk: Junk)
    requires Cut(cuts, n) && |cuts| >= 6 && cuts[1] <= cuts[2] <= cuts[3] <= cuts[4] <= cuts[5]
    requires |f0| == cuts[1] && |f1| == cuts[2] - cuts[1] && |f2| == cuts[3] - cuts[2] && |f4| == cuts[5] - cuts[4]
    ensures
      var b0, b4 := Bucket(0, f0), Bucket(cuts[4], f4);
      var b2 := Bucket(cuts[2], f2 + f4 + seq(cuts[4] - cuts[3], i requires 0 <= i => junk(i)));
      && Place([b0], cuts[4], f4, true, junk) == ([b0, b4], Ok)
      && Place([b0, b4], cuts[2], f2, true, junk) == ([b0, b2], Ok)
      && Place([b0, b2], cuts[1], f1, true, junk) == ([Bucket(0, f0 + f1 + b2.buf)], Ok)
      && b2.End() == cuts[5]
  {
    CutRises(cuts, n);
    var b0, b4 := Bucket(0, f0), Bucket(cuts[4], f4);
    var b2 := Bucket(cuts[2], f2 + f4 + seq(cuts[4] - cuts[3], i requires 0 <= i => junk(i)));
    PlaceIndexUnique([b0], cuts[4], 1);
    PlaceIndexUnique([b0, b4], cuts[2], 1);
    PlaceIndexUnique([b0, b2], cuts[1], 0);
    assert [b0] + [b4] == [b0, b4];
    assert Merge([b0, b4], cuts[2], f2, junk) == [b0, b2];
    assert NextBucket([b0, b2], cuts[1], |f1|) == Some(b2);
    assert f1[0..|f1|] == f1;
    assert Merge([b0, b2], cuts[1], f1, junk) == [Bucket(0, f0 + f1 + b2.buf)];
  }

  lemma DeliverOneMore(id: Id, body: seq<byte>, cuts: seq<nat>, arrivals: seq<Arrival>, a: Arrival)
    requires Cut(cuts, |body|) && id.htype != NO_SHAKE && Arrivals(arrivals + [a], cuts)
    ensures Arrivals(arrivals, cuts)
    ensures Deliver(id, body, cuts, arrivals + [a]) == Arrive(Deliver(id, body, cuts, arrivals), id, body, cuts, a)
  {
    var all := arrivals + [a];
    assert all[..|all| - 1] == arrivals;
    forall i | 0 <= i < |arrivals|
      ensures arrivals[i].index + 1 < |cuts|
    {
      assert all[i] == arrivals[i];
    }
  }

  /** The arrivals so far leave one run from 0 to cuts[end] whose byte at position bad is wrong. */
  ghost predicate Poisoned(id: Id, body: seq<byte>, cuts: seq<nat>, arrivals: seq<Arrival>, end: nat, bad: nat)
  {
    && Cut(cuts, |body|) && id.htype != NO_SHAKE && Arrivals(arrivals, cuts)
    && end < |cuts| && bad < cuts[end] <= |body|
    && var m := Deliver(id, body, cuts, arrivals);
      if cuts[end] == |body| then m.Ready() && m.full.value[bad] != body[bad]
      else !m.Ready() && |m.buckets| == 1 && m.buckets[0].offset == 0 && |m.buckets[0].buf| == cuts[end]
           && m.buckets[0].buf[bad] != body[bad]
  }

  /** One more arrival, when the result of Place is known and does not complete the message. */
  lemma DeliverRuns(id: Id, body: seq<byte>, cuts: seq<nat>, arrivals: seq<Arrival>, a: Arrival, r: seq<Bucket>)
    requires Cut(cuts, |body|) && id.htype != NO_SHAKE && Arrivals(arrivals, cuts) && a.index + 1 < |cuts| && a.alloc
    requires cuts[a.index] <= cuts[a.index + 1] <= |body|
    requires var m := Deliver(id, body, cuts, arrivals);
      !m.Ready() && Place(m.buckets, cuts[a.index], Fragment(body, cuts, a.index), true, a.junk) == (r, Ok)
    requires r != []
    ensures Arrivals(arrivals + [a], cuts)
    ensures
      var m := Deliver(id, body, cuts, arrivals + [a]);
      if Total(r) == |body| then m.Ready() && r == [Bucket(0, m.full.value)] else !m.Ready() && m.buckets == r
  {
    DeliverOneMore(id, body, cuts, arrivals, a);
    ArriveShape(Deliver(id, body, cuts, arrivals), id, body, cuts, a, r);
  }

  lemma PlaceAfterRun(x: seq<byte>, f: seq<byte>, junk: Junk)
    requires x != [] && f != []
    ensures Place([Bucket(0, x)], |x|, f, true, junk) == ([Bucket(0, x + f)], Ok)
  {
    var b := [Bucket(0, x)];
    PlaceIndexUnique(b, |x|, 0);
    assert NextBucket(b, |x|, |f|) == None;
    assert Combined(b[0], None, |x|, f, junk).buf == x + f;
    assert !Contained(b, |x|, |f|) && MergeEnd(b, |x|, |f|) == 1;
    assert Merge(b, |x|, f, junk) == b[..0] + [Bucket(0, x + f)] + b[1..];
    assert b[..0] + [Bucket(0, x + f)] + b[1..] == [Bucket(0, x + f)];
  }

  lemma PoisonedNext(id: Id, body: seq<byte>, cuts: seq<nat>, arrivals: seq<Arrival>, end: nat, bad: nat, junk: Junk)
    requires Poisoned(id, body, cuts, arrivals, end, bad) && end + 1 < |cuts|
    ensures Arrivals(arrivals + [Arrival(end, true, junk)], cuts)
    ensures Poisoned(id, body, cuts, arrivals + [Arrival(end, true, junk)], end + 1, bad)
  {
    CutBounds(cuts, |body|, end);
    var b := Deliver(id, body, cuts, arrivals).buckets;
    var f := Fragment(body, cuts, end);
    var run := Bucket(0, b[0].buf + f);
    assert b == [Bucket(0, b[0].buf)];
    PlaceAfterRun(b[0].buf, f, junk);
    assert Total([run]) == cuts[end + 1];
    DeliverRuns(id, body, cuts, arrivals, Arrival(end, true, junk), [run]);
    assert run.buf[bad] == b[0].buf[bad];
  }

  lemma RunSums(x: Bucket, y: Bucket)
    ensures Total([x]) == |x.buf| && Total([x, y]) == |x.buf| + |y.buf|
  {
    assert [x, y][1..] == [y] && [y][1..] == [] && [x][1..] == [];
    assert Total([y]) == |y.buf|;
  }

  /** After the arrivals the message is incomplete and holds the runs b. */
  ghost predicate Runs(id: Id, body: seq<byte>, cuts: seq<nat>, arrivals: seq<Arrival>, b: seq<Bucket>)
  {
    && Cut(cuts, |body|) && id.htype != NO_SHAKE && Arrivals(arrivals, cuts)
    && !Deliver(id, body, cuts, arrivals).Ready() && Deliver(id, body, cuts, arrivals).buckets == b
  }

  lemma RunsOn(id: Id, body: seq<byte>, cuts: seq<nat>, arrivals: seq<Arrival>, index: nat, junk: Junk,
               b: seq<Bucket>, r: seq<Bucket>)
    requires Runs(id, body, cuts, arrivals, b) && index + 1 < |cuts| && cuts[index] <= cuts[index + 1] <= |body|
    requires Place(b, cuts[index], body[cuts[index]..cuts[index + 1]], true, junk) == (r, Ok)
    requires r != [] && Total(r) != |body|
    ensures Runs(id, body, cuts, arrivals + [Arrival(index, true, junk)], r)
  {
    DeliverRuns(id, body, cuts, arrivals, Arrival(index, true, junk), r);
  }

  /** Fragments 0, 4 and 2 leave bytes that look received up to cuts[5]. */
  lemma GapArrivals(id: Id, body: seq<byte>, cuts: seq<nat>, junk: Junk, b0: Bucket, b2: Bucket)
    returns (arrivals: seq<Arrival>)
    requires Cut(cuts, |body|) && |cuts| >= 6 && id.htype != NO_SHAKE
    requires cuts[2] <= cuts[3] <= cuts[4] <= cuts[5] <= |body| && 0 <= cuts[1] <= |body|
    requires b0 == Bucket(0, body[..cuts[1]])
    requires b2 == Bucket(cuts[2], body[cuts[2]..cuts[3]] + body[cuts[4]..cuts[5]]
                                   + seq(cuts[4] - cuts[3], i requires 0 <= i => junk(i)))
    ensures Runs(id, body, cuts, arrivals, [b0, b2]) && !Arrived(arrivals, 3) && AllAllocated(arrivals)
  {
    CutRises(cuts, |body|);
    var b4 := Bucket(cuts[4], body[cuts[4]..cuts[5]]);
    PlaceZeroFourTwoOne(cuts, |body|, b0.buf, body[cuts[1]..cuts[2]], body[cuts[2]..cuts[3]], b4.buf, junk);
    RunSums(b0, b4);
    RunSums(b0, b2);
    assert body[0..cuts[1]] == body[..cuts[1]];
    arrivals := [];
    RunsOn(id, body, cuts, arrivals, 0, junk, [], [b0]);
    arrivals := arrivals + [Arrival(0, true, junk)];
    RunsOn(id, body, cuts, arrivals, 4, junk, [b0], [b0, b4]);
    arrivals := arrivals + [Arrival(4, true, junk)];
    RunsOn(id, body, cuts, arrivals, 2, junk, [b0, b4], [b0, b2]);
    arrivals := arrivals + [Arrival(2, true, junk)];
  }

  /** Fragment 1 then joins everything into one run that ends in memory nobody wrote. */
  lemma PlaceOneLast(body: seq<byte>, cuts: seq<nat>, junk: Junk, b0: Bucket, b2: Bucket) returns (run: Bucket)
    requires Cut(cuts, |body|) && |cuts| >= 6
    requires cuts[1] < cuts[2] <= cuts[3] < cuts[4] <= cuts[5] <= |body|
    requires b0 == Bucket(0, body[..cuts[1]])
    requires b2 == Bucket(cuts[2], body[cuts[2]..cuts[3]] + body[cuts[4]..cuts[5]]
                                   + seq(cuts[4] - cuts[3], i requires 0 <= i => junk(i)))
    ensures Place([b0, b2], cuts[1], body[cuts[1]..cuts[2]], true, junk) == ([run], Ok)
    ensures run.offset == 0 && |run.buf| == cuts[5] == Total([run])
    ensures run.buf[cuts[5] - 1] == junk(cuts[4] - cuts[3] - 1)
  {
    PlaceZeroFourTwoOne(cuts, |body|, b0.buf, body[cuts[1]..cuts[2]], body[cuts[2]..cuts[3]],
      body[cuts[4]..cuts[5]], junk);
    run := Bucket(0, b0.buf + body[cuts[1]..cuts[2]] + b2.buf);
    RunSums(run, run);
  }

  lemma PoisonedStart(id: Id, body: seq<byte>, cuts: seq<nat>, bad: nat, junk: Junk) returns (arrivals: seq<Arrival>)
    requires Cut(cuts, |body|) && |cuts| >= 6 && id.htype != NO_SHAKE
    requires bad == cuts[5] - 1 < |body| && forall i :: junk(i) != body[bad]
    ensures Poisoned(id, body, cuts, arrivals, 5, bad) && !Arrived(arrivals, 3) && AllAllocated(arrivals)
  {
    CutRises(cuts, |body|);
    var gap := seq(cuts[4] - cuts[3], i requires 0 <= i => junk(i));
    var b0 := Bucket(0, body[..cuts[1]]);
    var b2 := Bucket(cuts[2], body[cuts[2]..cuts[3]] + body[cuts[4]..cuts[5]] + gap);
    var run := PlaceOneLast(body, cuts, junk, b0, b2);
    var before := GapArrivals(id, body, cuts, junk, b0, b2);
    arrivals := RunPoisons(id, body, cuts, before, junk, [b0, b2], run, bad);
  }

  /** The last arrival joins the runs, and the byte that was never received stays wrong. */
  lemma RunPoisons(id: Id, body: seq<byte>, cuts: seq<nat>, before: seq<Arrival>, junk: Junk, b: seq<Bucket>,
                   run: Bucket, bad: nat) returns (arrivals: seq<Arrival>)
    requires Runs(id, body, cuts, before, b) && |cuts| >= 6 && cuts[1] <= cuts[2] <= cuts[5] <= |body|
    requires !Arrived(before, 3) && AllAllocated(before)
    requires Place(b, cuts[1], body[cuts[1]..cuts[2]], true, junk) == ([run], Ok)
    requires run.offset == 0 && |run.buf| == cuts[5] == Total([run]) && bad < cuts[5] && run.buf[bad] != body[bad]
    ensures Poisoned(id, body, cuts, arrivals, 5, bad) && !Arrived(arrivals, 3) && AllAllocated(arrivals)
  {
    DeliverRuns(id, body, cuts, before, Arrival(1, true, junk), [run]);
    arrivals := before + [Arrival(1, true, junk)];
  }

  /**
   A message in five or more fragments: some order of arrival in which fragment 3 never arrives makes
   the message ready, and its bytes are not those that were sent.
   */
  lemma LongCutUnsafe(id: Id, body: seq<byte>, cuts: seq<nat>) returns (arrivals: seq<Arrival>)
    requires Cut(cuts, |body|) && |cuts| - 1 > MAX_SAFE_FRAGMENTS && id.htype != NO_SHAKE
    ensures Arrivals(arrivals, cuts) && !Arrived(arrivals, 3) && AllAllocated(arrivals)
    ensures var m := Deliver(id, body, cuts, arrivals); m.Ready() && m.full.value != body
  {
    CutRises(cuts, |body|);
    CutBounds(cuts, |body|, 4);
    var bad := cuts[5] - 1;
    var junk: Junk := _ => (if body[bad] == 0 then 1 else 0);
    arrivals := PoisonedStart(id, body, cuts, bad, junk);
    var end := 5;
    while end + 1 < |cuts|
      invariant 5 <= end < |cuts|
      invariant Poisoned(id, body, cuts, arrivals, end, bad) && !Arrived(arrivals, 3) && AllAllocated(arrivals)
    {
      PoisonedNext(id, body, cuts, arrivals, end, bad, junk);
      arrivals := arrivals + [Arrival(end, true, junk)];
      end := end + 1;
    }
  }

  /** Reassembly is right under every order of arrival if and only if the message has at most four fragments. */
  lemma SafeIffShort(id: Id, body: seq<byte>, cuts: seq<nat>)
    requires Cut(cuts, |body|) && id.htype != NO_SHAKE
    ensures
      (forall arrivals: seq<Arrival> :: Arrivals(arrivals, cuts) && Deliver(id, body, cuts, arrivals).Ready() ==>
         Deliver(id, body, cuts, arrivals).full.value == body)
      <==> |cuts| - 1 <= MAX_SAFE_FRAGMENTS
  {
    if |cuts| - 1 <= MAX_SAFE_FRAGMENTS {
      forall arrivals: seq<Arrival> | Arrivals(arrivals, cuts) && Deliver(id, body, cuts, arrivals).Ready()
        ensures Deliver(id, body, cuts, arrivals).full.value == body
      {
        AnyOrderHonest(id, body, cuts, arrivals);
      }
    } else {
      var arrivals := LongCutUnsafe(id, body, cuts);
    }
  }
}
