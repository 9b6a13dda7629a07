/**
 The store that puts handshake fragments back together: DtlsMsgSet, DtlsMsgCombineFragBuckets and
 DtlsMsgAssembleCompleteMessage of boot/src/internal.c, which the DTLS 1.3 receiver feeds.

 A message keeps a list of buckets, each a run of bytes at an offset.  The list of buckets is a value
 here; the C list has one owner and no sharing.
 */
module Reassembly {
  import opened Bytes
  import opened Options

  const FRAG_POOL_SZ := 10
  const NO_SHAKE := 255

  datatype Bucket = Bucket(offset: nat, buf: seq<byte>) {
    function End(): nat { offset + |buf| }
  }

  /** What freshly allocated memory happens to hold. */
  type Junk = nat -> byte

  ghost predicate Sorted(b: seq<Bucket>)
  {
    forall i, j :: 0 <= i < j < |b| ==> b[i].End() < b[j].offset
  }

  ghost predicate Within(b: seq<Bucket>, sz: nat)
  {
    forall i :: 0 <= i < |b| ==> b[i].End() <= sz
  }

  function Total(b: seq<Bucket>): nat
  {
    if b == [] then 0 else |b[0].buf| + Total(b[1..])
  }

  /** The first bucket that ends at or after off; |b| if there is none. */
  function PlaceIndex(b: seq<Bucket>, off: nat): (i: nat)
    ensures i <= |b|
    ensures forall k :: 0 <= k < i ==> b[k].End() < off
    ensures i < |b| ==> off <= b[i].End()
  {
    if b == [] || off <= b[0].End() then 0
    else
      var i := PlaceIndex(b[1..], off);
      assert forall k :: 1 <= k < 1 + i ==> b[k] == b[1..][k - 1];
      1 + i
  }

  /** The first bucket at or after index j that ends beyond end. */
  function NextIndex(b: seq<Bucket>, j: nat, end: nat): (n: nat)
    requires j <= |b|
    ensures j <= n <= |b|
    ensures forall k :: j <= k < n ==> b[k].End() <= end
    ensures n < |b| ==> end < b[n].End()
    decreases |b| - j
  {
    if j == |b| || end < b[j].End() then j else NextIndex(b, j + 1, end)
  }

  /** Whether the data reaches the start of the following bucket. */
  predicate CombineNext(next: Option<Bucket>, end: nat)
  {
    next.Some? && end >= next.value.offset
  }

  /** The bucket that comes out of merging [off, off + |data|) with cur and perhaps next. */
  function Combined(cur: Bucket, next: Option<Bucket>, off: nat, data: seq<byte>, junk: Junk): Bucket
    requires off <= cur.End()
    requires !(off >= cur.offset && off + |data| <= cur.End())
    requires next.Some? ==> cur.End() < next.value.offset && off + |data| < next.value.End()
  {
    var end := off + |data|;
    if cur.offset < off then
      var upTo := if CombineNext(next, end) then next.value.offset else end;
      Bucket(cur.offset,
             cur.buf + data[cur.End() - off..upTo - off] + (if CombineNext(next, end) then next.value.buf else []))
    else if CombineNext(next, end) then
      Bucket(off, data[..next.value.offset - off] + next.value.buf)
    else if cur.End() <= end then
      Bucket(off, data)
    else if cur.offset <= end then
      // the bytes that follow data are taken from the start of cur
      Bucket(off, data + cur.buf[..cur.End() - end])
    else
      // data and cur do not touch; the tail is memory that was never written
      Bucket(off, data + cur.buf + seq(cur.offset - end, i requires 0 <= i => junk(i)))
  }

  function Overwrite(s: seq<byte>, at: nat, src: seq<byte>): (r: seq<byte>)
    requires at + |src| <= |s|
    ensures |r| == |s|
  {
    s[..at] + src + s[at + |src|..]
  }

  /** Reallocation: the old contents followed by whatever the new memory holds. */
  function Grow(s: seq<byte>, size: nat, junk: Junk): (r: seq<byte>)
    requires |s| <= size
    ensures |r| == size
  {
    s + seq(size - |s|, i requires 0 <= i => junk(i))
  }

  /** The branch of DtlsMsgCombineFragBuckets in which cur ends after the data. */
  method DataThenCur(buf: seq<byte>, cur: Bucket, off: nat, data: seq<byte>, junk: Junk) returns (r: seq<byte>)
    requires off < cur.offset && off + |data| < cur.End()
    requires buf == Grow(cur.buf, cur.End() - off, junk)
    ensures r == Combined(cur, None, off, data, junk).buf
  {
    var k := cur.End() - (off + |data|);
    r := Overwrite(buf, |data|, buf[..k]);
    r := Overwrite(r, 0, data);
    assert r == data + buf[..k];
  }

  /** The branch of DtlsMsgCombineFragBuckets in which cur starts before the data. */
  method CurThenData(buf: seq<byte>, cur: Bucket, off: nat, data: seq<byte>, upTo: nat, inPlace: bool)
    returns (r: seq<byte>)
    requires cur.offset < off <= cur.End() <= upTo <= off + |data|
    requires upTo <= cur.offset + |buf|
    requires inPlace ==> cur.buf == buf[..|cur.buf|]
    ensures r == cur.buf + data[cur.End() - off..upTo - off] + buf[upTo - cur.offset..]
  {
    r := buf;
    if !inPlace {
      r := Overwrite(r, 0, cur.buf);
    }
    assert r[..|cur.buf|] == cur.buf;
    assert r[|cur.buf|..] == buf[|cur.buf|..];
    r := Overwrite(r, |cur.buf|, data[cur.End() - off..upTo - off]);
  }

  /** The reallocation of DtlsMsgCombineFragBuckets when the data also reaches next: the larger bucket is kept. */
  method GrowChosen(cur: Bucket, next: Bucket, newOffset: nat, junk: Junk) returns (buf: seq<byte>, inPlace: bool)
    requires newOffset <= cur.offset && cur.End() < next.offset
    ensures newOffset + |buf| == next.End()
    ensures buf[next.offset - newOffset..] == next.buf
    ensures inPlace ==> cur.buf == buf[..|cur.buf|]
  {
    inPlace := |cur.buf| >= |next.buf|;
    buf := Grow(if inPlace then cur.buf else next.buf, next.End() - newOffset, junk);
    buf := Overwrite(buf, next.offset - newOffset, next.buf);
  }

  /** DtlsMsgCombineFragBuckets, buffer step by buffer step. */
  method CombineFragBuckets(cur: Bucket, next: Option<Bucket>, off: nat, data: seq<byte>, junk: Junk)
    returns (bucket: Bucket)
    requires off <= cur.End()
    requires !(off >= cur.offset && off + |data| <= cur.End())
    requires next.Some? ==> cur.End() < next.value.offset && off + |data| < next.value.End()
    ensures bucket == Combined(cur, next, off, data, junk)
  {
    var offsetEnd := off + |data|;
    var newOffset := if cur.offset < off then cur.offset else off;
    var newOffsetEnd, newBuf, inPlace;
    if next.Some? && offsetEnd >= next.value.offset {
      newBuf, inPlace := GrowChosen(cur, next.value, newOffset, junk);
      newOffsetEnd := next.value.offset;
    } else {
      newOffsetEnd := if cur.End() > offsetEnd then cur.End() else offsetEnd;
      newBuf, inPlace := Grow(cur.buf, newOffsetEnd - newOffset, junk), true;
    }
    if newOffset == off {
      if newOffsetEnd <= offsetEnd {
        var n := if |data| < newOffsetEnd - newOffset then |data| else newOffsetEnd - newOffset;
        newBuf := Overwrite(newBuf, 0, data[..n]);
      } else {
        newBuf := DataThenCur(newBuf, cur, off, data, junk);
      }
    } else {
      newBuf := CurThenData(newBuf, cur, off, data, newOffsetEnd, inPlace);
    }
    bucket := Bucket(newOffset, newBuf);
  }

  datatype Status = Ok | BadFuncArg | SequenceError | MemoryError | TooManyFragments

  /** A stored message; it is ready once its bytes have been assembled. */
  datatype Msg = Msg(epoch: nat, num: nat, htype: nat, sz: nat,
                     buckets: seq<Bucket>, received: nat, full: Option<seq<byte>>)
  {
    predicate Ready() { full.Some? }
  }

  /** DtlsMsgNew */
  function NewMsg(sz: nat): Msg { Msg(0, 0, NO_SHAKE, sz, [], 0, None) }

  predicate Contained(b: seq<Bucket>, off: nat, len: nat)
  {
    var i := PlaceIndex(b, off);
    i < |b| && off >= b[i].offset && off + len <= b[i].End()
  }

  function NextBucket(b: seq<Bucket>, off: nat, len: nat): Option<Bucket>
    requires PlaceIndex(b, off) < |b|
  {
    var j := NextIndex(b, PlaceIndex(b, off) + 1, off + len);
    if j < |b| then Some(b[j]) else None
  }

  function Merge(b: seq<Bucket>, off: nat, data: seq<byte>, junk: Junk): seq<Bucket>
    requires Sorted(b) && PlaceIndex(b, off) < |b| && !Contained(b, off, |data|)
  {
    var i := PlaceIndex(b, off);
    var next := NextBucket(b, off, |data|);
    b[..i] + [Combined(b[i], next, off, data, junk)] + b[MergeEnd(b, off, |data|)..]
  }

  /** The list after a fragment has been offered; alloc says whether memory could be had. */
  function Place(b: seq<Bucket>, off: nat, data: seq<byte>, alloc: bool, junk: Junk): (seq<Bucket>, Status)
    requires Sorted(b)
  {
    var i := PlaceIndex(b, off);
    if b == [] then
      if alloc then ([Bucket(off, data)], Ok) else (b, MemoryError)
    else if Contained(b, off, |data|) then (b, Ok)
    else if i == |b| then
      if |b| >= FRAG_POOL_SZ then (b, TooManyFragments)
      else (if alloc then b + [Bucket(off, data)] else b, Ok)
    else if i == 0 && off + |data| < b[0].offset then
      if |b| >= FRAG_POOL_SZ then (b, TooManyFragments)
      else (if alloc then [Bucket(off, data)] + b else b, Ok)
    else
      (if alloc then Merge(b, off, data, junk) else b, Ok)
  }

  /** DtlsMsgAssembleCompleteMessage */
  function Assemble(m: Msg): Msg
  {
    if |m.buckets| != 1 || m.buckets[0].offset != 0 || |m.buckets[0].buf| != m.sz then m
    else m.(full := Some(m.buckets[0].buf), buckets := [])
  }

  /** What the list after a fragment means for the message: the byte count, and the assembly when all is there. */
  function WithBuckets(m: Msg, b: seq<Bucket>, st: Status): (Msg, Status)
  {
    if st != Ok then (m, st)
    else
      var m1 := m.(buckets := b, received := Total(b));
      (if m1.received == m1.sz then Assemble(m1) else m1, Ok)
  }

  function MsgAfterSet(m: Msg, epoch: nat, num: nat, htype: nat, total: nat, off: nat, data: seq<byte>,
                       alloc: bool, junk: Junk): (Msg, Status)
    requires Sorted(m.buckets)
  {
    if m.sz != total || off + |data| > total then (m, BadFuncArg)
    else if m.Ready() then (m, Ok)
    else if m.htype != NO_SHAKE && (m.htype != htype || m.epoch != epoch || m.num != num) then (m, SequenceError)
    else
      var (b, st) := Place(m.buckets, off, data, alloc, junk);
      WithBuckets(m.(epoch := epoch, num := num, htype := htype), b, st)
  }

  lemma {:induction false} TotalConcat(x: seq<Bucket>, y: seq<Bucket>)
    ensures Total(x + y) == Total(x) + Total(y)
  {
    if x == [] {
      assert x + y == y;
    } else {
      assert (x + y)[1..] == x[1..] + y;
      TotalConcat(x[1..], y);
    }
  }

  lemma TotalSplit(b: seq<Bucket>, i: nat, j: nat)
    requires i <= j <= |b|
    ensures Total(b) == Total(b[..i]) + Total(b[i..j]) + Total(b[j..])
  {
    assert b == b[..i] + b[i..];
    assert b[i..] == b[i..j] + b[j..];
    TotalConcat(b[..i], b[i..]);
    TotalConcat(b[i..j], b[j..]);
  }

  /** The search and the branches of DtlsMsgSet over the list of buckets, with the byte count. */
  method PlaceFragment(b: seq<Bucket>, off: nat, data: seq<byte>, alloc: bool, junk: Junk, bytes: nat)
    returns (r: seq<Bucket>, received: nat, status: Status)
    requires Sorted(b) && bytes == Total(b)
    ensures (r, status) == Place(b, off, data, alloc, junk) && received == Total(r)
  {
    var fragEnd := off + |data|;
    r, received, status := b, bytes, Ok;
    if b == [] {
      if !alloc {
        return r, received, MemoryError;
      }
      return [Bucket(off, data)], |data|, Ok;
    }
    var i := 0;
    while i < |b| && !(off >= b[i].offset && fragEnd <= b[i].End()) && !(off <= b[i].End())
      invariant i <= |b|
      invariant forall k :: 0 <= k < i ==> b[k].End() < off
    {
      i := i + 1;
    }
    PlaceIndexUnique(b, off, i);
    if i < |b| && off >= b[i].offset && fragEnd <= b[i].End() {
      // already stored
    } else if i == |b| {
      if |b| >= FRAG_POOL_SZ {
        return r, received, TooManyFragments;
      }
      if alloc {
        TotalConcat(b, [Bucket(off, data)]);
        r, received := b + [Bucket(off, data)], bytes + |data|;
      }
    } else if i == 0 && fragEnd < b[0].offset {
      if |b| >= FRAG_POOL_SZ {
        return r, received, TooManyFragments;
      }
      if alloc {
        TotalConcat([Bucket(off, data)], b);
        r, received := [Bucket(off, data)] + b, bytes + |data|;
      }
    } else if alloc {
      r, received := MergeBuckets(b, i, off, data, junk, bytes);
    }
  }

  /** DtlsMsgSet */
  method DtlsMsgSet(m: Msg, epoch: nat, num: nat, htype: nat, total: nat, off: nat, data: seq<byte>,
                    alloc: bool, junk: Junk)
    returns (r: Msg, status: Status)
    requires Sorted(m.buckets) && (!m.Ready() ==> m.received == Total(m.buckets))
    ensures (r, status) == MsgAfterSet(m, epoch, num, htype, total, off, data, alloc, junk)
  {
    if m.sz != total || off + |data| > total {
      return m, BadFuncArg;
    }
    if m.Ready() {
      return m, Ok;
    }
    if m.htype != NO_SHAKE && (m.htype != htype || m.epoch != epoch || m.num != num) {
      return m, SequenceError;
    }
    r := m.(epoch := epoch, num := num, htype := htype);
    var b, received;
    b, received, status := PlaceFragment(m.buckets, off, data, alloc, junk, m.received);
    if status == Ok {
      r := r.(buckets := b, received := received);
      if r.received == r.sz {
        r := Assemble(r);
      }
    }
  }

  lemma PlaceIndexUnique(b: seq<Bucket>, off: nat, i: nat)
    requires i <= |b|
    requires forall k :: 0 <= k < i ==> b[k].End() < off
    requires i < |b| ==> off <= b[i].End()
    ensures PlaceIndex(b, off) == i
  {
  }

  /** The buckets that merging swallows: indices i up to MergeEnd. */
  function MergeEnd(b: seq<Bucket>, off: nat, len: nat): (n: nat)
    requires PlaceIndex(b, off) < |b|
    ensures PlaceIndex(b, off) < n <= |b|
  {
    var j := NextIndex(b, PlaceIndex(b, off) + 1, off + len);
    if CombineNext(NextBucket(b, off, len), off + len) then j + 1 else j
  }

  lemma TotalReplace(b: seq<Bucket>, i: nat, n: nat, bucket: Bucket)
    requires i <= n <= |b|
    ensures Total(b[..i] + [bucket] + b[n..]) == Total(b) - Total(b[i..n]) + |bucket.buf|
  {
    TotalSplit(b, i, n);
    TotalConcat(b[..i] + [bucket], b[n..]);
    TotalConcat(b[..i], [bucket]);
  }

  /** The last branch of DtlsMsgSet, with the byte accounting of DtlsMsgCombineFragBuckets. */
  method MergeBuckets(b: seq<Bucket>, i: nat, off: nat, data: seq<byte>, junk: Junk, bytes: nat)
    returns (r: seq<Bucket>, received: nat)
    requires Sorted(b) && i < |b| && i == PlaceIndex(b, off) && !Contained(b, off, |data|)
    requires bytes == Total(b)
    ensures r == Merge(b, off, data, junk)
    ensures received == Total(r)
  {
    var next, rest := FindNext(b, i, off, |data|);
    var bucket := CombineFragBuckets(b[i], next, off, data, junk);
    var overlap := SumOverlap(b, i, rest);
    r := b[..i] + [bucket] + b[rest..];
    TotalReplace(b, i, rest, bucket);
    received := bytes + |bucket.buf| - overlap;
  }

  method FindNext(b: seq<Bucket>, i: nat, off: nat, len: nat) returns (next: Option<Bucket>, rest: nat)
    requires i < |b| && i == PlaceIndex(b, off)
    ensures next == NextBucket(b, off, len)
    ensures rest == MergeEnd(b, off, len)
  {
    var end := off + len;
    var j := i + 1;
    while j < |b| && b[j].End() <= end
      invariant i + 1 <= j <= |b|
      invariant NextIndex(b, i + 1, end) == NextIndex(b, j, end)
    {
      j := j + 1;
    }
    assert NextIndex(b, i + 1, end) == j;
    next := if j < |b| then Some(b[j]) else None;
    rest := if CombineNext(next, end) then j + 1 else j;
  }

  method SumOverlap(b: seq<Bucket>, i: nat, n: nat) returns (overlap: nat)
    requires i < n <= |b|
    ensures overlap == Total(b[i..n])
  {
    overlap := |b[i].buf|;
    assert b[i..i + 1] == [b[i]];
    var k := i + 1;
    while k < n
      invariant i + 1 <= k <= n
      invariant overlap == Total(b[i..k])
    {
      assert b[i..k + 1] == b[i..k] + [b[k]];
      TotalConcat(b[i..k], [b[k]]);
      overlap := overlap + |b[k].buf|;
      k := k + 1;
    }
  }
}
