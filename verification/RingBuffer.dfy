/**
 The ring buffer of one end of a BIO pair as a value: two indices, no count.  wolfSSL_BIO_nread0, nread, nwrite,
 BIO_read, BIO_write and ctrl_pending in boot/src/bio.c.  The pair is in module BioPair.
 */
module RingBuffer {
  import opened Bytes

  /** Results of the original: UNSET for an end without a pair. */
  const ERROR: int := -1
  const UNSET: int := -2

  /** mem_buf_data, wrIdx and rdIdx; wrSz is the length of buf. */
  datatype Ring = Ring(buf: seq<byte>, wr: nat, rd: nat)

  predicate RingOK(r: Ring)
  {
    |r.buf| < 0x8000_0000 && r.wr <= |r.buf| && r.rd <= |r.buf| && (r.buf != [] ==> r.rd < |r.buf|)
  }

  /** Just wrapped by a write: nread0 is negative until more is written. */
  predicate Stalled(r: Ring) { r.wr == 0 < r.rd }

  /** How many bytes were written and not yet read. */
  function Length(r: Ring): (n: int)
  {
    if r.wr > r.rd then r.wr - r.rd else if r.rd == 0 then 0 else |r.buf| - r.rd + r.wr
  }

  /** The unread bytes, in the order they were written. */
  function Content(r: Ring): (c: seq<byte>)
    requires RingOK(r)
  {
    seq(Length(r), i requires 0 <= i < Length(r) =>
      if r.rd + i < |r.buf| then r.buf[r.rd + i] else r.buf[r.rd + i - |r.buf|])
  }

  ghost predicate Holds(r: Ring, c: seq<byte>)
    requires RingOK(r)
  {
    Content(r) == c
  }

  function Free(r: Ring): int
  {
    |r.buf| - Length(r)
  }

  /** The slot lies between the read and the write index, going around the end of the buffer. */
  predicate Unread(r: Ring, j: int)
  {
    && 0 <= j < |r.buf|
    && (if r.wr > r.rd then r.rd <= j < r.wr else r.rd > 0 && (r.rd <= j || j < r.wr))
  }

  predicate Within(a: nat, j: int, b: nat) { a <= j < b }

  function Slots(a: nat, b: nat): set<int>
  {
    set j | a <= j < b && Within(a, j, b)
  }

  lemma {:induction false} SlotCount(a: nat, b: nat)
    requires a <= b
    ensures |Slots(a, b)| == b - a
    decreases b
  {
    if a == b {
      assert Slots(a, b) == {};
    } else {
      SlotCount(a, b - 1);
      assert Slots(a, b) == Slots(a, b - 1) + {b - 1};
    }
  }

  function UnreadSlots(r: Ring): set<int>
  {
    set j | 0 <= j < |r.buf| && Unread(r, j)
  }

  lemma UnreadCount(r: Ring)
    requires RingOK(r)
    ensures |UnreadSlots(r)| == Length(r)
  {
    if r.wr > r.rd {
      assert UnreadSlots(r) == Slots(r.rd, r.wr);
      SlotCount(r.rd, r.wr);
    } else if r.rd > 0 {
      var high, low := Slots(r.rd, |r.buf|), Slots(0, r.wr);
      assert UnreadSlots(r) == high + low && high !! low;
      SlotCount(r.rd, |r.buf|);
      SlotCount(0, r.wr);
    } else {
      assert UnreadSlots(r) == {};
    }
  }

  /** Free counts the slots that are not unread. */
  lemma FreeCount(r: Ring)
    requires RingOK(r)
    ensures |Slots(0, |r.buf|) - UnreadSlots(r)| == Free(r)
  {
    UnreadCount(r);
    SlotCount(0, |r.buf|);
    assert forall j :: j in UnreadSlots(r) ==> Within(0, j, |r.buf|) && j in Slots(0, |r.buf|);
  }

  /** The slot of byte i of the content. */
  function SlotOf(r: Ring, i: nat): int
    requires r.buf != []
  {
    (r.rd + i) % |r.buf|
  }

  /** The content is what the unread slots hold, each exactly once, from the read index on and around. */
  lemma ContentIsUnread(r: Ring)
    requires RingOK(r) && r.buf != []
    ensures |Content(r)| == |UnreadSlots(r)| && Free(r) == |Slots(0, |r.buf|) - UnreadSlots(r)| >= 0
    ensures forall i :: 0 <= i < |Content(r)| ==> Unread(r, SlotOf(r, i)) && Content(r)[i] == r.buf[SlotOf(r, i)]
    ensures forall j :: Unread(r, j) ==> exists i :: 0 <= i < |Content(r)| && SlotOf(r, i) == j
  {
    UnreadCount(r);
    FreeCount(r);
    forall i | 0 <= i < |Content(r)|
      ensures Unread(r, SlotOf(r, i)) && Content(r)[i] == r.buf[SlotOf(r, i)]
    {
      Around(r.rd + i, |r.buf|);
    }
    forall j | Unread(r, j)
      ensures exists i :: 0 <= i < |Content(r)| && SlotOf(r, i) == j
    {
      var i := if r.rd <= j then j - r.rd else j + |r.buf| - r.rd;
      Around(r.rd + i, |r.buf|);
      assert 0 <= i < |Content(r)| && SlotOf(r, i) == j;
    }
  }

  lemma Around(k: nat, n: nat)
    requires n > 0 && k < 2 * n
    ensures k % n == if k < n then k else k - n
  {
  }

  // ---------- reading ----------

  /** wolfSSL_BIO_nread0 */
  function NRead0(r: Ring): int
  {
    if r.wr > 0 && r.rd >= r.wr then |r.buf| - r.rd else r.wr - r.rd
  }

  /** The index resets at the end of wolfSSL_BIO_nread. */
  function Rewound(r: Ring): Ring
  {
    var r1 := if r.rd == |r.buf| then r.(rd := 0, wr := if r.wr == |r.buf| then 0 else r.wr) else r;
    if r1.rd == r1.wr then r1.(rd := 0, wr := 0) else r1
  }

  /** wolfSSL_BIO_nread: the result, and the ring after; the bytes handed out start at the old read index. */
  function NRead(r: Ring, num: nat): (res: (int, Ring))
    requires RingOK(r)
    ensures 0 <= res.0 ==> res.0 <= num && r.rd + res.0 <= |r.buf|
    ensures RingOK(res.1) && res.1.buf == r.buf
  {
    if num == 0 then (0, r)
    else if NRead0(r) < 0 then (ERROR, r)
    else
      var sz := Min(num, NRead0(r));
      (sz, Rewound(r.(rd := r.rd + sz)))
  }

  datatype ReadResult = ReadResult(ret: int, bytes: seq<byte>, ring: Ring, retry: bool)

  datatype Attempt = Attempt(ret: int, bytes: seq<byte>, ring: Ring)

  /** The attempts of wolfSSL_BIO_BIO_read: two at most, the second because the content may wrap around. */
  function Attempts(r: Ring, len: nat): (res: Attempt)
    requires RingOK(r) && len > 0
    ensures RingOK(res.ring) && |res.bytes| <= len
  {
    var (sz1, r1) := NRead(r, len);
    if sz1 <= 0 then Attempt(sz1, [], r1)
    else if sz1 == len then Attempt(sz1, r.buf[r.rd..r.rd + sz1], r1)
    else ReadMore(r1, r.buf[r.rd..r.rd + sz1], len - sz1)
  }

  /** The second attempt, with the bytes of the first. */
  function ReadMore(r: Ring, first: seq<byte>, num: nat): (res: Attempt)
    requires RingOK(r)
    ensures RingOK(res.ring) && |first| <= |res.bytes| <= |first| + num
  {
    var (sz2, r2) := NRead(r, num);
    if sz2 > 0 then Attempt(|first| + sz2, first + r.buf[r.rd..r.rd + sz2], r2) else Attempt(|first|, first, r2)
  }

  /** wolfSSL_BIO_BIO_read */
  function Read(r: Ring, len: nat): (res: ReadResult)
    requires RingOK(r)
    ensures RingOK(res.ring) && |res.bytes| <= len
  {
    if len == 0 then ReadResult(0, [], r, false)
    else
      var x := Attempts(r, len);
      if x.ret == 0 then ReadResult(ERROR, x.bytes, x.ring, true) else ReadResult(x.ret, x.bytes, x.ring, false)
  }

  lemma NReadTakes(r: Ring, num: nat)
    requires RingOK(r) && num > 0 && !Stalled(r)
    ensures
      var (sz, r') := NRead(r, num);
      && 0 <= sz <= num && !Stalled(r')
      && r.buf[r.rd..r.rd + sz] + Content(r') == Content(r)
      && (sz < num ==> r'.rd == 0)
      && (sz == 0 ==> Content(r) == [] && r' == r)
  {
    var (sz, r') := NRead(r, num);
  }

  lemma NReadRest(r: Ring, num: nat)
    requires RingOK(r) && num > 0 && r.rd == 0
    ensures
      var (sz, r') := NRead(r, num);
      sz == Min(num, |Content(r)|)
  {
  }

  /** The bytes handed out and those still in the ring make up c. */
  ghost predicate Handed(bytes: seq<byte>, r: Ring, c: seq<byte>)
    requires RingOK(r)
  {
    bytes + Content(r) == c
  }

  lemma FirstRead(r: Ring, len: nat, sz1: nat, r1: Ring, first: seq<byte>, c: seq<byte>)
    requires RingOK(r) && len > 0 && !Stalled(r) && NRead(r, len) == (sz1, r1)
    requires first == r.buf[r.rd..r.rd + sz1] && c == Content(r)
    ensures |first| == sz1 <= len && Handed(first, r1, c) && |c| >= sz1 && !Stalled(r1)
    ensures (sz1 == 0 <==> c == []) && (sz1 == 0 ==> r1 == r) && (sz1 < len ==> r1.rd == 0)
  {
    NReadTakes(r, len);
    assert |first + Content(r1)| == |c|;
  }

  lemma SecondRead(r: Ring, first: seq<byte>, all: seq<byte>, num: nat)
    requires RingOK(r) && num > 0 && r.rd == 0 && Handed(first, r, all)
    ensures
      var res := ReadMore(r, first, num);
      && !Stalled(res.ring) && res.ret == Min(num + |first|, |all|) == |res.bytes|
      && Handed(res.bytes, res.ring, all)
  {
    NReadTakes(r, num);
    NReadRest(r, num);
    var (sz, r') := NRead(r, num);
    assert first + r.buf[r.rd..r.rd + sz] + Content(r') == first + (r.buf[r.rd..r.rd + sz] + Content(r'));
  }

  lemma AttemptsExact(r: Ring, len: nat)
    requires RingOK(r) && len > 0 && !Stalled(r)
    ensures
      var x, c := Attempts(r, len), Content(r);
      && !Stalled(x.ring) && Handed(x.bytes, x.ring, c) && x.ret == Min(len, |c|) == |x.bytes|
      && (c == [] ==> x.ring == r)
  {
    var (sz1, r1) := NRead(r, len);
    var first, c := r.buf[r.rd..r.rd + sz1], Content(r);
    FirstRead(r, len, sz1, r1, first, c);
    if sz1 == 0 {
      assert first == [] && Attempts(r, len) == Attempt(0, first, r1);
    } else if sz1 < len {
      SecondRead(r1, first, c, len - sz1);
      assert Attempts(r, len) == ReadMore(r1, first, len - sz1);
    } else {
      assert Attempts(r, len) == Attempt(len, first, r1);
    }
  }

  /** A read from a ring that is not stalled returns exactly min(len, content) bytes, in order. */
  lemma ReadExact(r: Ring, len: nat)
    requires RingOK(r) && len > 0 && !Stalled(r)
    ensures
      var res, c := Read(r, len), Content(r);
      && !Stalled(res.ring) && Handed(res.bytes, res.ring, c)
      && (c == [] ==> res == ReadResult(ERROR, [], r, true))
      && (c != [] ==> res.ret == Min(len, |c|) == |res.bytes| && !res.retry)
  {
    AttemptsExact(r, len);
  }

  /** A stalled ring keeps its bytes: the read fails, asks for no retry and changes nothing. */
  lemma ReadStalled(r: Ring, len: nat)
    requires RingOK(r) && len > 0 && Stalled(r)
    ensures Read(r, len) == ReadResult(ERROR, [], r, false) && Content(r) != []
  {
  }

  /** wolfSSL_BIO_ctrl_pending, a size_t of 64 bits. */
  function CtrlPending(r: Ring): word64
    requires RingOK(r)
  {
    if 0 < r.wr <= r.rd then |r.buf| - r.rd + r.wr else (r.wr - r.rd) % TWO64
  }

  lemma PendingIffNotStalled(r: Ring)
    requires RingOK(r)
    ensures CtrlPending(r) == |Content(r)| <==> !Stalled(r)
  {
  }

  // ---------- writing ----------

  /** wolfSSL_BIO_nwrite: the result, the place to copy to, and the ring with the index advanced. */
  function NWrite(r: Ring, num: nat): (res: (int, nat, Ring))
    requires RingOK(r)
    ensures 0 <= res.0 ==> res.0 <= num && res.1 + res.0 <= |r.buf|
    ensures RingOK(res.2) && res.2.buf == r.buf && res.2.rd == r.rd
  {
    if num == 0 then (0, r.wr, r)
    else if r.wr < r.rd then NWriteAt(r, r.wr, Min(num, r.rd - r.wr))
    else if r.rd > 0 && r.wr == r.rd then (ERROR, r.wr, r)
    else if |r.buf| - r.wr > 0 then NWriteAt(r, r.wr, Min(num, |r.buf| - r.wr))
    else if r.rd == 0 then (ERROR, r.wr, r)
    else NWriteAt(r, 0, Min(num, r.rd))
  }

  function NWriteAt(r: Ring, at: nat, sz: nat): (res: (int, nat, Ring))
    requires RingOK(r) && at + sz <= |r.buf|
    ensures RingOK(res.2) && res.2.buf == r.buf && res.2.rd == r.rd
  {
    var wr := at + sz;
    (sz, at, r.(wr := if wr == |r.buf| && r.rd > 0 then 0 else wr))
  }

  /** memcpy into the buffer. */
  function Overwrite(s: seq<byte>, at: nat, data: seq<byte>): (t: seq<byte>)
    requires at + |data| <= |s|
    ensures |t| == |s|
    ensures forall i :: 0 <= i < |s| ==> t[i] == if at <= i < at + |data| then data[i - at] else s[i]
  {
    seq(|s|, i requires 0 <= i < |s| => if at <= i < at + |data| then data[i - at] else s[i])
  }

  /** The ring after wolfSSL_BIO_nwrite and the copy that follows it. */
  function Filled(n: Ring, at: nat, data: seq<byte>): (r: Ring)
    requires RingOK(n) && at + |data| <= |n.buf|
    ensures RingOK(r) && r.wr == n.wr && r.rd == n.rd && |r.buf| == |n.buf|
  {
    n.(buf := Overwrite(n.buf, at, data))
  }

  datatype WriteResult = WriteResult(ret: int, ring: Ring, retry: bool)

  /** wolfSSL_BIO_BIO_write */
  function Write(r: Ring, data: seq<byte>): (res: WriteResult)
    requires RingOK(r)
    ensures RingOK(res.ring)
  {
    if data == [] then WriteResult(0, r, false)
    else
      var (sz1, at1, n1) := NWrite(r, |data|);
      if sz1 == 0 then WriteResult(ERROR, n1, true)
      else if sz1 < 0 then WriteResult(sz1, n1, false)
      else
        var r1 := Filled(n1, at1, data[..sz1]);
        if sz1 == |data| then WriteResult(sz1, r1, false)
        else WriteMore(r1, data, sz1)
  }

  /** The second attempt of wolfSSL_BIO_BIO_write. */
  function WriteMore(r: Ring, data: seq<byte>, sz1: nat): (res: WriteResult)
    requires RingOK(r) && sz1 < |data|
    ensures RingOK(res.ring)
  {
    var (sz2, at, n) := NWrite(r, |data| - sz1);
    if sz2 > 0 then
      WriteResult(sz1 + sz2, Filled(n, at, data[sz1..sz1 + sz2]), |data| - sz1 > sz2)
    else WriteResult(sz1, n, false)
  }

  lemma NWriteAdds(r: Ring, data: seq<byte>, num: nat)
    requires RingOK(r) && num > 0
    requires NWrite(r, num).0 >= 0 ==> |data| == NWrite(r, num).0
    ensures
      var (sz, at, n) := NWrite(r, num);
      && sz != 0 && (sz < 0 ==> Free(r) == 0 && n == r && sz == ERROR)
      && (sz > 0 ==> Free(r) > 0 && Holds(Filled(n, at, data), Content(r) + data))
  {
    var (sz, at, n) := NWrite(r, num);
    if sz > 0 {
      var r' := Filled(n, at, data);
      assert Length(r') == Length(r) + sz;
    }
  }

  /** A write accepts exactly min(len, capacity - content) bytes and appends them; a full ring is an error. */
  lemma WriteExact(r: Ring, data: seq<byte>)
    requires RingOK(r) && data != []
    ensures
      var res := Write(r, data);
      && (Free(r) == 0 ==> res.ret == ERROR && res.ring == r)
      && (Free(r) > 0 ==> res.ret == Min(|data|, Free(r)) && Holds(res.ring, Content(r) + data[..res.ret]))
  {
    var (sz1, at1, n1) := NWrite(r, |data|);
    NWriteAdds(r, if sz1 >= 0 then data[..sz1] else [], |data|);
    if 0 < sz1 < |data| {
      var r1 := Filled(n1, at1, data[..sz1]);
      PartialFills(r, |data|, r1);
      SecondAttempt(r1, data, sz1, Content(r));
    } else if sz1 > 0 {
      assert data[..sz1] == data;
    }
  }

  lemma PartialFills(r: Ring, num: nat, r1: Ring)
    requires RingOK(r) && 0 < NWrite(r, num).0 < num
    requires r1.rd == r.rd && r1.wr == NWrite(r, num).2.wr && |r1.buf| == |r.buf|
    ensures r1.wr == 0 || Free(r1) == 0
  {
  }

  lemma SecondAttempt(r: Ring, data: seq<byte>, sz1: nat, before: seq<byte>)
    requires RingOK(r) && 0 < sz1 < |data| && Holds(r, before + data[..sz1]) && (r.wr == 0 || Free(r) == 0)
    ensures
      var res := WriteMore(r, data, sz1);
      && res.ret == Min(|data|, |r.buf| - |before|)
      && Holds(res.ring, before + data[..res.ret])
  {
    SecondSize(r, |data| - sz1);
    var (sz2, at, n) := NWrite(r, |data| - sz1);
    if sz2 > 0 {
      var more := data[sz1..sz1 + sz2];
      NWriteAdds(r, more, |data| - sz1);
      AppendTwice(before, data, sz1, sz1 + sz2);
      assert WriteMore(r, data, sz1).ring == Filled(n, at, more);
    } else {
      assert WriteMore(r, data, sz1).ring == r;
    }
  }

  lemma SecondSize(r: Ring, num: nat)
    requires RingOK(r) && num > 0 && (r.wr == 0 || Free(r) == 0)
    ensures var (sz, at, n) := NWrite(r, num);
      if Free(r) == 0 then sz == ERROR && n == r else sz == Min(num, Free(r)) > 0
  {
  }

  lemma AppendTwice(before: seq<byte>, data: seq<byte>, i: nat, j: nat)
    requires i <= j <= |data|
    ensures before + data[..i] + data[i..j] == before + data[..j]
  {
  }

  /** When a write leaves the ring stalled: it filled the buffer up to its very end while earlier bytes are read. */
  lemma StallsIff(r: Ring, data: seq<byte>)
    requires RingOK(r)
    ensures Stalled(Write(r, data).ring) <==>
      if data == [] then Stalled(r) else 0 < r.rd < r.wr < |r.buf| && r.wr + |data| == |r.buf|
  {
  }
}
