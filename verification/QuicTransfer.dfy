/**
 Handing queued QUIC messages to TLS as records, and taking record headers off again: quic_record_transfer,
 wolfSSL_quic_receive and the loop of wolfSSL_quic_send_internal in boot/src/quic.c, as values.
 */
module QuicTransfer {
  import opened Bytes
  import opened Sequences
  import opened QuicFrames

  const RECORD_HEADER_SZ := 5
  const MAX_RECORD_SIZE := 16384
  const APPLICATION_DATA: byte := 23
  const HANDSHAKE: byte := 22

  /** add_rec_header */
  function RecHeader(level: Level, length: nat): (h: seq<byte>)
    requires length < 0x1_0000
    ensures |h| == RECORD_HEADER_SZ
  {
    [if level == EarlyData then APPLICATION_DATA else HANDSHAKE, 3, 3] + Put16(length)
  }

  /** The length in every header of a record: taken from the whole record, not from what is left of it. */
  function HeaderLength(r: Rec): nat { Min(|r.data|, MAX_RECORD_SIZE) }

  predicate RecOK(r: Rec) { r.start < |r.data| }

  predicate Done(r: Rec) { r.start >= |r.data| }

  // ---------- one record ----------

  datatype Transfer = Transfer(n: int, bytes: seq<byte>, rec: Rec)

  /** quic_record_transfer into a buffer of sz bytes; n is -1 when a header would not fit. */
  function TransferRec(r: Rec, sz: nat): (t: Transfer)
    requires RecOK(r)
    ensures t.n >= 0 ==> t.n == |t.bytes| <= sz && t.n > 0
    ensures t.rec.data == r.data && t.rec.level == r.level && r.start <= t.rec.start <= |r.data|
  {
    if sz < RECORD_HEADER_SZ then Transfer(-1, [], r)
    else
      var opens := r.hdrRemain == 0;
      var header := if opens then RecHeader(r.level, HeaderLength(r)) else [];
      var open := if opens then r.(hdrRemain := HeaderLength(r)) else r;
      var n := Min(Min(|r.data| - r.start, open.hdrRemain), sz - |header|);
      Transfer(|header| + n, header + r.data[r.start..r.start + n],
               open.(start := r.start + n, hdrRemain := open.hdrRemain - n))
  }

  /** Everything the record will still give out, however it is asked for. */
  function Remaining(r: Rec): seq<byte>
    requires r.start <= |r.data|
    decreases |r.data| - r.start, if r.hdrRemain == 0 then 1 else 0
  {
    if r.start == |r.data| then []
    else if r.hdrRemain == 0 then RecHeader(r.level, HeaderLength(r)) + Remaining(r.(hdrRemain := HeaderLength(r)))
    else
      var n := Min(|r.data| - r.start, r.hdrRemain);
      r.data[r.start..r.start + n] + Remaining(r.(start := r.start + n, hdrRemain := r.hdrRemain - n))
  }

  lemma {:induction false} RemainingCut(r: Rec, n: nat)
    requires RecOK(r) && n <= |r.data| - r.start && n <= r.hdrRemain
    ensures Remaining(r) ==
            r.data[r.start..r.start + n] + Remaining(r.(start := r.start + n, hdrRemain := r.hdrRemain - n))
  {
    var m := Min(|r.data| - r.start, r.hdrRemain);
    var r' := r.(start := r.start + n, hdrRemain := r.hdrRemain - n);
    if n == 0 {
      assert r' == r && r.data[r.start..r.start] == [];
    } else {
      var end := RemainingStep(r);
      if n < m {
        var end' := RemainingStep(r');
        CutPieces(r.data, r.start, n, m, Remaining(end));
      }
    }
  }

  /** The bytes up to the next header, and what is behind them. */
  lemma RemainingStep(r: Rec) returns (end: Rec)
    requires r.start < |r.data| && r.hdrRemain > 0
    ensures
      var n := Min(|r.data| - r.start, r.hdrRemain);
      && end == r.(start := r.start + n, hdrRemain := r.hdrRemain - n)
      && Remaining(r) == r.data[r.start..r.start + n] + Remaining(end)
  {
    var n := Min(|r.data| - r.start, r.hdrRemain);
    end := r.(start := r.start + n, hdrRemain := r.hdrRemain - n);
  }

  lemma CutPieces(data: seq<byte>, at: nat, n: nat, m: nat, rest: seq<byte>)
    requires n <= m && at + m <= |data|
    ensures data[at..at + m] + rest == data[at..at + n] + (data[at + n..at + m] + rest)
  {
    ConcatSlices(data, at, at + n, at + m);
  }

  lemma Chain(whole: seq<byte>, x: seq<byte>, mid: seq<byte>, y: seq<byte>, z: seq<byte>)
    requires whole == x + mid && mid == y + z
    ensures whole == (x + y) + z
  {
  }

  lemma TransferOpen(r: Rec, sz: nat, open: Rec)
    requires RecOK(r) && sz >= RECORD_HEADER_SZ && r.hdrRemain == 0 && open == r.(hdrRemain := HeaderLength(r))
    ensures var t := TransferRec(r, sz); Remaining(r) == t.bytes + Remaining(t.rec)
  {
    var t := TransferRec(r, sz);
    var header, body := RecHeader(r.level, HeaderLength(r)), r.data[r.start..t.rec.start];
    RemainingCut(open, t.rec.start - r.start);
    Chain(Remaining(r), header, Remaining(open), body, Remaining(t.rec));
  }

  /** Behind a header, a transfer hands out bytes of the record. */
  lemma BodyTransferred(r: Rec, sz: nat) returns (n: nat)
    requires RecOK(r) && r.hdrRemain > 0 && sz >= RECORD_HEADER_SZ
    ensures n <= |r.data| - r.start && n <= r.hdrRemain
    ensures TransferRec(r, sz).bytes == r.data[r.start..r.start + n]
    ensures TransferRec(r, sz).rec == r.(start := r.start + n, hdrRemain := r.hdrRemain - n)
  {
    n := Min(Min(|r.data| - r.start, r.hdrRemain), sz);
    var body := r.data[r.start..r.start + n];
    assert [] + body == body;
  }

  lemma TransferBody(r: Rec, sz: nat)
    requires RecOK(r) && r.hdrRemain > 0 && TransferRec(r, sz).n >= 0
    ensures var t := TransferRec(r, sz); Remaining(r) == t.bytes + Remaining(t.rec)
  {
    var n := BodyTransferred(r, sz);
    RemainingCut(r, n);
  }

  lemma TransferTakes(r: Rec, sz: nat)
    requires RecOK(r) && TransferRec(r, sz).n >= 0
    ensures var t := TransferRec(r, sz); Remaining(r) == t.bytes + Remaining(t.rec)
  {
    if r.hdrRemain == 0 {
      TransferOpen(r, sz, r.(hdrRemain := HeaderLength(r)));
    } else {
      TransferBody(r, sz);
    }
  }

  // ---------- the queue ----------

  predicate QueueOK(queue: seq<Rec>)
  {
    forall i :: 0 <= i < |queue| ==> RecOK(queue[i])
  }

  function Stream(queue: seq<Rec>): seq<byte>
    requires QueueOK(queue)
  {
    if queue == [] then [] else Remaining(queue[0]) + Stream(queue[1..])
  }

  /** The queue after its head was transferred from. */
  function AfterHead(queue: seq<Rec>, head: Rec): seq<Rec>
    requires queue != []
  {
    if Done(head) then queue[1..] else [head] + queue[1..]
  }

  /** Giving out bytes turns one queue into another. */
  ghost predicate Gives(queue: seq<Rec>, bytes: seq<byte>, after: seq<Rec>)
    requires QueueOK(queue)
  {
    QueueOK(after) && Stream(queue) == bytes + Stream(after)
  }

  lemma GivesThen(queue: seq<Rec>, x: seq<byte>, mid: seq<Rec>, y: seq<byte>, after: seq<Rec>)
    requires QueueOK(queue) && Gives(queue, x, mid) && Gives(mid, y, after)
    ensures Gives(queue, x + y, after)
  {
    Chain(Stream(queue), x, Stream(mid), y, Stream(after));
  }

  lemma GivesNothing(queue: seq<Rec>)
    requires QueueOK(queue)
    ensures Gives(queue, [], queue)
  {
  }

  lemma HeadTaken(queue: seq<Rec>, sz: nat, t: Transfer, next: seq<Rec>)
    requires QueueOK(queue) && queue != [] && t == TransferRec(queue[0], sz) && t.n >= 0
             && next == AfterHead(queue, t.rec)
    ensures Gives(queue, t.bytes, next)
  {
    TransferTakes(queue[0], sz);
    HeadReplaced(queue, t.bytes, t.rec);
  }

  lemma HeadReplaced(queue: seq<Rec>, bytes: seq<byte>, head: Rec)
    requires QueueOK(queue) && queue != [] && head.start <= |head.data|
    requires Remaining(queue[0]) == bytes + Remaining(head)
    ensures Gives(queue, bytes, AfterHead(queue, head))
  {
    Regroup(bytes, Remaining(head), Stream(queue[1..]));
    assert Done(head) ==> Remaining(head) + Stream(queue[1..]) == Stream(queue[1..]);
    assert ([head] + queue[1..])[1..] == queue[1..];
  }

  datatype ReadOutcome = Fatal | WantRead | Got(bytes: seq<byte>)

  /**
   A call of wolfSSL_quic_receive for size bytes.  It fills the buffer or empties the queue, wants more when there
   was nothing, and fails when what is left of the buffer cannot hold a header; the bytes copied before that are
   lost to the caller.
   */
  ghost predicate Reads(before: seq<Rec>, size: nat, res: ReadOutcome, after: seq<Rec>)
  {
    && QueueOK(before)
    && match res
       case Got(bytes) => Gives(before, bytes, after) && |bytes| <= size && (|bytes| == size || after == [])
       case WantRead => size > 0 && before == [] == after
       case Fatal => after != [] && exists lost :: Gives(before, lost, after) && 0 < size - |lost| < RECORD_HEADER_SZ
  }

  function Returned(results: seq<ReadOutcome>): seq<byte>
  {
    if results == [] then []
    else
      var last := results[|results| - 1];
      Returned(results[..|results| - 1]) + if last.Got? then last.bytes else []
  }

  /** Calls one after the other, without an error; queues[k] is the queue before call k. */
  ghost predicate ReadRun(queues: seq<seq<Rec>>, sizes: seq<nat>, results: seq<ReadOutcome>)
  {
    && |queues| == |sizes| + 1 == |results| + 1
    && forall k :: 0 <= k < |results| ==> results[k] != Fatal && Reads(queues[k], sizes[k], results[k], queues[k + 1])
  }

  /** For any request sizes, the bytes given out are a prefix of the stream, and the rest is still to come. */
  lemma {:induction false} ReturnedIsPrefix(queues: seq<seq<Rec>>, sizes: seq<nat>, results: seq<ReadOutcome>)
    requires ReadRun(queues, sizes, results) && QueueOK(queues[0])
    ensures Gives(queues[0], Returned(results), queues[|results|])
    decreases |results|
  {
    if results == [] {
      GivesNothing(queues[0]);
    } else {
      var n := |results| - 1;
      ReturnedIsPrefix(queues[..n + 1], sizes[..n], results[..n]);
      assert Reads(queues[n], sizes[n], results[n], queues[n + 1]);
      if results[n] == WantRead {
        GivesNothing(queues[n]);
      }
      GivesThen(queues[0], Returned(results[..n]), queues[n],
                if results[n].Got? then results[n].bytes else [], queues[n + 1]);
    }
  }

  // ---------- what the stream is ----------

  /** One header with the full length, then the message: for records that fit one TLS record. */
  lemma OneHeader(level: Level, data: seq<byte>)
    requires data != [] && |data| <= MAX_RECORD_SIZE
    ensures Remaining(NewRec(level, data)) == RecHeader(level, |data|) + data
  {
    var open := NewRec(level, data).(hdrRemain := |data|);
    assert data[0..|data|] == data;
    assert Remaining(open) == data[0..|data|] + Remaining(open.(start := |data|, hdrRemain := 0));
  }

  function Framed(queue: seq<Rec>): seq<byte>
    requires forall i :: 0 <= i < |queue| ==> |queue[i].data| < 0x1_0000
  {
    if queue == [] then [] else RecHeader(queue[0].level, |queue[0].data|) + queue[0].data + Framed(queue[1..])
  }

  predicate Unread(queue: seq<Rec>)
  {
    forall i :: 0 <= i < |queue| ==>
      queue[i] == NewRec(queue[i].level, queue[i].data) && queue[i].data != [] && |queue[i].data| <= MAX_RECORD_SIZE
  }

  lemma {:induction false} StreamIsFramed(queue: seq<Rec>)
    requires Unread(queue)
    ensures QueueOK(queue) && Stream(queue) == Framed(queue)
  {
    if queue != [] {
      OneHeader(queue[0].level, queue[0].data);
      StreamIsFramed(queue[1..]);
    }
  }

  // ---------- taking the headers off ----------

  /** output_rec_remain, and the bytes handed to add_handshake_data so far. */
  datatype Out = Out(remain: nat, forwarded: seq<byte>) | HeaderCut

  /** The loop of wolfSSL_quic_send_internal over output; HeaderCut when a header is split between calls. */
  function Strip(remain: nat, output: seq<byte>): (o: Out)
    decreases |output|
  {
    if output == [] then Out(remain, [])
    else if remain > 0 then
      var n := Min(remain, |output|);
      var rest := Strip(remain - n, output[n..]);
      if rest.HeaderCut? then HeaderCut else Out(rest.remain, output[..n] + rest.forwarded)
    else if |output| < RECORD_HEADER_SZ then HeaderCut
    else Strip(Get16(output[3..5]), output[RECORD_HEADER_SZ..])
  }

  lemma StripHeader(level: Level, length: nat, more: seq<byte>)
    requires length < 0x1_0000
    ensures Strip(0, RecHeader(level, length) + more) == Strip(length, more)
  {
    var h := RecHeader(level, length);
    assert (h + more)[RECORD_HEADER_SZ..] == more;
    assert (h + more)[3..5] == Put16(length);
  }

  lemma StripBody(remain: nat, body: seq<byte>, more: seq<byte>)
    requires |body| == remain > 0
    ensures
      var rest := Strip(0, more);
      Strip(remain, body + more) == if rest.HeaderCut? then HeaderCut else Out(rest.remain, body + rest.forwarded)
  {
    assert (body + more)[..remain] == body && (body + more)[remain..] == more;
  }

  function Bodies(queue: seq<Rec>): seq<byte>
  {
    if queue == [] then [] else queue[0].data + Bodies(queue[1..])
  }

  /** Stripping such framing forwards exactly the bodies. */
  lemma {:induction false} StripFramed(queue: seq<Rec>)
    requires Unread(queue)
    ensures Strip(0, Framed(queue)) == Out(0, Bodies(queue))
  {
    if queue != [] {
      var body, more := queue[0].data, Framed(queue[1..]);
      StripFramed(queue[1..]);
      Regroup(RecHeader(queue[0].level, |body|), body, more);
      StripHeader(queue[0].level, |body|, body + more);
      StripBody(|body|, body, more);
    }
  }

  // ---------- records that need several headers ----------

  /** What the last header of a long record announces beyond its end. */
  function Excess(n: nat): nat { (16384 - n % 16384) % 16384 }

  lemma ShortExcess(n: nat)
    requires 0 < n <= 16384
    ensures Excess(n) == 16384 - n
  {
  }

  lemma ExcessStep(n: nat)
    requires n > 16384
    ensures Excess(n) == Excess(n - 16384)
  {
    assert n % 16384 == (n - 16384) % 16384;
  }

  /** The bodies of a long record come out right, but its last header leaves a remainder open. */
  lemma {:induction false} StripLong(r: Rec)
    requires RecOK(r) && |r.data| > MAX_RECORD_SIZE && r.hdrRemain == 0
    ensures Strip(0, Remaining(r)) == Out(Excess(|r.data| - r.start), r.data[r.start..])
    decreases |r.data| - r.start
  {
    var left := |r.data| - r.start;
    var open := r.(hdrRemain := MAX_RECORD_SIZE);
    StripHeader(r.level, MAX_RECORD_SIZE, Remaining(open));
    if left <= MAX_RECORD_SIZE {
      ShortExcess(left);
      LastBody(open);
      StripLast(MAX_RECORD_SIZE, r.data[r.start..]);
    } else {
      ExcessStep(left);
      var end := r.start + MAX_RECORD_SIZE;
      var next := r.(start := end);
      StripLong(next);
      StripBody(MAX_RECORD_SIZE, r.data[r.start..end], Remaining(next));
      ConcatSlices(r.data, r.start, end, |r.data|);
      assert r.data[end..|r.data|] == r.data[end..] && r.data[r.start..|r.data|] == r.data[r.start..];
    }
  }

  lemma LastBody(r: Rec)
    requires RecOK(r) && |r.data| - r.start <= r.hdrRemain
    ensures Remaining(r) == r.data[r.start..]
  {
    var n := |r.data| - r.start;
    assert Remaining(r) ==
      r.data[r.start..r.start + n] + Remaining(r.(start := r.start + n, hdrRemain := r.hdrRemain - n));
  }

  lemma StripLast(remain: nat, body: seq<byte>)
    requires 0 < |body| <= remain
    ensures Strip(remain, body) == Out(remain - |body|, body)
  {
    assert body[..|body|] == body && body[|body|..] == [];
    assert Strip(remain - |body|, []) == Out(remain - |body|, []);
    assert body + [] == body;
  }

  /** One record comes through exactly when it fits one TLS record or fills the last of several. */
  lemma FramingRightIff(level: Level, data: seq<byte>)
    requires data != []
    ensures
      var r := NewRec(level, data);
      Strip(0, Remaining(r)) == Out(0, data) <==> |data| <= MAX_RECORD_SIZE || |data| % MAX_RECORD_SIZE == 0
  {
    var r := NewRec(level, data);
    if |data| <= MAX_RECORD_SIZE {
      OneHeader(level, data);
      StripHeader(level, |data|, data);
      assert data + [] == data;
      StripBody(|data|, data, []);
    } else {
      StripLong(r);
      assert data[0..] == data;
    }
  }

  // ---------- several calls ----------

  /** Calls that split bodies, but not headers, forward the same bytes as one call. */
  lemma {:induction false} StripInPieces(remain: nat, a: seq<byte>, b: seq<byte>)
    requires Strip(remain, a).Out?
    ensures
      var first := Strip(remain, a);
      var second := Strip(first.remain, b);
      Strip(remain, a + b) ==
        if second.HeaderCut? then HeaderCut else Out(second.remain, first.forwarded + second.forwarded)
    decreases |a|
  {
    if a == [] {
      assert a + b == b;
      var second := Strip(remain, b);
      assert second.Out? ==> [] + second.forwarded == second.forwarded;
    } else if remain > 0 {
      SplitBody(remain, a, b);
    } else {
      assert (a + b)[3..5] == a[3..5] && (a + b)[RECORD_HEADER_SZ..] == a[RECORD_HEADER_SZ..] + b;
      StripInPieces(Get16(a[3..5]), a[RECORD_HEADER_SZ..], b);
    }
  }

  lemma {:induction false} SplitBody(remain: nat, a: seq<byte>, b: seq<byte>)
    requires a != [] && remain > 0 && Strip(remain, a).Out?
    ensures
      var first := Strip(remain, a);
      var second := Strip(first.remain, b);
      Strip(remain, a + b) ==
        if second.HeaderCut? then HeaderCut else Out(second.remain, first.forwarded + second.forwarded)
    decreases |a|, 0
  {
    var n := Min(remain, |a|);
    StripInPieces(remain - n, a[n..], b);
    StripAt(remain, a + b, n);
    assert (a + b)[..n] == a[..n] && (a + b)[n..] == a[n..] + b;
    var rest := Strip(remain - n, a[n..]);
    var second := Strip(rest.remain, b);
    if second.Out? {
      Regroup(a[..n], rest.forwarded, second.forwarded);
    }
  }

  /** Forwarding a body in two pieces. */
  lemma {:induction false} StripAt(remain: nat, output: seq<byte>, n: nat)
    requires 0 < n <= remain && n <= |output|
    ensures
      var rest := Strip(remain - n, output[n..]);
      Strip(remain, output) == if rest.HeaderCut? then HeaderCut else Out(rest.remain, output[..n] + rest.forwarded)
  {
    var m := Min(remain, |output|);
    if n < m {
      assert output[n..][..m - n] == output[n..m] && output[n..][m - n..] == output[m..];
      assert output[..n] + output[n..m] == output[..m];
      var rest := Strip(remain - m, output[m..]);
      if rest.Out? {
        Regroup(output[..n], output[n..m], rest.forwarded);
      }
    } else if output[n..] == [] {
      assert output[..n] == output[..n] + [];
    }
  }

  // ---------- from QUIC to the other side ----------

  lemma {:induction false} BodiesOfRecs(level: Level, frames: seq<seq<byte>>)
    ensures Bodies(Recs(level, frames)) == Concat(frames)
  {
    if frames != [] {
      BodiesOfRecs(level, frames[1..]);
      assert Recs(level, frames)[1..] == Recs(level, frames[1..]);
    }
  }

  /** Messages that fit, once queued, read and stripped. */
  lemma MessagesComeThrough(level: Level, frames: seq<seq<byte>>)
    requires forall i :: 0 <= i < |frames| ==> 0 < |frames[i]| <= MAX_RECORD_SIZE
    ensures QueueOK(Recs(level, frames)) && Strip(0, Stream(Recs(level, frames))) == Out(0, Concat(frames))
  {
    StreamIsFramed(Recs(level, frames));
    StripFramed(Recs(level, frames));
    BodiesOfRecs(level, frames);
  }

  /**
   A handshake stream that came in over QUIC, was cut into messages, framed for TLS and stripped again, is the
   same stream up to its last complete message, as long as every message fits one record.
   */
  lemma HandshakeComesThrough(st: Input, readLevel: Level, level: Level, data: seq<byte>)
    requires st.queue == [] && st.pending.NoScratch? && level != EarlyData && data != []
    requires Provide(st, readLevel, level, data).Some?
    requires forall i :: 0 <= i < |Frames(data)| ==> |Frames(data)[i]| <= MAX_RECORD_SIZE
    ensures
      var r := Provide(st, readLevel, level, data).value;
      && QueueOK(r.queue)
      && Strip(0, Stream(r.queue)).Out?
      && Strip(0, Stream(r.queue)).forwarded + PendingBytes(r.pending) == data
  {
    FramesAreFrames(data);
    MessagesComeThrough(level, Frames(data));
    FramesExact(data);
    ProvidedQueue(st, readLevel, level, data);
  }

  lemma ProvidedQueue(st: Input, readLevel: Level, level: Level, data: seq<byte>)
    requires st.queue == [] && st.pending.NoScratch? && level != EarlyData && data != []
    requires Provide(st, readLevel, level, data).Some?
    ensures
      var r := Provide(st, readLevel, level, data).value;
      r.queue == Recs(level, Frames(data)) && PendingBytes(r.pending) == Rest(data)
  {
    assert [] + data == data;
  }
}
