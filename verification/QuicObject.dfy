/** The QUIC side of a connection as the code runs it, proved against modules QuicFrames and QuicTransfer. */
module QuicObject {
  import opened Bytes
  import opened Options
  import opened Sequences
  import opened QuicFrames
  import opened QuicTransfer

  datatype Outcome = Success | Failure

  const DEFAULT_CAPACITY := 2048

  class QuicState {
    /** input_head to input_tail: complete records, the first one partly read. */
    var queue: seq<Rec>
    /** The scratch record: whether there is one, its level, len, the bytes up to end, and capacity. */
    var hasScratch: bool
    var level: Level
    var len: nat
    var data: seq<byte>
    var capacity: nat
    /** enc_level_latest_recvd */
    var latest: Level
    /** output_rec_remain */
    var outRemain: nat

    ghost function State(): Input
      reads this
    {
      Input(queue, if hasScratch then Scratch(level, data) else NoScratch, latest)
    }

    /** The scratch record knows its length as soon as its header is there, and its bytes fit its buffer. */
    ghost predicate Valid()
      reads this
    {
      InputOK(State()) && QueueOK(queue) && (hasScratch ==> ScratchFits() && len == QrLength(data))
    }

    ghost predicate ScratchFits()
      reads this
    {
      |data| <= capacity && len <= capacity && capacity >= 4 && len <= MAX_RECORD_CAPACITY
    }

    constructor (readLevel: Level)
      ensures Valid() && State() == Input([], NoScratch, readLevel) && outRemain == 0
    {
      queue, hasScratch, latest, outRemain := [], false, readLevel, 0;
      level, len, data, capacity := readLevel, 0, [], 0;
    }

    // ---------- taking data from QUIC ----------

    /** The scratch record while bytes are still to be taken: a new one has its length from those bytes. */
    ghost predicate Taking(rest: seq<byte>)
      reads this
    {
      hasScratch ==>
        && ScratchFits()
        && (if data == [] then rest != [] && len == QrLength(rest) else len == QrLength(data) && !HasFrame(data))
    }

    /** quic_record_make for handshake levels */
    method MakeRecord(lv: Level, rest: seq<byte>, memory: bool) returns (ret: Outcome)
      requires !hasScratch && rest != []
      modifies `hasScratch, `level, `len, `data, `capacity
      ensures ret == if memory && QrLength(rest) <= MAX_RECORD_CAPACITY then Success else Failure
      ensures if ret == Success then hasScratch && level == lv && data == [] && Taking(rest) else !hasScratch
    {
      var n := QrLength(rest);
      if n > MAX_RECORD_CAPACITY || !memory {
        return Failure;
      }
      hasScratch, level, len, data := true, lv, n, [];
      capacity := if n == 0 then DEFAULT_CAPACITY else n;
      ret := Success;
    }

    /** quic_record_append: how many bytes it consumed. */
    method Append(rest: seq<byte>, memory: bool) returns (ret: Outcome, consumed: nat)
      requires hasScratch && rest != [] && Taking(rest)
      modifies `len, `data, `capacity
      ensures ret == Success ==>
        && 0 < consumed <= |rest| && data == old(data) + rest[..consumed]
        && ScratchFits() && len == QrLength(data)
        && (if HasFrame(data) then |data| == len else consumed == |rest|)
      ensures ret == Failure && memory ==> QrLength(old(data) + rest) > MAX_RECORD_CAPACITY
    {
      consumed := 0;
      if len == 0 {
        var missing := 4 - |data|;
        if |rest| < missing {
          data := data + rest;
          assert rest[..|rest|] == rest;
          return Success, |rest|;
        }
        HeaderComplete(data, rest, missing);
        data := data + rest[..missing];
        consumed := missing;
        len := QrLength(data);
        if len > MAX_RECORD_CAPACITY {
          return Failure, 0;
        }
        if len > capacity {
          if !memory {
            return Failure, 0;
          }
          capacity := len;
        }
      }
      if |data| < len && consumed < |rest| {
        var more := Min(|rest| - consumed, len - |data|);
        BodyGrows(old(data), rest, consumed, more, data, len);
        data := data + rest[consumed..consumed + more];
        consumed := consumed + more;
      }
      ret := Success;
    }

    /** What is still to be cut: the scratch bytes and those to be taken. */
    ghost function Left(rest: seq<byte>): seq<byte>
      reads this
    {
      (if hasScratch then data else []) + rest
    }

    /** The loop body of wolfSSL_provide_quic_data when there is a scratch record. */
    method TakePiece(rest: seq<byte>, memory: bool, ghost s: seq<byte>, ghost taken: seq<seq<byte>>)
      returns (ret: Outcome, rest': seq<byte>, ghost taken': seq<seq<byte>>)
      requires hasScratch && rest != [] && Taking(rest) && CutSoFar(s, taken, Left(rest))
      modifies `queue, `hasScratch, `len, `data, `capacity
      ensures ret == Success ==>
        && |rest'| < |rest| && Taking(rest') && CutSoFar(s, taken', Left(rest')) && (hasScratch ==> data != [])
        && taken' == (if hasScratch then taken else taken + [data])
        && queue == if hasScratch then old(queue) else old(queue) + [NewRec(level, data)]
      ensures ret == Failure && memory ==> !Bounded(s)
    {
      ghost var was := data;
      rest', taken' := rest, taken;
      var n;
      ret, n := Append(rest, memory);
      if ret == Failure {
        return;
      }
      Shift(was, rest, n);
      rest' := rest[n..];
      if |data| >= len > 0 {
        FrameTaken(s, taken, data, rest');
        taken' := taken + [data];
        queue, hasScratch := queue + [NewRec(level, data)], false;
        assert Left(rest') == rest';
      }
    }

    /** The same, with the queue: queue0 and the messages taken so far. */
    method TakeNext(rest: seq<byte>, memory: bool, ghost s: seq<byte>, ghost taken: seq<seq<byte>>,
                    ghost queue0: seq<Rec>)
      returns (ret: Outcome, rest': seq<byte>, ghost taken': seq<seq<byte>>)
      requires hasScratch && rest != [] && Taking(rest) && CutSoFar(s, taken, Left(rest))
      requires queue == queue0 + Recs(level, taken)
      modifies `queue, `hasScratch, `len, `data, `capacity
      ensures ret == Success ==>
        && |rest'| < |rest| && Taking(rest') && CutSoFar(s, taken', Left(rest')) && (hasScratch ==> data != [])
        && queue == queue0 + Recs(level, taken')
      ensures ret == Failure && memory ==> !Bounded(s)
    {
      ret, rest', taken' := TakePiece(rest, memory, s, taken);
      if ret == Success && !hasScratch {
        RecsAppend(level, taken, [data]);
        Regroup(queue0, Recs(level, taken), [NewRec(level, data)]);
      }
    }

    /** The loop of wolfSSL_provide_quic_data for a handshake level. */
    method TakeAll(lv: Level, input: seq<byte>, memory: bool) returns (ret: Outcome)
      requires Valid() && lv != EarlyData && input != [] && (hasScratch ==> level == lv)
      modifies `queue, `hasScratch, `level, `len, `data, `capacity
      ensures ret == Success ==>
        && Cut(old(State()), lv, PendingBytes(old(State().pending)) + input) == Some(State().(latest := lv))
        && (hasScratch ==> ScratchFits() && len == QrLength(data))
      ensures ret == Failure && memory ==> !Bounded(PendingBytes(old(State().pending)) + input)
    {
      ghost var s := PendingBytes(State().pending) + input;
      ghost var taken: seq<seq<byte>> := [];
      var rest := input;
      while rest != []
        invariant Taking(rest) && (hasScratch ==> level == lv) && latest == old(latest)
        invariant queue == old(queue) + Recs(lv, taken)
        invariant CutSoFar(s, taken, Left(rest)) && (rest == [] && hasScratch ==> data != [])
        decreases |rest|, if hasScratch then 0 else 1
      {
        if hasScratch {
          ret, rest, taken := TakeNext(rest, memory, s, taken, old(queue));
          if ret == Failure {
            return;
          }
        } else {
          StartOf(s, taken, rest);
          ret := MakeRecord(lv, rest, memory);
          if ret == Failure {
            return;
          }
        }
      }
      NothingLeft(s, taken, if hasScratch then data else []);
      ret := Success;
    }

    /** wolfSSL_provide_quic_data; readLevel is that of the connection. */
    method ProvideData(readLevel: Level, lv: Level, input: seq<byte>, memory: bool) returns (ret: Outcome)
      requires Valid()
      modifies this
      ensures ret == Success ==> Valid() && Provide(old(State()), readLevel, lv, input) == Some(State())
      ensures ret == Failure && memory ==> Provide(old(State()), readLevel, lv, input) == None
      ensures outRemain == old(outRemain)
    {
      if
        || Rank(lv) < Rank(readLevel) || (queue != [] && Rank(lv) < Rank(queue[|queue| - 1].level))
        || Rank(lv) < Rank(latest)
      {
        return Failure;
      }
      if hasScratch && input != [] && level != lv {
        return Failure;
      }
      ghost var was := State();
      assert LevelOK(was, readLevel, lv);
      if input != [] {
        ret := TakeInput(lv, input, memory);
        if ret == Failure {
          return;
        }
      }
      latest := lv;
      ret := Success;
      assert Provide(was, readLevel, lv, input) == Some(State());
      ProvideKeepsOK(was, readLevel, lv, input);
      CutUnread(was, readLevel, lv, input);
    }

    /** The loop of wolfSSL_provide_quic_data; early data makes a record as long as the chunk, complete at once. */
    method TakeInput(lv: Level, input: seq<byte>, memory: bool) returns (ret: Outcome)
      requires Valid() && input != [] && (hasScratch ==> level == lv)
      modifies `queue, `hasScratch, `level, `len, `data, `capacity
      ensures
        var whole :=
          if lv == EarlyData then Some(old(State()).(queue := old(queue) + [NewRec(lv, input)], latest := lv))
          else Cut(old(State()), lv, PendingBytes(old(State().pending)) + input);
        (ret == Success ==> whole == Some(State().(latest := lv))) && (ret == Failure && memory ==> whole == None)
      ensures ret == Success && hasScratch ==> ScratchFits() && len == QrLength(data)
    {
      if lv != EarlyData {
        ret := TakeAll(lv, input, memory);
      } else if !memory {
        ret := Failure;
      } else {
        queue := queue + [NewRec(lv, input)];
        ret := Success;
      }
    }

    // ---------- giving records to TLS ----------

    /** quic_record_transfer from the first record, which is dropped when it is used up. */
    method TransferHead(sz: nat) returns (n: int, bytes: seq<byte>)
      requires Valid() && queue != [] && sz > 0
      modifies `queue
      ensures Valid() && n != 0
      ensures n > 0 ==> n == |bytes| <= sz && Gives(old(queue), bytes, queue)
      ensures n < 0 ==> n == -1 && sz < RECORD_HEADER_SZ && queue == old(queue)
    {
      ghost var before := queue;
      var t := TransferRec(queue[0], sz);
      n, bytes := t.n, t.bytes;
      if n < 0 {
        return;
      }
      queue := [t.rec] + queue[1..];
      if Done(t.rec) {
        queue := queue[1..];
      }
      assert queue == AfterHead(before, t.rec);
      HeadKeepsOrder(before, t.rec);
      HeadTaken(before, sz, t, queue);
    }

    /** wolfSSL_quic_receive */
    method ReceiveData(size: nat) returns (res: ReadOutcome)
      requires Valid()
      modifies `queue
      ensures Valid() && Reads(old(queue), size, res, queue)
    {
      var sz: nat := size;
      var got: seq<byte> := [];
      GivesNothing(queue);
      while sz > 0
        invariant Valid() && Gives(old(queue), got, queue) && |got| + sz == size && (got == [] ==> queue == old(queue))
      {
        var n, bytes := 0, [];
        ghost var before := queue;
        if queue != [] {
          n, bytes := TransferHead(sz);
          if n == -1 {
            return Fatal;
          }
        }
        if n == 0 {
          return if got != [] then Got(got) else WantRead;
        }
        GivesThen(old(queue), got, before, bytes, queue);
        got, sz := got + bytes, sz - n;
      }
      res := Got(got);
    }

    // ---------- sending ----------

    /** wolfSSL_quic_send_internal: the bytes handed to add_handshake_data, which accepts them. */
    method SendData(output: seq<byte>, handshakeDone: bool) returns (ret: Outcome, forwarded: seq<byte>)
      requires Strip(outRemain, output).Out?
      modifies `outRemain
      ensures ret == Success ==> Out(outRemain, forwarded) == Strip(old(outRemain), output)
      ensures ret == Failure ==> handshakeDone
    {
      forwarded := [];
      var at := 0;
      while at < |output|
        invariant at <= |output| && Strip(outRemain, output[at..]).Out?
        invariant Strip(old(outRemain), output).remain == Strip(outRemain, output[at..]).remain
        invariant Strip(old(outRemain), output).forwarded == forwarded + Strip(outRemain, output[at..]).forwarded
      {
        if outRemain > 0 {
          var n := Min(outRemain, |output| - at);
          BodyPiece(outRemain, output, at, n);
          Regroup(forwarded, output[at..at + n], Strip(outRemain - n, output[at + n..]).forwarded);
          forwarded := forwarded + output[at..at + n];
          outRemain, at := outRemain - n, at + n;
        } else {
          HeaderPiece(output, at);
          if output[at] == APPLICATION_DATA && handshakeDone {
            return Failure, forwarded;
          }
          outRemain := Get16(output[at + 3..at + 5]);
          at := at + RECORD_HEADER_SZ;
        }
      }
      ret := Success;
    }
  }

  /** One round of the send loop inside a body. */
  lemma BodyPiece(remain: nat, output: seq<byte>, at: nat, n: nat)
    requires at < |output| && n == Min(remain, |output| - at) > 0 && Strip(remain, output[at..]).Out?
    ensures
      var rest := Strip(remain - n, output[at + n..]);
      && rest.Out? && Strip(remain, output[at..]) == Out(rest.remain, output[at..at + n] + rest.forwarded)
  {
    assert output[at..][..n] == output[at..at + n] && output[at..][n..] == output[at + n..];
  }

  /** One round of the send loop at a header. */
  lemma HeaderPiece(output: seq<byte>, at: nat)
    requires at < |output| && Strip(0, output[at..]).Out?
    ensures at + RECORD_HEADER_SZ <= |output|
    ensures Strip(0, output[at..]) == Strip(Get16(output[at + 3..at + 5]), output[at + RECORD_HEADER_SZ..])
  {
    if at + RECORD_HEADER_SZ <= |output| {
      assert output[at..][3..5] == output[at + 3..at + 5] && output[at..][5..] == output[at + 5..];
    }
  }

  lemma HeaderComplete(data: seq<byte>, rest: seq<byte>, missing: nat)
    requires missing <= |rest| && |data| + missing == 4
    ensures QrLength(data + rest[..missing]) == QrLength(data + rest)
  {
    assert data + rest[..missing] + rest[missing..] == data + rest;
    QrLengthPrefix(data + rest[..missing], rest[missing..]);
  }

  /** Copying body bytes keeps the length the header gave, and keeps the scratch record a prefix of what came in. */
  lemma BodyGrows(was: seq<byte>, rest: seq<byte>, consumed: nat, more: nat, data: seq<byte>, len: nat)
    requires consumed + more <= |rest| && 0 < more && data == was + rest[..consumed] && |data| + more <= len
    requires if data == [] then len == QrLength(rest) else len == QrLength(data)
    requires |data| + more == len || consumed + more == |rest|
    ensures data + rest[consumed..consumed + more] == was + rest[..consumed + more]
    ensures QrLength(data + rest[consumed..consumed + more]) == len
  {
    var grown := data + rest[consumed..consumed + more];
    assert rest[..consumed] + rest[consumed..consumed + more] == rest[..consumed + more];
    if data == [] {
      assert grown == rest[..more] && grown + rest[more..] == rest;
      QrLengthPrefix(grown, rest[more..]);
    } else {
      QrLengthPrefix(data, rest[consumed..consumed + more]);
    }
  }

  /** What was taken, and what is left, of a stream. */
  ghost predicate CutSoFar(s: seq<byte>, taken: seq<seq<byte>>, left: seq<byte>)
  {
    Frames(s) == taken + Frames(left) && Rest(s) == Rest(left) && (Bounded(s) <==> Bounded(left))
  }

  lemma Shift(was: seq<byte>, rest: seq<byte>, n: nat)
    requires n <= |rest|
    ensures was + rest[..n] + rest[n..] == was + rest
  {
  }

  lemma FrameTaken(s: seq<byte>, taken: seq<seq<byte>>, frame: seq<byte>, rest: seq<byte>)
    requires CutSoFar(s, taken, frame + rest) && HasFrame(frame) && |frame| == QrLength(frame) <= MAX_RECORD_CAPACITY
    ensures CutSoFar(s, taken + [frame], rest)
  {
    FrameOfSum(frame, rest);
    assert frame[..|frame|] == frame && frame[|frame|..] + rest == rest;
    Regroup(taken, [frame], Frames(rest));
  }

  /** A record that cannot be started ends the stream. */
  lemma StartOf(s: seq<byte>, taken: seq<seq<byte>>, rest: seq<byte>)
    requires CutSoFar(s, taken, [] + rest)
    ensures QrLength(rest) > MAX_RECORD_CAPACITY ==> !Bounded(s)
  {
    assert [] + rest == rest;
  }

  lemma NothingLeft(s: seq<byte>, taken: seq<seq<byte>>, left: seq<byte>)
    requires CutSoFar(s, taken, left + []) && !HasFrame(left)
    ensures Frames(s) == taken && Rest(s) == left && (Bounded(s) <==> QrLength(left) <= MAX_RECORD_CAPACITY)
  {
    assert left + [] == left && taken + [] == taken;
  }

  /** New records are not read from yet. */
  lemma CutUnread(st: Input, readLevel: Level, lv: Level, input: seq<byte>)
    requires QueueOK(st.queue) && Provide(st, readLevel, lv, input).Some?
    ensures QueueOK(Provide(st, readLevel, lv, input).value.queue)
  {
    FramesAreFrames(PendingBytes(st.pending) + input);
  }

  lemma HeadKeepsOrder(queue: seq<Rec>, head: Rec)
    requires queue != [] && head.level == queue[0].level
    requires forall i, j :: 0 <= i < j < |queue| ==> Ordered(queue, i, j)
    ensures
      var q := AfterHead(queue, head);
      && (forall i, j :: 0 <= i < j < |q| ==> Ordered(q, i, j))
      && (q != [] ==> q[|q| - 1].level == queue[|queue| - 1].level)
  {
    var q := AfterHead(queue, head);
    var d := if Done(head) then 1 else 0;
    forall i, j | 0 <= i < j < |q|
      ensures Ordered(q, i, j)
    {
      assert Ordered(queue, i + d, j + d);
    }
  }
}
