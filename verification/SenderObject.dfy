/** The sending side as the code runs it, over the linked retransmission queue, proved against module SendPath. */
module SenderObject {
  import opened Bytes
  import opened RtxRecords
  import opened RtxQueue
  import S = SendPath

  class Dtls13Sender {
    const queue: Queue
    /** nextSeqNumber of every epoch with encryption keys. */
    var next: map<word64, word64>
    /** dtls13EncryptEpoch and dtls13Epoch. */
    var current: word64
    var top: word64
    var num: word16
    /** dtls13SendingFragments, dtls13FragmentsBuffer, dtls13FragOffset, dtls13FragHandshakeType. */
    var sending: bool
    var buffer: seq<byte>
    var offset: nat
    var fragType: byte
    ghost var wire: seq<S.Emitted>
    ghost var wrapped: bool
    ghost var retired: set<word64>

    ghost function LinkState(): S.Link
      reads this
    {
      S.Link(next, current, wire, wrapped, retired)
    }

    ghost function FragState(): S.Frag
      reads this
    {
      if sending then S.Sending(fragType, buffer, offset) else S.Idle
    }

    ghost function State(): S.Tx
      reads this, queue
    {
      S.Tx(LinkState(), top, queue.recs, num, FragState())
    }

    ghost predicate Valid()
      reads this, queue, queue.nodes
    {
      queue.Valid() && current in next && (sending ==> offset <= |buffer|)
    }

    constructor (epoch: word64)
      ensures Valid() && fresh(queue)
      ensures State() == S.Tx(S.Link(map[epoch := 0], epoch, [], false, {}), epoch, [], 0, S.Idle)
    {
      queue := new Queue();
      next, current, top, num := map[epoch := 0], epoch, epoch, 0;
      sending, buffer, offset, fragType := false, [], 0, 0;
      wire, wrapped, retired := [], false, {};
    }

    /** Dtls13GetSeq for an outgoing record: the number, and whether the counter did not wrap. */
    method GetSeq() returns (n: word64, ok: bool)
      requires current in next
      modifies `next, `wrapped
      ensures n == old(next[current]) && LinkState() == S.Bump(old(LinkState()))
      ensures ok <==> n != TWO64 - 1
    {
      n := next[current];
      var after: int := (n as int + 1) % TWO64;
      next := next[current := after];
      wrapped := wrapped || after == 0;
      ok := after != 0;
    }

    /** Dtls13SendFragment */
    method SendFragment(htype: byte, payload: seq<byte>, res: S.SendResult) returns (r: S.SendResult)
      requires current in next
      modifies `next, `wrapped, `wire
      ensures (LinkState(), r) == S.SendRecord(old(LinkState()), htype, payload, res)
    {
      var n := next[current];
      if !S.TypeIsEncrypted(htype) && n == TWO64 - 1 {
        var ok;
        n, ok := GetSeq();
        return S.Failed(true);
      }
      if res.Failed? && !res.consumed {
        return res;
      }
      var ok;
      n, ok := GetSeq();
      if !res.Failed? && res != S.Held {
        wire := wire + [S.Emitted(RecordNumber(current, n), payload)];
      }
      r := res;
    }

    /** Dtls13SendOneFragmentRtx */
    method SendOneFragment(htype: byte, payload: seq<byte>, out: S.Out) returns (ret: S.Ret)
      requires Valid()
      modifies this, queue, queue.repr
      ensures Valid() && (State(), ret) == S.SendOne(old(State()), htype, payload, out)
      ensures fresh(queue.repr - old(queue.repr))
      ensures offset == old(offset) && buffer == old(buffer) && sending == old(sending) && fragType == old(fragType)
    {
      var rec: RtxRecord? := null;
      if htype != S.HELLO_RETRY_REQUEST {
        if !out.alloc {
          return S.MemoryError;
        }
        rec := new RtxRecord(current, htype, payload, next[current], out.junk1, out.junk2);
      }
      var res := SendFragment(htype, payload, out.res);
      if res.Failed? {
        return S.SendError;
      }
      if res == S.FailedLate {
        return S.LateError;
      }
      if rec != null {
        queue.AddRecord(rec);
      }
      ret := if S.Blocked(res) then S.WouldBlock else S.Done;
    }

    /** Dtls13FreeFragmentsBuffer */
    method FreeFragmentsBuffer()
      modifies `sending, `buffer, `offset
      ensures !sending && State() == old(State()).(frag := S.Idle)
    {
      sending, buffer, offset := false, [], 0;
    }

    /** The body of the loop in Dtls13SendFragmentedInternal. */
    method SendNextFragment(room: nat, out: S.Out) returns (ret: S.Ret)
      requires Valid() && sending && room > 0 && offset < |buffer|
      modifies this, queue, queue.repr
      ensures Valid() && (State(), ret) == S.OneFragment(old(State()), room, out)
      ensures fresh(queue.repr - old(queue.repr))
      ensures ret == S.Done || ret == S.WouldBlock ==> sending && buffer == old(buffer) && offset > old(offset)
    {
      if out.room != S.Free {
        FreeFragmentsBuffer();
        return S.RoomRet(out.room);
      }
      var len := S.Smaller(room, |buffer| - offset);
      ret := SendAt(len, S.FragmentBytes(fragType, buffer, num, offset, len), out);
    }

    /** Sends the next len bytes of the message as payload: the offset moves on, or the message is given up. */
    method SendAt(len: nat, payload: seq<byte>, out: S.Out) returns (ret: S.Ret)
      requires Valid() && sending && offset + len <= |buffer|
      modifies this, queue, queue.repr
      ensures Valid() && fresh(queue.repr - old(queue.repr))
      ensures
        var (t, r) := S.SendOne(old(State()), old(fragType), payload, out);
        && ret == r
        && State() == t.(frag := if r == S.Done || r == S.WouldBlock then
                                   S.Sending(old(fragType), old(buffer), old(offset) + len)
                                 else S.Idle)
      ensures ret == S.Done || ret == S.WouldBlock ==> sending && buffer == old(buffer) && offset == old(offset) + len
    {
      ret := SendOneFragment(fragType, payload, out);
      if ret == S.Done || ret == S.WouldBlock {
        Advance(len);
      } else {
        FreeFragmentsBuffer();
      }
    }

    method Advance(len: nat)
      requires sending && offset + len <= |buffer|
      modifies `offset
      ensures offset == old(offset) + len && State() == old(State()).(frag := S.Sending(fragType, buffer, offset))
    {
      offset := offset + len;
    }

    /** Dtls13SendFragmentedInternal */
    method SendFragmentedInternal(room: nat, outs: seq<S.Out>) returns (ret: S.Ret)
      requires Valid() && sending && room > 0
      modifies this, queue, queue.repr
      ensures Valid() && (State(), ret) == S.SendFragments(old(State()), room, outs, 0)
      ensures fresh(queue.repr - old(queue.repr))
    {
      var k := 0;
      while offset < |buffer|
        invariant Valid() && sending
        invariant fresh(queue.repr - old(queue.repr))
        invariant S.SendFragments(old(State()), room, outs, 0) == S.SendFragments(State(), room, outs, k)
        decreases |buffer| - offset
      {
        ret := SendNextFragment(room, S.OutAt(outs, k));
        if ret != S.Done {
          return;
        }
        k := k + 1;
      }
      FreeFragmentsBuffer();
      ret := S.Done;
    }

    /** Dtls13FragmentsContinue */
    method FragmentsContinue(cidSz: nat, maxFrag: nat, outs: seq<S.Out>) returns (ret: S.Ret)
      requires Valid() && sending && S.FragmentRoom(fragType, cidSz, maxFrag) > 0
      modifies this, queue, queue.repr
      ensures Valid() && (State(), ret) == S.FragmentsContinue(old(State()), cidSz, maxFrag, outs)
      ensures fresh(queue.repr - old(queue.repr))
    {
      ret := SendAndCount(S.FragmentRoom(fragType, cidSz, maxFrag), outs);
    }

    /** The fragmenter, and the number of the message once all of it is out. */
    method SendAndCount(room: nat, outs: seq<S.Out>) returns (ret: S.Ret)
      requires Valid() && sending && room > 0
      modifies this, queue, queue.repr
      ensures Valid()
      ensures var (t, r) := S.SendFragments(old(State()), room, outs, 0);
        ret == r && State() == if r == S.Done then S.NextNum(t) else t
      ensures fresh(queue.repr - old(queue.repr))
    {
      ret := SendFragmentedInternal(room, outs);
      if ret == S.Done {
        num := (num + 1) % 0x1_0000;
      }
    }

    /** Dtls13SendFragmented and the number of the message */
    method SendFragmented(htype: byte, body: seq<byte>, room: nat, bufferAlloc: bool, outs: seq<S.Out>)
      returns (ret: S.Ret)
      requires Valid() && room > 0
      modifies this, queue, queue.repr
      ensures Valid() && (State(), ret) == S.SendFragmented(old(State()), htype, body, room, bufferAlloc, outs)
      ensures fresh(queue.repr - old(queue.repr))
    {
      if sending {
        return S.BadState;
      }
      if !bufferAlloc {
        return S.MemoryError;
      }
      StartFragments(htype, body);
      ret := SendAndCount(room, outs);
    }

    method StartFragments(htype: byte, body: seq<byte>)
      requires Valid()
      modifies `sending, `buffer, `offset, `fragType
      ensures Valid() && sending && State() == old(State()).(frag := S.Sending(htype, body, 0))
    {
      sending, buffer, offset, fragType := true, body, 0, htype;
    }

    /** The choice of epoch in Dtls13HandshakeSend. */
    method UseTopEpoch() returns (ok: bool)
      requires Valid()
      modifies `current
      ensures Valid() && (ok <==> old(current) == top || top in next)
      ensures State() ==
        if ok then S.Tx(old(LinkState()).(current := top), top, queue.recs, num, FragState()) else old(State())
    {
      if current != top {
        if top !in next {
          return false;
        }
        current := top;
      }
      ok := true;
    }

    /** The unfragmented path of Dtls13HandshakeSend. */
    method SendWhole(htype: byte, body: seq<byte>, out: S.Out) returns (ret: S.Ret)
      requires Valid()
      modifies this, queue, queue.repr
      ensures Valid() && (State(), ret) == S.SendWhole(old(State()), htype, body, out)
      ensures fresh(queue.repr - old(queue.repr))
    {
      ret := SendOneFragment(htype, S.FragmentBytes(htype, body, num, 0, |body|), out);
      if ret == S.Done || ret == S.WouldBlock {
        num := (num + 1) % 0x1_0000;
      }
    }

    /** Dtls13HandshakeSend */
    method HandshakeSend(htype: byte, body: seq<byte>, cidSz: nat, maxFrag: nat, bufferAlloc: bool, outs: seq<S.Out>)
      returns (ret: S.Ret)
      requires Valid() && S.FragmentRoom(htype, cidSz, maxFrag) > 0
      modifies this, queue, queue.repr
      ensures Valid() && (State(), ret) == S.HandshakeSend(old(State()), htype, body, cidSz, maxFrag, bufferAlloc, outs)
      ensures fresh(queue.repr - old(queue.repr))
    {
      var ok := UseTopEpoch();
      if !ok {
        return S.NoEpoch;
      }
      if S.FitsWhole(htype, body, cidSz, maxFrag) {
        ret := SendWhole(htype, body, S.OutAt(outs, 0));
      } else {
        ret := SendFragmented(htype, body, S.FragmentRoom(htype, cidSz, maxFrag), bufferAlloc, outs);
      }
    }

    /** The body of the loop in Dtls13RtxSendBuffered, for record r at index k. */
    method ResendRecord(prev: RtxRecord?, r: RtxRecord, out: S.RtxOutcome, ghost k: nat) returns (ret: S.Ret)
      requires Valid() && k < |queue.nodes| && queue.nodes[k] == r && prev == NodeAt(queue.nodes, k - 1)
      modifies `next, `current, `wire, `wrapped, queue, queue.repr
      ensures Valid() && (LinkState(), queue.recs, ret) == S.ResendOne(old(LinkState()), old(queue.recs), k, out)
      ensures queue.repr == old(queue.repr)
      ensures ret == S.Done ==> queue.nodes == old(queue.nodes)
    {
      if out.room != S.Free {
        return S.RoomRet(out.room);
      }
      var res, n := SendAgain(r, out.res);
      if res.Failed? {
        return if r.epoch in next then S.SendError else S.NoEpoch;
      }
      if res == S.FailedLate {
        return S.LateError;
      }
      Remember(prev, r, n, S.Blocked(res), k);
      ret := if S.Blocked(res) then S.WouldBlock else S.Done;
    }

    /** The number of a resent record is remembered; one that blocks goes to the end of the list. */
    method Remember(prev: RtxRecord?, r: RtxRecord, n: word64, blocked: bool, ghost k: nat)
      requires Valid() && k < |queue.nodes| && queue.nodes[k] == r && prev == NodeAt(queue.nodes, k - 1)
      modifies queue, queue.repr
      ensures Valid() && queue.repr == old(queue.repr) && (!blocked ==> queue.nodes == old(queue.nodes))
      ensures var recs := old(queue.recs)[k := Resent(old(queue.recs)[k], n)];
        queue.recs == if blocked then S.MoveToEnd(recs, k) else recs
    {
      queue.TrackSend(r, n, k);
      if blocked {
        queue.MoveToEnd(prev, r, k);
      }
    }

    /** Switches to the record's epoch (Dtls13SetEpochKeys) and sends its bytes under that epoch's next number. */
    method SendAgain(r: RtxRecord, res: S.SendResult) returns (sent: S.SendResult, n: word64)
      requires current in next
      modifies `next, `current, `wire, `wrapped
      ensures next.Keys == old(next.Keys)
      ensures r.epoch !in next ==> LinkState() == old(LinkState()) && sent.Failed?
      ensures r.epoch in old(next) ==>
        var l := old(LinkState()).(current := r.epoch);
        n == l.next[l.current] && (LinkState(), sent) == S.SendRecord(l, r.htype, r.data, res)
    {
      if r.epoch !in next {
        return S.Failed(false), 0;
      }
      current := r.epoch;
      n := next[current];
      sent := SendFragment(r.htype, r.data, res);
    }

    /** Dtls13RtxSendBuffered */
    method RtxSendBuffered(outs: seq<S.RtxOutcome>) returns (ret: S.Ret)
      requires Valid()
      modifies `next, `current, `wire, `wrapped, queue, queue.repr
      ensures Valid() && (LinkState(), queue.recs, ret) == S.Retransmit(old(LinkState()), old(queue.recs), 0, outs)
      ensures queue.repr == old(queue.repr)
    {
      var prev: RtxRecord? := null;
      var r := queue.head;
      var k := 0;
      while r != null
        invariant Valid() && k <= |queue.nodes| && queue.repr == old(queue.repr)
        invariant prev == NodeAt(queue.nodes, k - 1) && r == NodeAt(queue.nodes, k)
        invariant S.Retransmit(old(LinkState()), old(queue.recs), 0, outs) ==
                  S.Retransmit(LinkState(), queue.recs, k, outs)
        decreases |queue.nodes| - k
      {
        ret := ResendRecord(prev, r, S.RtxOutcomeAt(outs, k), k);
        if ret != S.Done {
          return;
        }
        queue.NodeHere(k);
        prev, r, k := r, r.next, k + 1;
      }
      ret := S.Done;
    }
  }
}
