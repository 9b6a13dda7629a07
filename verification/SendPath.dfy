/**
 The sending side as values: record emission with per-epoch counters, the fragmenter, and the
 retransmission pass.  Dtls13SendFragment, Dtls13SendOneFragmentRtx, Dtls13SendFragmentedInternal,
 Dtls13SendFragmented, Dtls13HandshakeSend, Dtls13FragmentsContinue and Dtls13RtxSendBuffered of
 boot/src/dtls13.c.
 */
module SendPath {
  import opened Bytes
  import opened HandshakeHeader
  import opened RtxRecords

  const HELLO_RETRY_REQUEST: byte := 6

  /** Dtls13TypeIsEncrypted */
  predicate TypeIsEncrypted(htype: byte)
  {
    || htype == 4 || htype == 5 || htype == 8 || 11 <= htype <= 16 || htype == 20 || htype == 22 || htype == 24
    || htype == 55 || htype >= 254
  }

  /** Dtls13GetRlHeaderLength, with the size of the connection id in use. */
  function RecordHeaderLength(htype: byte, cidSz: nat): nat
  {
    if TypeIsEncrypted(htype) then 5 + cidSz else 13
  }

  /** How much of a message fits one fragment when records may be maxFrag bytes long. */
  function FragmentRoom(htype: byte, cidSz: nat, maxFrag: nat): int
  {
    maxFrag - RecordHeaderLength(htype, cidSz) - HEADER_SZ
  }

  /** A record handed to the output buffer: its number, and the handshake fragment it carries. */
  datatype Emitted = Emitted(rn: RecordNumber, payload: seq<byte>)

  /**
   What happens to one record: sent at once, buffered while the transport blocks, built but not even
   buffered because an earlier flush blocks, failed before or after its number was consumed, or put into the
   output buffer before sending failed.  A record in the buffer goes out with the next flush.
   */
  datatype SendResult = Sent | WantWrite | Held | Failed(consumed: bool) | FailedLate

  predicate Blocked(r: SendResult) { r == WantWrite || r == Held }

  /**
   Per epoch with usable encryption keys, its nextSeqNumber; the epoch encryption is set to; all records
   emitted so far; whether some counter has wrapped; and the epochs that were evicted.
   */
  datatype Link = Link(next: map<word64, word64>, current: word64, wire: seq<Emitted>, wrapped: bool,
                       retired: set<word64>)

  function Bump(l: Link): Link
    requires l.current in l.next
  {
    var n: int := l.next[l.current];
    l.(next := l.next[l.current := (n + 1) % TWO64], wrapped := l.wrapped || n == TWO64 - 1)
  }

  /** Dtls13SendFragment: only the plaintext path notices a wrapped counter. */
  function SendRecord(l: Link, htype: byte, payload: seq<byte>, res: SendResult): (Link, SendResult)
    requires l.current in l.next
  {
    var n: int := l.next[l.current];
    if !TypeIsEncrypted(htype) && n == TWO64 - 1 then (Bump(l), Failed(true))
    else
      match res
      case Failed(consumed) => (if consumed then Bump(l) else l, res)
      case Held => (Bump(l), res)
      case _ => (Bump(l).(wire := l.wire + [Emitted(RecordNumber(l.current, n), payload)]), res)
  }

  /**
   What CheckAvailableSize finds in front of a record: room, a flush of the output buffer that the transport
   blocks, or no room for any other reason.
   */
  datatype Room = Free | FlushBlocked | NoSpace

  /**
   WouldBlock and FlushWait are both WANT_WRITE: from sending a record, and from the flush in front of one.
   LateError is SOCKET_ERROR_E for a record that is in the output buffer.
   */
  datatype Ret = Done | WouldBlock | FlushWait | NoEpoch | MemoryError | BadState | SendError | LateError | RoomError

  predicate IsWantWrite(ret: Ret) { ret == WouldBlock || ret == FlushWait }

  function RoomRet(room: Room): Ret
    requires room != Free
  {
    if room == FlushBlocked then FlushWait else RoomError
  }

  // ---------- retransmission ----------

  datatype RtxOutcome = RtxOutcome(room: Room, res: SendResult)

  function RtxOutcomeAt(outs: seq<RtxOutcome>, k: nat): RtxOutcome
  {
    if k < |outs| then outs[k] else RtxOutcome(NoSpace, Failed(false))
  }

  function MoveToEnd(recs: seq<Rec>, k: nat): seq<Rec>
    requires k < |recs|
  {
    recs[..k] + recs[k + 1..] + [recs[k]]
  }

  /** One round of the loop in Dtls13RtxSendBuffered, for record k; out says what the environment does. */
  function ResendOne(l: Link, recs: seq<Rec>, k: nat, out: RtxOutcome): (r: (Link, seq<Rec>, Ret))
    requires l.current in l.next && k < |recs|
    ensures r.0.current in r.0.next && |r.1| == |recs|
  {
    if out.room != Free then (l, recs, RoomRet(out.room))
    else if l.current != recs[k].epoch && recs[k].epoch !in l.next then (l, recs, NoEpoch)
    else
      var l1 := l.(current := recs[k].epoch);
      var (l2, res) := SendRecord(l1, recs[k].htype, recs[k].data, out.res);
      if res.Failed? then (l2, recs, SendError)
      else if res == FailedLate then (l2, recs, LateError)
      else
        var recs' := recs[k := Resent(recs[k], l1.next[l1.current])];
        if Blocked(res) then (l2, MoveToEnd(recs', k), WouldBlock) else (l2, recs', Done)
  }

  /** The loop of Dtls13RtxSendBuffered from record k on. */
  function Retransmit(l: Link, recs: seq<Rec>, k: nat, outs: seq<RtxOutcome>): (Link, seq<Rec>, Ret)
    requires l.current in l.next
    decreases |recs| - k
  {
    if k >= |recs| then (l, recs, Done)
    else
      var (l1, recs1, ret) := ResendOne(l, recs, k, RtxOutcomeAt(outs, k));
      if ret != Done then (l1, recs1, ret) else Retransmit(l1, recs1, k + 1, outs)
  }

  // ---------- sending a message ----------

  /** A message of which off bytes have been cut into fragments (dtls13FragmentsBuffer and friends). */
  datatype Frag = Idle | Sending(htype: byte, body: seq<byte>, off: nat)

  datatype Tx = Tx(link: Link, top: word64, recs: seq<Rec>, num: word16, frag: Frag)

  predicate TxOK(t: Tx)
  {
    t.link.current in t.link.next
  }

  /** What the environment does to one fragment: room in the output buffer, memory for its record, the send. */
  datatype Out = Out(room: Room, alloc: bool, res: SendResult, junk1: word64, junk2: word64)

  function OutAt(outs: seq<Out>, k: nat): Out
  {
    if k < |outs| then outs[k] else Out(NoSpace, false, Failed(false), 0, 0)
  }

  function FragmentBytes(htype: byte, body: seq<byte>, num: word16, off: nat, len: nat): (s: seq<byte>)
    requires off + len <= |body|
    ensures |s| == HEADER_SZ + len
  {
    PutHeader(Header(htype, |body|, num, off, len)) + body[off..off + len]
  }

  /** Dtls13SendOneFragmentRtx */
  function SendOne(t: Tx, htype: byte, payload: seq<byte>, out: Out): (Tx, Ret)
    requires TxOK(t)
  {
    if htype != HELLO_RETRY_REQUEST && !out.alloc then (t, MemoryError)
    else
      var n := t.link.next[t.link.current];
      var (l, res) := SendRecord(t.link, htype, payload, out.res);
      var rec := NewRec(t.link.current, htype, payload, n, out.junk1, out.junk2);
      var t1 := t.(link := l);
      if res.Failed? then (t1, SendError)
      else if res == FailedLate then (t1, LateError)
      else (t1.(recs := if htype == HELLO_RETRY_REQUEST then t.recs else t.recs + [rec]),
            if Blocked(res) then WouldBlock else Done)
  }

  function Smaller(a: nat, b: nat): nat { if a < b then a else b }

  /** One round of the loop in Dtls13SendFragmentedInternal. */
  function OneFragment(t: Tx, room: nat, out: Out): (r: (Tx, Ret))
    requires TxOK(t) && t.frag.Sending? && t.frag.off < |t.frag.body| && room > 0
    ensures TxOK(r.0)
    ensures r.1 == Done || r.1 == WouldBlock ==>
      r.0.frag == Sending(t.frag.htype, t.frag.body, t.frag.off + Smaller(room, |t.frag.body| - t.frag.off))
  {
    var htype, body, off := t.frag.htype, t.frag.body, t.frag.off;
    var len := Smaller(room, |body| - off);
    if out.room != Free then (t.(frag := Idle), RoomRet(out.room))
    else
      var (t1, ret) := SendOne(t, htype, FragmentBytes(htype, body, t.num, off, len), out);
      (t1.(frag := if ret == Done || ret == WouldBlock then Sending(htype, body, off + len) else Idle), ret)
  }

  /** Dtls13SendFragmentedInternal; k counts the fragments tried in this call. */
  function SendFragments(t: Tx, room: nat, outs: seq<Out>, k: nat): (Tx, Ret)
    requires TxOK(t) && t.frag.Sending? && t.frag.off <= |t.frag.body| && room > 0
    decreases |t.frag.body| - t.frag.off
  {
    if t.frag.off == |t.frag.body| then (t.(frag := Idle), Done)
    else
      var (t1, ret) := OneFragment(t, room, OutAt(outs, k));
      if ret != Done then (t1, ret) else SendFragments(t1, room, outs, k + 1)
  }

  function NextNum(t: Tx): Tx
  {
    t.(num := (t.num + 1) % 0x1_0000)
  }

  /** The unfragmented path of Dtls13HandshakeSend. */
  function SendWhole(t: Tx, htype: byte, body: seq<byte>, out: Out): (Tx, Ret)
    requires TxOK(t)
  {
    var (t1, ret) := SendOne(t, htype, FragmentBytes(htype, body, t.num, 0, |body|), out);
    (if ret == Done || ret == WouldBlock then NextNum(t1) else t1, ret)
  }

  /** Dtls13SendFragmented, and the number of the message once all of it is out. */
  function SendFragmented(t: Tx, htype: byte, body: seq<byte>, room: nat, bufferAlloc: bool, outs: seq<Out>): (Tx, Ret)
    requires TxOK(t) && room > 0
  {
    if t.frag.Sending? then (t, BadState)
    else if !bufferAlloc then (t, MemoryError)
    else
      var (t1, ret) := SendFragments(t.(frag := Sending(htype, body, 0)), room, outs, 0);
      (if ret == Done then NextNum(t1) else t1, ret)
  }

  /** A message and its headers that stay below maxFrag go out in one record. */
  predicate FitsWhole(htype: byte, body: seq<byte>, cidSz: nat, maxFrag: nat)
  {
    RecordHeaderLength(htype, cidSz) + HEADER_SZ + |body| < maxFrag
  }

  /**
   Dtls13HandshakeSend for a message with the given body.  maxFrag is wolfSSL_GetMaxFragSize.
   */
  function HandshakeSend(t: Tx, htype: byte, body: seq<byte>, cidSz: nat, maxFrag: nat, bufferAlloc: bool,
                         outs: seq<Out>): (Tx, Ret)
    requires TxOK(t) && FragmentRoom(htype, cidSz, maxFrag) > 0
  {
    if t.link.current != t.top && t.top !in t.link.next then (t, NoEpoch)
    else
      var t1 := t.(link := t.link.(current := t.top));
      if FitsWhole(htype, body, cidSz, maxFrag) then SendWhole(t1, htype, body, OutAt(outs, 0))
      else SendFragmented(t1, htype, body, FragmentRoom(htype, cidSz, maxFrag), bufferAlloc, outs)
  }

  /** Dtls13FragmentsContinue, called while fragments are pending. */
  function FragmentsContinue(t: Tx, cidSz: nat, maxFrag: nat, outs: seq<Out>): (Tx, Ret)
    requires TxOK(t) && t.frag.Sending? && t.frag.off <= |t.frag.body|
    requires FragmentRoom(t.frag.htype, cidSz, maxFrag) > 0
  {
    var (t1, ret) := SendFragments(t, FragmentRoom(t.frag.htype, cidSz, maxFrag), outs, 0);
    (if ret == Done then NextNum(t1) else t1, ret)
  }
}
