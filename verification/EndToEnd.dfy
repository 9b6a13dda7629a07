/**
 Sender, network and receiver together.  Whatever was emitted may be delivered any number of times, in any
 order, or never; the sender may retransmit, process acknowledgements and change epochs in between.
 */
module EndToEnd {
  import opened Bytes
  import opened HandshakeHeader
  import opened Options
  import opened Reassembly
  import opened ReassemblyProofs
  import opened FragmentCuts
  import R = Receiver
  import RP = ReceiverProofs
  import opened RtxRecords
  import T = SendPath

  /**
   A message of which some fragment was put into a record, with its number and the places where it was cut so far.  A
   message that was given up and the next one share their number.
   */
  datatype Message = Message(num: word16, htype: byte, body: seq<byte>, cuts: seq<nat>)

  datatype Sys = Sys(tx: T.Tx, rx: R.Rx, msgs: seq<Message>, start: nat)

  datatype Step =
    | Send(htype: byte, body: seq<byte>, cidSz: nat, maxFrag: nat, bufferAlloc: bool, outs: seq<T.Out>)
    | Continue(cidSz: nat, maxFrag: nat, outs: seq<T.Out>)
    | Resend(rtxOuts: seq<T.RtxOutcome>)
    | Ack(acks: seq<RecordNumber>)
    | Flush(keepTickets: bool)
    | NewEpoch(epoch: word64, evicted: Option<word64>)
    | Deliver(k: nat, env: R.Env)

  /** The cuts of the pending message after a call of the fragmenter: the ends of the fragments in records. */
  function CutsAfter(t: T.Tx, room: nat, outs: seq<T.Out>, k: nat, cuts: seq<nat>): (r: seq<nat>)
    requires T.TxOK(t) && t.frag.Sending? && t.frag.off <= |t.frag.body| && room > 0
    ensures |cuts| <= |r|
    decreases |t.frag.body| - t.frag.off
  {
    if t.frag.off == |t.frag.body| then cuts
    else
      var (t1, ret) := T.OneFragment(t, room, T.OutAt(outs, k));
      var at := t.frag.off + T.Smaller(room, |t.frag.body| - t.frag.off);
      if ret == T.Done then CutsAfter(t1, room, outs, k + 1, cuts + [at])
      else if InRecord(ret) then cuts + [at]
      else cuts
  }

  /** The answer leaves the fragment in a record: sent, waiting, or in the output buffer when sending failed. */
  predicate InRecord(ret: T.Ret) { ret == T.Done || ret == T.WouldBlock || ret == T.LateError }

  /** The message is cut completely. */
  predicate Whole(m: Message)
  {
    |m.cuts| >= 2 && m.cuts[|m.cuts| - 1] == |m.body|
  }

  /**
   What callers owe: a new message only when no message is pending, lengths that fit the 16-bit length of the send
   call, a message number left; an epoch that was evicted does not return, and the newest one is not evicted; and
   only emitted records can be delivered.
   */
  ghost predicate Enabled(s: Sys, step: Step)
  {
    match step
    case Send(htype, body, cidSz, maxFrag, _, _) =>
      && s.tx.frag == T.Idle && s.tx.num + 1 < 0x1_0000
      && T.FragmentRoom(htype, cidSz, maxFrag) > 0 && |body| < 0x1_0000
    case Continue(cidSz, maxFrag, _) =>
      s.tx.frag.Sending? && T.FragmentRoom(s.tx.frag.htype, cidSz, maxFrag) > 0
    case Resend(_) => true
    case Ack(_) => true
    case Flush(_) => true
    case NewEpoch(epoch, evicted) =>
      && epoch !in s.tx.link.retired
      && (evicted.Some? ==> evicted.value in s.tx.link.next && evicted.value != s.tx.top)
    case Deliver(k, env) => k < |s.tx.link.wire| && !env.awaitHello
  }

  function SetLast(msgs: seq<Message>, cuts: seq<nat>): seq<Message>
    requires msgs != []
  {
    msgs[..|msgs| - 1] + [msgs[|msgs| - 1].(cuts := cuts)]
  }

  function WithTopEpoch(t: T.Tx): T.Tx { t.(link := t.link.(current := t.top)) }

  /**
   An epoch is installed, in a free slot or in that of an evicted one.  Encryption refers to its epoch by the slot, so
   it moves on to the new epoch when its own is evicted.
   */
  function WithEpoch(l: T.Link, epoch: word64, evicted: Option<word64>): T.Link
  {
    if epoch in l.next then l
    else
      var gone := if evicted.Some? then {evicted.value} else {};
      l.(next := (l.next - gone)[epoch := 0], current := if l.current in gone then epoch else l.current,
         retired := l.retired + gone)
  }

  /** The messages after a call of HandshakeSend: a new one, unless no fragment of it came into a record. */
  function SentMessages(t: T.Tx, htype: byte, body: seq<byte>, cidSz: nat, maxFrag: nat, bufferAlloc: bool,
                        outs: seq<T.Out>, msgs: seq<Message>): seq<Message>
    requires T.TxOK(t) && t.frag == T.Idle && T.FragmentRoom(htype, cidSz, maxFrag) > 0
  {
    if t.link.current != t.top && t.top !in t.link.next then msgs
    else
      var t1 := WithTopEpoch(t);
      if T.FitsWhole(htype, body, cidSz, maxFrag) then WholeMessages(t1, htype, body, T.OutAt(outs, 0), msgs)
      else if !bufferAlloc then msgs
      else FragmentedMessages(t1.(frag := T.Sending(htype, body, 0)), T.FragmentRoom(htype, cidSz, maxFrag), outs, msgs)
  }

  function WholeMessages(t: T.Tx, htype: byte, body: seq<byte>, out: T.Out, msgs: seq<Message>): seq<Message>
    requires T.TxOK(t)
  {
    if InRecord(T.SendWhole(t, htype, body, out).1) then msgs + [Message(t.num, htype, body, [0, |body|])] else msgs
  }

  /** A message given up before its first fragment leaves no trace. */
  function FragmentedMessages(t: T.Tx, room: nat, outs: seq<T.Out>, msgs: seq<Message>): seq<Message>
    requires T.TxOK(t) && t.frag.Sending? && t.frag.off == 0 && room > 0
  {
    var cuts := CutsAfter(t, room, outs, 0, [0]);
    if cuts == [0] then msgs else msgs + [Message(t.num, t.frag.htype, t.frag.body, cuts)]
  }

  ghost function Apply(s: Sys, step: Step): Sys
    requires T.TxOK(s.tx) && R.ListOK(s.rx.list) && Enabled(s, step)
    requires s.tx.frag.Sending? ==> s.tx.frag.off <= |s.tx.frag.body| && s.msgs != []
  {
    match step
    case Send(htype, body, cidSz, maxFrag, bufferAlloc, outs) =>
      s.(tx := T.HandshakeSend(s.tx, htype, body, cidSz, maxFrag, bufferAlloc, outs).0,
         msgs := SentMessages(s.tx, htype, body, cidSz, maxFrag, bufferAlloc, outs, s.msgs))
    case Continue(cidSz, maxFrag, outs) =>
      var cuts := CutsAfter(s.tx, T.FragmentRoom(s.tx.frag.htype, cidSz, maxFrag), outs, 0, s.msgs[|s.msgs| - 1].cuts);
      s.(tx := T.FragmentsContinue(s.tx, cidSz, maxFrag, outs).0, msgs := SetLast(s.msgs, cuts))
    case Resend(rtxOuts) =>
      var (l, recs, ret) := T.Retransmit(s.tx.link, s.tx.recs, 0, rtxOuts);
      s.(tx := s.tx.(link := l, recs := recs))
    case Ack(acks) =>
      s.(tx := s.tx.(recs := RemoveAll(s.tx.recs, acks)))
    case Flush(keepTickets) =>
      s.(tx := s.tx.(recs := Flushed(s.tx.recs, keepTickets)))
    case NewEpoch(epoch, evicted) =>
      s.(tx := s.tx.(link := WithEpoch(s.tx.link, epoch, evicted), top := epoch))
    case Deliver(k, env) =>
      var e := s.tx.link.wire[k];
      s.(rx := R.Recv(s.rx, e.rn.epoch, e.payload, env).0)
  }

  // ---------- the invariant ----------

  ghost predicate CutSoFar(m: Message)
  {
    && m.num < 0xFFFF && m.cuts != [] && m.cuts[0] == 0 && CutTo(m) <= |m.body| < 0x1_0000
    && (m.body == [] ==> m.cuts == [0, 0])
    && (m.body != [] ==> Rising(m.cuts))
  }

  ghost predicate AllCut(msgs: seq<Message>)
  {
    forall i :: 0 <= i < |msgs| ==> CutSoFar(msgs[i])
  }

  /** How far the message was cut. */
  function CutTo(m: Message): nat
    requires m.cuts != []
  {
    m.cuts[|m.cuts| - 1]
  }

  /** The cut so far, with the rest of the message counted as one more fragment. */
  function AsCut(m: Message): seq<nat>
  {
    if Whole(m) then m.cuts else m.cuts + [|m.body|]
  }

  /** p carries fragment j of message i. */
  ghost predicate IsFragment(p: seq<byte>, msgs: seq<Message>, i: nat, j: nat)
  {
    && i < |msgs|
    && var m := msgs[i];
      && j + 1 < |m.cuts| && m.cuts[j] <= m.cuts[j + 1] <= |m.body|
      && p == T.FragmentBytes(m.htype, m.body, m.num, m.cuts[j], m.cuts[j + 1] - m.cuts[j])
  }

  ghost predicate Carried(p: seq<byte>, msgs: seq<Message>)
  {
    exists i: nat, j: nat :: IsFragment(p, msgs, i, j)
  }

  ghost predicate Payloads(t: T.Tx, msgs: seq<Message>)
  {
    && (forall i :: 0 <= i < |t.link.wire| ==> Carried(t.link.wire[i].payload, msgs))
    && (forall i :: 0 <= i < |t.recs| ==> Carried(t.recs[i].data, msgs))
  }

  ghost predicate SenderCore(t: T.Tx, msgs: seq<Message>)
  {
    T.TxOK(t) && AllCut(msgs) && Payloads(t, msgs)
  }

  ghost predicate SenderInv(t: T.Tx, msgs: seq<Message>)
  {
    SenderCore(t, msgs) && (t.frag.Sending? ==> Pending(t, msgs))
  }

  /** The last message is the one being cut. */
  ghost predicate Pending(t: T.Tx, msgs: seq<Message>)
  {
    && msgs != [] && t.frag.Sending?
    && var m := msgs[|msgs| - 1];
      && m.num == t.num && m.htype == t.frag.htype && m.body == t.frag.body && m.body != []
      && m.cuts != [] && CutTo(m) == t.frag.off
  }

  /** The numbers of the messages go up from start by at most one, and t.num is the last one or the next. */
  ghost predicate InSequence(t: T.Tx, msgs: seq<Message>, start: nat)
  {
    if msgs == [] then t.num == start
    else msgs[0].num == start && Consecutive(msgs) && msgs[|msgs| - 1].num <= t.num <= msgs[|msgs| - 1].num + 1
  }

  ghost predicate Consecutive(msgs: seq<Message>)
  {
    forall i :: 0 < i < |msgs| ==> Follows(msgs, i)
  }

  ghost predicate Follows(msgs: seq<Message>, i: int)
    requires 0 < i < |msgs|
  {
    msgs[i - 1].num <= msgs[i].num <= msgs[i - 1].num + 1
  }

  /** A stored message is an honest part of the message, made of fragments that were put into records. */
  ghost predicate StoredPart(m: Msg, msg: Message)
  {
    && m.num == msg.num && m.htype == msg.htype && Honest(m, msg.body, AsCut(msg))
    && msg.cuts != [] && (m.Ready() ==> Whole(msg)) && (!m.Ready() ==> Within(m.buckets, CutTo(msg)))
  }

  ghost predicate StoredOf(m: Msg, msgs: seq<Message>)
  {
    exists i :: 0 <= i < |msgs| && StoredPart(m, msgs[i])
  }

  ghost predicate AllStored(list: seq<Msg>, msgs: seq<Message>)
  {
    forall k :: 0 <= k < |list| ==> StoredOf(list[k], msgs)
  }

  ghost predicate ReceiverInv(rx: R.Rx, msgs: seq<Message>, start: nat)
  {
    && RP.RxOK(rx) && rx.stateful && rx.base == start && LogSent(rx.log, msgs, start) && AllStored(rx.list, msgs)
  }

  /** The message was put into records completely under the number, and is the accepted one. */
  ghost predicate IsAccepted(a: R.Accepted, m: Message, num: nat)
  {
    m.num == num && a == R.Accepted(num, m.htype, m.body) && Whole(m)
  }

  ghost predicate SentWhole(a: R.Accepted, msgs: seq<Message>, num: nat)
  {
    exists k :: 0 <= k < |msgs| && IsAccepted(a, msgs[k], num)
  }

  /** The accepted messages carry consecutive numbers, and each was sent under its number, with its type and body. */
  ghost predicate LogSent(log: seq<R.Accepted>, msgs: seq<Message>, start: nat)
  {
    forall i :: 0 <= i < |log| ==> SentWhole(log[i], msgs, start + i)
  }

  /** The message went out in one record. */
  predicate OneRecord(m: Message)
  {
    m.cuts == [0, |m.body|]
  }

  /** The receiver can tell fragments of the two messages apart, or no fragment of one can be mixed with the other. */
  ghost predicate Told(a: Message, b: Message)
  {
    a.num == b.num ==> a.htype != b.htype || |a.body| != |b.body| || (OneRecord(a) && OneRecord(b))
  }

  ghost predicate AllTold(msgs: seq<Message>)
  {
    forall i, j :: 0 <= i < j < |msgs| ==> Told(msgs[i], msgs[j])
  }

  ghost predicate Inv(s: Sys)
  {
    && SenderInv(s.tx, s.msgs) && InSequence(s.tx, s.msgs, s.start) && AllTold(s.msgs)
    && ReceiverInv(s.rx, s.msgs, s.start)
  }

  /** The fragment in the payload does not fall in a gap of the stored message that takes it. */
  ghost predicate NoGap(rx: R.Rx, epoch: nat, payload: seq<byte>)
  {
    match GetHeader(payload)
    case TooShort => true
    case Parsed(h) =>
      var k := R.FindIndex(rx.list, epoch, h.num);
      k < |rx.list| ==> FitsNoGap(rx.list[k], h)
  }

  ghost predicate FitsNoGap(m: Msg, h: Header)
  {
    m.htype == h.htype && m.sz == h.length && !m.Ready() ==> !Gap(m.buckets, h.off, h.fragLen)
  }

  /** Every message, counting an unsent rest as a fragment, is in at most four fragments. */
  ghost predicate AllShort(msgs: seq<Message>)
  {
    forall i :: 0 <= i < |msgs| ==> |AsCut(msgs[i])| - 1 <= MAX_SAFE_FRAGMENTS
  }
}
