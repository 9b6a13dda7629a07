/** Short runs of the receiver, from its start, in which a buffered message waits or is overtaken. */
module ReceiverWitnesses {
  import opened Bytes
  import opened Options
  import opened HandshakeHeader
  import opened Reassembly
  import opened ReassemblyProofs
  import opened Receiver
  import opened ReceiverProofs

  /** Memory, and a handler that answers o. */
  function Answering(o: Outcome): Env
  {
    Env(true, true, false, Accept, false, true, true, true, _ => 0, [o])
  }

  function Start(n: word16): Rx { Rx(n, true, [], n, []) }

  /** A message of two bytes that has been received up to the given bytes. */
  function Entry(epoch: nat, num: nat, htype: nat, bytes: seq<byte>): Msg
  {
    if |bytes| == 2 then Msg(epoch, num, htype, 2, [], 2, Some(bytes))
    else Msg(epoch, num, htype, 2, [Bucket(0, bytes)], |bytes|, None)
  }

  function TwoBytes(htype: byte, num: word16, off: nat, len: nat): Header { Header(htype, 2, num, off, len) }

  lemma FirstSet(epoch: nat, num: nat, htype: nat, bytes: seq<byte>, junk: Junk)
    requires htype != NO_SHAKE && 1 <= |bytes| <= 2
    ensures MsgAfterSet(NewMsg(2), epoch, num, htype, 2, 0, bytes, true, junk) == (Entry(epoch, num, htype, bytes), Ok)
  {
    var b := [Bucket(0, bytes)];
    assert b[1..] == [] && Total(b) == |bytes|;
  }

  lemma SecondSet(epoch: nat, num: nat, htype: nat, x: byte, y: byte, junk: Junk)
    requires htype != NO_SHAKE
    ensures MsgAfterSet(Entry(epoch, num, htype, [x]), epoch, num, htype, 2, 1, [y], true, junk).0 ==
            Entry(epoch, num, htype, [x, y])
  {
    var b := [Bucket(0, [x])];
    PlaceIndexUnique(b, 1, 0);
    assert NextBucket(b, 1, 1) == None;
    assert Combined(b[0], None, 1, [y], junk).buf == [x, y];
    assert Merge(b, 1, [y], junk) == [Bucket(0, [x, y])];
    var r := [Bucket(0, [x, y])];
    assert r[1..] == [] && Total(r) == 2;
  }

  /** The receive step on a fragment of a message of two bytes. */
  lemma Received(rx: Rx, epoch: nat, h: Header, data: seq<byte>, env: Env) returns (p: seq<byte>)
    requires ListOK(rx.list) && h.length == 2 && h.fragLen == |data| && h.off + h.fragLen <= 2 && h.htype < NO_SHAKE
    requires env.sane && env.epochOk && !env.awaitHello
    ensures p == PutHeader(h) + data && Recv(rx, epoch, p, env) == RecvInOrder(rx, epoch, h, data, env)
  {
    p := PutHeader(h) + data;
    GetPutHeader(h, data);
    assert p[HEADER_SZ..HEADER_SZ + h.fragLen] == data;
  }

  lemma EntriesOK(epoch: nat, num: nat, htype: nat, bytes: seq<byte>)
    requires htype != NO_SHAKE && 1 <= |bytes| <= 2
    ensures ListOK([Entry(epoch, num, htype, bytes)])
  {
    FirstSet(epoch, num, htype, bytes, _ => 0);
    SetKeepsMsgOK(NewMsg(2), epoch, num, htype, 2, 0, bytes, true, _ => 0);
  }

  /** A whole message that is too early waits in the buffer. */
  lemma EarlyWhole(n: word16, epoch: nat, htype: byte, bytes: seq<byte>) returns (p: seq<byte>)
    requires htype < NO_SHAKE && |bytes| == 2 && n + 1 < 0x1_0000
    ensures Recv(Start(n), epoch, p, Answering(Done)) ==
            (Start(n).(list := [Entry(epoch, n + 1, htype, bytes)]), Success)
  {
    p := Received(Start(n), epoch, TwoBytes(htype, n + 1, 0, 2), bytes, Answering(Done));
    FirstSet(epoch, n + 1, htype, bytes, _ => 0);
    assert Store([], epoch, TwoBytes(htype, n + 1, 0, 2), bytes, Answering(Done)) ==
      [Entry(epoch, n + 1, htype, bytes)];
  }

  /** The first part of the expected message goes in front of a later message. */
  lemma FirstPart(n: word16, epoch: nat, htype: byte, x: byte, later: seq<Msg>) returns (p: seq<byte>)
    requires htype < NO_SHAKE && n + 1 < 0x1_0000 && ListOK(later)
    requires later == [] || (|later| == 1 && later[0].num == n + 1 && later[0].epoch == epoch)
    ensures Recv(Start(n).(list := later), epoch, p, Answering(Done)) ==
            (Start(n).(list := [Entry(epoch, n, htype, [x])] + later), Success)
  {
    var rx := Start(n).(list := later);
    p := Received(rx, epoch, TwoBytes(htype, n, 0, 1), [x], Answering(Done));
    FirstSet(epoch, n, htype, [x], _ => 0);
    assert Store(later, epoch, TwoBytes(htype, n, 0, 1), [x], Answering(Done)) == [Entry(epoch, n, htype, [x])] + later;
  }

  /** The whole message then arrives directly, and is counted. */
  lemma WholeCopy(n: word16, epoch: nat, htype: byte, x: byte, y: byte) returns (p: seq<byte>)
    requires htype < NO_SHAKE && n + 1 < 0x1_0000 && ListOK([Entry(epoch, n, htype, [x])])
    ensures Recv(Start(n).(list := [Entry(epoch, n, htype, [x])]), epoch, p, Answering(Done)) ==
            (Rx(n + 1, true, [Entry(epoch, n, htype, [x])], n, [Accepted(n, htype, [x, y])]), Success)
  {
    var rx := Start(n).(list := [Entry(epoch, n, htype, [x])]);
    p := Received(rx, epoch, TwoBytes(htype, n, 0, 2), [x, y], Answering(Done));
    CountedFirst(rx, htype, [x, y]);
  }

  lemma CountedFirst(rx: Rx, htype: nat, body: seq<byte>)
    requires rx.stateful && rx.expected + 1 < 0x1_0000 && rx.log == []
    ensures WasProcessed(rx, rx.expected, htype, body) ==
            Rx(rx.expected + 1, true, rx.list, rx.base, [Accepted(rx.expected, htype, body)])
  {
  }

  /** Every step of the run answered 0. */
  ghost predicate AllZero(s: Rx, inputs: seq<Input>)
    requires RxOK(s)
    decreases |inputs|
  {
    inputs == [] ||
    (Recv(s, inputs[0].epoch, inputs[0].bytes, inputs[0].env).1 == Success &&
     (RecvKeeps(s, inputs[0].epoch, inputs[0].bytes, inputs[0].env);
      AllZero(Recv(s, inputs[0].epoch, inputs[0].bytes, inputs[0].env).0, inputs[1..])))
  }

  /** The run leads from the start to r, and every step answered 0 if zero says so. */
  ghost predicate Leads(n: word16, inputs: seq<Input>, r: Rx, zero: bool)
  {
    Verified(inputs) && Run(Start(n), inputs) == r && (zero ==> AllZero(Start(n), inputs))
  }

  lemma {:induction false} ZeroOneMore(s: Rx, inputs: seq<Input>, last: Input)
    requires RxOK(s) && AllZero(s, inputs)
    requires var r := Run(s, inputs); Recv(r, last.epoch, last.bytes, last.env).1 == Success
    ensures AllZero(s, inputs + [last])
    decreases |inputs|
  {
    var all := inputs + [last];
    if inputs == [] {
      assert all[1..] == [];
      RecvKeeps(s, last.epoch, last.bytes, last.env);
      assert AllZero(Recv(s, last.epoch, last.bytes, last.env).0, []);
    } else {
      RecvKeeps(s, inputs[0].epoch, inputs[0].bytes, inputs[0].env);
      assert all[1..] == inputs[1..] + [last];
      ZeroOneMore(Recv(s, inputs[0].epoch, inputs[0].bytes, inputs[0].env).0, inputs[1..], last);
    }
  }

  lemma OneMore(n: word16, inputs: seq<Input>, s: Rx, last: Input, r: Rx, ret: Ret, zero: bool)
    requires Leads(n, inputs, s, zero) && ListOK(s.list) && !last.env.awaitHello
    requires Recv(s, last.epoch, last.bytes, last.env) == (r, ret) && (zero ==> ret == Success)
    ensures Leads(n, inputs + [last], r, zero)
  {
    RunOneMore(Start(n), inputs, last);
    if zero {
      ZeroOneMore(Start(n), inputs, last);
    }
  }

  /** The part is buffered. */
  lemma AfterPart(n: word16, epoch: nat, htype: byte, x: byte) returns (part: Input)
    requires htype < NO_SHAKE && n + 1 < 0x1_0000
    ensures Leads(n, [part], Start(n).(list := [Entry(epoch, n, htype, [x])]), true)
  {
    var none: seq<Msg> := [];
    assert [Entry(epoch, n, htype, [x])] + none == [Entry(epoch, n, htype, [x])];
    var p := FirstPart(n, epoch, htype, x, none);
    part := Input(epoch, p, Answering(Done));
    EntriesOK(epoch, n, htype, [x]);
    OneMore(n, [], Start(n), part, Start(n).(list := [Entry(epoch, n, htype, [x])]), Success, true);
    assert [] + [part] == [part];
  }

  /** A part of a message is buffered, and the whole message then arrives and is counted: the part is overtaken. */
  lemma PartIsOvertaken(n: word16, epoch: nat, htype: byte, x: byte, y: byte) returns (part: Input, whole: Input)
    requires htype < NO_SHAKE && n + 1 < 0x1_0000
    ensures Verified([part, whole]) && AllZero(Start(n), [part, whole])
    ensures var r := Run(Start(n), [part, whole]); Overtaken(r) && r.log == [Accepted(n, htype, [x, y])]
  {
    part := AfterPart(n, epoch, htype, x);
    EntriesOK(epoch, n, htype, [x]);
    var q := WholeCopy(n, epoch, htype, x, y);
    whole := Input(epoch, q, Answering(Done));
    var entry := [Entry(epoch, n, htype, [x])];
    OneMore(n, [part], Start(n).(list := entry), whole, Rx(n + 1, true, entry, n, [Accepted(n, htype, [x, y])]),
            Success, true);
    assert [part] + [whole] == [part, whole];
  }

  // ---------- a head that waits ----------

  /** The second part completes the head; the handler answers WANT_WRITE, which counts it and stops. */
  lemma SecondPart(n: word16, epoch: nat, htype: byte, x: byte, y: byte, later: Msg) returns (p: seq<byte>)
    requires htype < NO_SHAKE && n + 1 < 0x1_0000 && later.num == n + 1 && ListOK([Entry(epoch, n, htype, [x]), later])
    ensures Recv(Start(n).(list := [Entry(epoch, n, htype, [x]), later]), epoch, p, Answering(WantWrite)) ==
            (Rx(n + 1, true, [later], n, [Accepted(n, htype, [x, y])]), Handler(WantWrite))
    ensures Discards(Rx(n + 1, true, [later], n, [Accepted(n, htype, [x, y])]), p, Answering(Done))
    ensures ListOK([later])
    ensures Recv(Rx(n + 1, true, [later], n, [Accepted(n, htype, [x, y])]), epoch, p, Answering(Done)) ==
            (Rx(n + 1, true, [later], n, [Accepted(n, htype, [x, y])]), Success)
  {
    var rx := Start(n).(list := [Entry(epoch, n, htype, [x]), later]);
    var h := TwoBytes(htype, n, 1, 1);
    p := Received(rx, epoch, h, [y], Answering(WantWrite));
    SecondSet(epoch, n, htype, x, y, _ => 0);
    assert Store(rx.list, epoch, h, [y], Answering(WantWrite)) == [Entry(epoch, n, htype, [x, y]), later];
    var full := rx.(list := [Entry(epoch, n, htype, [x, y]), later]);
    assert full.list[1..] == [later];
    CountedFirst(full, htype, [x, y]);
    GetPutHeader(h, [y]);
  }

  /** The list holds a part of the expected message and, behind it, all of the next one. */
  lemma AfterEarlyAndPart(n: word16, epoch: nat, htype: byte, x: byte, later: seq<byte>) returns (inputs: seq<Input>)
    requires htype < NO_SHAKE && n + 1 < 0x1_0000 && |later| == 2
    ensures Leads(n, inputs, Start(n).(list := [Entry(epoch, n, htype, [x]), Entry(epoch, n + 1, htype, later)]), true)
    ensures ListOK([Entry(epoch, n, htype, [x]), Entry(epoch, n + 1, htype, later)])
  {
    var b, a := Entry(epoch, n + 1, htype, later), Entry(epoch, n, htype, [x]);
    EntriesOK(epoch, n + 1, htype, later);
    EntriesOK(epoch, n, htype, [x]);
    assert [b][0] == b && [a][0] == a && [a] + [b] == [a, b];
    var p := EarlyWhole(n, epoch, htype, later);
    OneMore(n, [], Start(n), Input(epoch, p, Answering(Done)), Start(n).(list := [b]), Success, true);
    var q := FirstPart(n, epoch, htype, x, [b]);
    inputs := [] + [Input(epoch, p, Answering(Done))];
    OneMore(n, inputs, Start(n).(list := [b]), Input(epoch, q, Answering(Done)), Start(n).(list := [a, b]),
      Success, true);
    inputs := inputs + [Input(epoch, q, Answering(Done))];
  }

  /**
   A later message is buffered, then the expected one in two parts, whose handler answers WANT_WRITE; the second
   part arrives once more and is answered 0, and the later message, ready and expected, still waits.
   */
  lemma HeadWaitsBehindDuplicate(n: word16, epoch: nat, htype: byte, x: byte, y: byte, later: seq<byte>)
    returns (inputs: seq<Input>, again: Input)
    requires htype < NO_SHAKE && n + 1 < 0x1_0000 && |later| == 2
    ensures Verified(inputs) && !again.env.awaitHello
    ensures
      var r := Run(Start(n), inputs);
      && Recv(r, again.epoch, again.bytes, again.env) == (r, Success)
      && NextComplete(r.list, r.expected) && r.log == [Accepted(n, htype, [x, y])]
  {
    inputs := AfterEarlyAndPart(n, epoch, htype, x, later);
    var b := Entry(epoch, n + 1, htype, later);
    var p := SecondPart(n, epoch, htype, x, y, b);
    var second := Input(epoch, p, Answering(WantWrite));
    OneMore(n, inputs, Start(n).(list := [Entry(epoch, n, htype, [x]), b]), second,
            Rx(n + 1, true, [b], n, [Accepted(n, htype, [x, y])]), Handler(WantWrite), false);
    inputs, again := inputs + [second], Input(epoch, p, Answering(Done));
  }
}
