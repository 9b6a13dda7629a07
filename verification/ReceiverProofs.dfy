/** What every receive step keeps, and what holds over whole runs of the receiver. */
module ReceiverProofs {
  import opened Bytes
  import opened Sequences
  import opened Reassembly
  import opened ReassemblyProofs
  import opened HandshakeHeader
  import opened Receiver

  /** The counted messages carry the numbers base, base + 1, base + 2, ... and the next one is expected. */
  ghost predicate LogOK(s: Rx)
  {
    && s.expected == (s.base + |s.log|) % 0x1_0000
    && forall i :: 0 <= i < |s.log| ==> s.log[i].num == (s.base + i) % 0x1_0000
  }

  ghost predicate RxOK(s: Rx)
  {
    LogOK(s) && ListOK(s.list) && |s.list| <= POOL_SZ
  }

  lemma ProcessedKeepsLog(s: Rx, num: nat, htype: nat, body: seq<byte>)
    requires LogOK(s) && num == s.expected
    ensures LogOK(WasProcessed(s, num, htype, body))
    ensures s.log <= WasProcessed(s, num, htype, body).log
  {
    if s.stateful {
      assert (s.base + |s.log| + 1) % 0x1_0000 == ((s.base + |s.log|) % 0x1_0000 + 1) % 0x1_0000;
    }
  }

  lemma {:induction false} ProcessBufferedKeeps(s: Rx, env: Env, k: nat)
    requires RxOK(s)
    ensures
      var (r, ret) := ProcessBuffered(s, env, k);
      && RxOK(r) && s.log <= r.log && r.base == s.base && r.stateful == s.stateful
      && |r.list| <= |s.list| && r.list == s.list[|s.list| - |r.list|..]
      && (ret == Success ==> !NextComplete(r.list, r.expected))
    decreases |s.list|
  {
    if NextComplete(s.list, s.expected) {
      var o, m := OutcomeAt(env, k), s.list[0];
      if CountsBuffered(o, m.htype, env.handShakeDone) {
        ProcessedKeepsLog(s, m.num, m.htype, m.full.value);
        var s1 := WasProcessed(s, m.num, m.htype, m.full.value).(list := s.list[1..]);
        if o == Done {
          ProcessBufferedKeeps(s1, env, k + 1);
        }
      }
    }
  }

  lemma InsertKeepsList(list: seq<Msg>, m: Msg)
    requires ListOK(list) && MsgOK(m) && m.htype != NO_SHAKE
    ensures var i := InsertIndex(list, m); ListOK(list[..i] + [m] + list[i..])
  {
    InsertAll(list, m, InsertIndex(list, m), x => MsgOK(x) && x.htype != NO_SHAKE);
  }

  lemma StoreKeeps(list: seq<Msg>, epoch: nat, h: Header, data: seq<byte>, env: Env)
    requires ListOK(list) && h.htype != NO_SHAKE
    ensures
      var r := Store(list, epoch, h, data, env);
      ListOK(r) && |list| <= |r| <= |list| + 1
  {
    var k := FindIndex(list, epoch, h.num);
    if k < |list| {
      SetKeepsMsgOK(list[k], epoch, h.num, h.htype, h.length, h.off, data, env.alloc, env.junk);
      assert Store(list, epoch, h, data, env) ==
        list[k := MsgAfterSet(list[k], epoch, h.num, h.htype, h.length, h.off, data, env.alloc, env.junk).0];
    } else if env.allocMsg {
      var m := NewMsg(h.length);
      SetKeepsMsgOK(m, epoch, h.num, h.htype, h.length, h.off, data, env.alloc, env.junk);
      var (m', st) := MsgAfterSet(m, epoch, h.num, h.htype, h.length, h.off, data, env.alloc, env.junk);
      if st == Ok {
        InsertKeepsList(list, m');
      }
    }
  }

  /** Behind the checks, the step answers 0 without looking at the buffer: an old number, or a part not accepted. */
  predicate DiscardsInOrder(s: Rx, h: Header, env: Env)
  {
    || h.num < s.expected
    || (!(h.off == 0 && h.fragLen == h.length) && env.fragments == Ignore)
  }

  predicate Discards(s: Rx, input: seq<byte>, env: Env)
  {
    match GetHeader(input)
    case TooShort => false
    case Parsed(h) => Checks(h, |input|, env) == Success && DiscardsInOrder(s, h, env)
  }

  /** A step that looked at the buffer: what it keeps, and that an answer of 0 leaves no complete next message. */
  ghost predicate Stepped(s: Rx, r: Rx, ret: Ret)
  {
    && RxOK(r) && r.stateful == s.stateful && s.log <= r.log && r.base == s.base
    && (ret == Success ==> !NextComplete(r.list, r.expected))
  }

  lemma StoredStep(s: Rx, epoch: nat, h: Header, data: seq<byte>, env: Env)
    requires RxOK(s) && h.htype != NO_SHAKE && |s.list| < POOL_SZ
    ensures var (r, ret) := ProcessBuffered(s.(list := Store(s.list, epoch, h, data, env)), env, 0); Stepped(s, r, ret)
  {
    StoreKeeps(s.list, epoch, h, data, env);
    ProcessBufferedKeeps(s.(list := Store(s.list, epoch, h, data, env)), env, 0);
  }

  lemma DirectStep(s: Rx, num: nat, htype: nat, data: seq<byte>, env: Env)
    requires RxOK(s) && num == s.expected
    ensures var (r, ret) := ProcessBuffered(WasProcessed(s, num, htype, data), env, 1); Stepped(s, r, ret)
  {
    ProcessedKeepsLog(s, num, htype, data);
    ProcessBufferedKeeps(WasProcessed(s, num, htype, data), env, 1);
  }

  /** Behind the checks: the input is discarded, or the buffer is looked at, or the step ends with an error. */
  lemma RecvInOrderKeeps(s: Rx, epoch: nat, h: Header, data: seq<byte>, env: Env)
    requires RxOK(s) && h.htype != NO_SHAKE
    ensures
      var (r, ret) := RecvInOrder(s, epoch, h, data, env);
      if DiscardsInOrder(s, h, env) then r == s && ret == Success else Stepped(s, r, ret)
  {
    if h.num == s.expected && h.off == 0 && h.fragLen == h.length && !env.async {
      DirectStep(s, h.num, h.htype, data, env);
    } else if |s.list| < POOL_SZ {
      StoredStep(s, epoch, h, data, env);
    }
  }

  /** One receive step: numbering, the list, and the head of the buffer after an answer of 0. */
  lemma RecvKeeps(s: Rx, epoch: nat, input: seq<byte>, env: Env)
    requires RxOK(s)
    ensures
      var (r, ret) := Recv(s, epoch, input, env);
      && RxOK(r) && r.stateful == s.stateful
      && (!env.awaitHello ==> s.log <= r.log && r.base == s.base)
      && (ret == Success ==> !NextComplete(r.list, r.expected) || r.list == s.list)
      && (ret == Success && !env.awaitHello ==> !NextComplete(r.list, r.expected) || r == s)
  {
    match GetHeader(input)
    case TooShort =>
    case Parsed(h) =>
      var s1 := Rebase(s, h, env);
      if Checks(h, |input|, env) == Success && !(env.awaitHello && h.htype != CLIENT_HELLO) {
        RecvInOrderKeeps(s1, epoch, h, input[HEADER_SZ..HEADER_SZ + h.fragLen], env);
      }
  }

  // ---------- runs ----------

  datatype Input = Input(epoch: nat, bytes: seq<byte>, env: Env)

  function Run(s: Rx, inputs: seq<Input>): (r: Rx)
    requires RxOK(s)
    ensures RxOK(r)
    decreases |inputs|
  {
    if inputs == [] then s
    else
      RecvKeeps(s, inputs[0].epoch, inputs[0].bytes, inputs[0].env);
      Run(Recv(s, inputs[0].epoch, inputs[0].bytes, inputs[0].env).0, inputs[1..])
  }

  lemma {:induction false} RunOneMore(s: Rx, inputs: seq<Input>, last: Input)
    requires RxOK(s)
    ensures Run(s, inputs + [last]) == Recv(Run(s, inputs), last.epoch, last.bytes, last.env).0
    decreases |inputs|
  {
    var all := inputs + [last];
    if inputs == [] {
      RecvKeeps(s, last.epoch, last.bytes, last.env);
      assert all[1..] == [];
    } else {
      RecvKeeps(s, inputs[0].epoch, inputs[0].bytes, inputs[0].env);
      assert all[1..] == inputs[1..] + [last];
      RunOneMore(Recv(s, inputs[0].epoch, inputs[0].bytes, inputs[0].env).0, inputs[1..], last);
    }
  }

  ghost predicate Verified(inputs: seq<Input>)
  {
    forall i :: 0 <= i < |inputs| ==> !inputs[i].env.awaitHello
  }

  /** Over any run: the counted numbers are consecutive from base, and nothing counted is ever taken back. */
  lemma {:induction false} CountedInOrder(s: Rx, inputs: seq<Input>)
    requires RxOK(s) && Verified(inputs)
    ensures
      var r := Run(s, inputs);
      && r.base == s.base && s.log <= r.log
      && forall i :: 0 <= i < |r.log| ==> r.log[i].num == (s.base + i) % 0x1_0000
    decreases |inputs|
  {
    if inputs != [] {
      var i := inputs[0];
      RecvKeeps(s, i.epoch, i.bytes, i.env);
      CountedInOrder(Recv(s, i.epoch, i.bytes, i.env).0, inputs[1..]);
    }
  }

  /** After an answer of 0 the head waits exactly when it waited before and the step discarded its input. */
  lemma StepHeadWaits(s: Rx, input: Input)
    requires RxOK(s) && !input.env.awaitHello
    ensures
      var (r, ret) := Recv(s, input.epoch, input.bytes, input.env);
      ret == Success ==>
        (NextComplete(r.list, r.expected) <==>
           NextComplete(s.list, s.expected) && Discards(s, input.bytes, input.env))
  {
    match GetHeader(input.bytes)
    case TooShort =>
    case Parsed(h) =>
      if Checks(h, |input.bytes|, input.env) == Success {
        RecvInOrderKeeps(s, input.epoch, h, input.bytes[HEADER_SZ..HEADER_SZ + h.fragLen], input.env);
      }
  }

  /**
   In every run: when a step answers 0, the buffer head is then a ready message with the expected number if and
   only if it was one before that step and the step discarded its input.
   */
  lemma HeadWaitsIff(s: Rx, inputs: seq<Input>, last: Input)
    requires RxOK(s) && Verified(inputs + [last])
    requires var r := Run(s, inputs); Recv(r, last.epoch, last.bytes, last.env).1 == Success
    ensures
      var r := Run(s, inputs);
      var r' := Recv(r, last.epoch, last.bytes, last.env).0;
      NextComplete(r'.list, r'.expected) <==>
        NextComplete(r.list, r.expected) && Discards(r, last.bytes, last.env)
  {
    assert (inputs + [last])[|inputs|] == last;
    StepHeadWaits(Run(s, inputs), last);
  }

  // ---------- a head that was overtaken ----------

  /** No buffered message is older than the expected one. */
  ghost predicate Ahead(s: Rx)
  {
    forall i :: 0 <= i < |s.list| ==> s.list[i].num >= s.expected
  }

  /** No buffered message has a number below floor. */
  ghost predicate Floor(list: seq<Msg>, floor: nat)
  {
    forall i :: 0 <= i < |list| ==> list[i].num >= floor
  }

  lemma StoreKeepsFloor(list: seq<Msg>, epoch: nat, h: Header, data: seq<byte>, env: Env, floor: nat)
    requires ListOK(list) && Floor(list, floor) && h.num >= floor && h.htype != NO_SHAKE
    ensures Floor(Store(list, epoch, h, data, env), floor)
  {
    var k := FindIndex(list, epoch, h.num);
    if k == |list| && env.allocMsg {
      var (m, st) := MsgAfterSet(NewMsg(h.length), epoch, h.num, h.htype, h.length, h.off, data, env.alloc, env.junk);
      if st == Ok {
        InsertAll(list, m, InsertIndex(list, m), (x: Msg) => x.num >= floor);
      }
    }
  }

  lemma ProcessedKeepsFloor(s: Rx, env: Env, k: nat, floor: nat)
    requires RxOK(s) && Floor(s.list, floor)
    ensures Floor(ProcessBuffered(s, env, k).0.list, floor)
  {
    ProcessBufferedKeeps(s, env, k);
  }

  lemma RecvKeepsFloor(s: Rx, epoch: nat, input: seq<byte>, env: Env, floor: nat)
    requires RxOK(s) && Floor(s.list, floor) && floor <= s.expected && !env.awaitHello
    ensures Floor(Recv(s, epoch, input, env).0.list, floor)
  {
    match GetHeader(input)
    case TooShort =>
    case Parsed(h) =>
      if Checks(h, |input|, env) == Success && h.num >= s.expected {
        var data := input[HEADER_SZ..HEADER_SZ + h.fragLen];
        if h.num == s.expected && h.off == 0 && h.fragLen == h.length && !env.async {
          ProcessedKeepsLog(s, h.num, h.htype, data);
          ProcessedKeepsFloor(WasProcessed(s, h.num, h.htype, data), env, 1, floor);
        } else if |s.list| < POOL_SZ {
          StoreKeeps(s.list, epoch, h, data, env);
          StoreKeepsFloor(s.list, epoch, h, data, env, floor);
          ProcessedKeepsFloor(s.(list := Store(s.list, epoch, h, data, env)), env, 0, floor);
        }
      }
  }

  lemma {:induction false} RunKeepsFloor(s: Rx, inputs: seq<Input>, floor: nat)
    requires RxOK(s) && Verified(inputs) && Floor(s.list, floor) && floor <= s.expected
    requires s.expected + |Run(s, inputs).log| - |s.log| < 0x1_0000
    ensures Floor(Run(s, inputs).list, floor)
    decreases |inputs|
  {
    if inputs != [] {
      var i := inputs[0];
      var s1 := Recv(s, i.epoch, i.bytes, i.env).0;
      RecvKeeps(s, i.epoch, i.bytes, i.env);
      RecvKeepsFloor(s, i.epoch, i.bytes, i.env, floor);
      CountedInOrder(s1, inputs[1..]);
      ExpectedGrows(s, s1);
      RunKeepsFloor(s1, inputs[1..], floor);
    }
  }

  /** Until the 16-bit number wraps, the expected number grows with the messages counted. */
  lemma ExpectedGrows(s: Rx, r: Rx)
    requires LogOK(s) && LogOK(r) && r.base == s.base && s.log <= r.log
    ensures s.expected + |r.log| - |s.log| < 0x1_0000 ==> r.expected == s.expected + |r.log| - |s.log|
    ensures s.expected + |r.log| - |s.log| < 0x1_0000 ==>
      forall i :: |s.log| <= i < |r.log| ==> r.log[i].num == s.expected + i - |s.log|
  {
    if s.expected + |r.log| - |s.log| < 0x1_0000 {
      NoWrap(s.base + |s.log|, |r.log| - |s.log|);
      forall i | |s.log| <= i < |r.log|
        ensures r.log[i].num == s.expected + i - |s.log|
      {
        NoWrap(s.base + |s.log|, i - |s.log|);
      }
    }
  }

  lemma NoWrap(a: nat, n: nat)
    requires a % 0x1_0000 + n < 0x1_0000
    ensures (a + n) % 0x1_0000 == a % 0x1_0000 + n
  {
    assert a + n == a / 0x1_0000 * 0x1_0000 + (a % 0x1_0000 + n);
  }

  /** A message with the number was counted between s and r. */
  ghost predicate CountedSince(s: Rx, r: Rx, num: nat)
  {
    exists i :: |s.log| <= i < |r.log| && r.log[i].num == num
  }

  /**
   In every run that starts with the buffer ahead, until the expected number wraps: the buffer is ahead afterwards
   exactly when it holds no part of a message the run has counted.
   */
  lemma AheadIffNotOvertaken(s: Rx, inputs: seq<Input>)
    requires RxOK(s) && Verified(inputs) && Ahead(s)
    ensures
      var r := Run(s, inputs);
      s.expected + |r.log| - |s.log| < 0x1_0000 ==>
        (Ahead(r) <==> forall i :: 0 <= i < |r.list| ==> !CountedSince(s, r, r.list[i].num))
  {
    var r := Run(s, inputs);
    CountedInOrder(s, inputs);
    ExpectedGrows(s, r);
    if s.expected + |r.log| - |s.log| < 0x1_0000 {
      RunKeepsFloor(s, inputs, s.expected);
      forall i | 0 <= i < |r.list|
        ensures CountedSince(s, r, r.list[i].num) <==> r.list[i].num < r.expected
      {
        if r.list[i].num < r.expected {
          assert r.log[|s.log| + r.list[i].num - s.expected].num == r.list[i].num;
        }
      }
    }
  }

  /** The head is a message whose number has been passed. */
  ghost predicate Overtaken(s: Rx)
  {
    s.list != [] && s.list[0].num < s.expected
  }

  lemma StoreKeepsHead(list: seq<Msg>, epoch: nat, h: Header, data: seq<byte>, env: Env)
    requires ListOK(list) && list != [] && h.htype != NO_SHAKE && list[0].num < h.num
    ensures Store(list, epoch, h, data, env) != [] && Store(list, epoch, h, data, env)[0] == list[0]
  {
    var m := NewMsg(h.length);
    SetKeepsMsgOK(m, epoch, h.num, h.htype, h.length, h.off, data, env.alloc, env.junk);
    var k := FindIndex(list, epoch, h.num);
    var (m', st) := MsgAfterSet(m, epoch, h.num, h.htype, h.length, h.off, data, env.alloc, env.junk);
    if k == |list| && env.allocMsg && st == Ok {
      assert m'.num == h.num || m' == m;
      assert InsertIndex(list, m') > 0 || m' == m;
    }
  }

  /** From s to r the overtaken head stayed, the list did not shrink, and the expected number did not wrap. */
  ghost predicate StillOvertaken(s: Rx, r: Rx)
  {
    && Overtaken(r) && |r.list| >= |s.list| > 0 && r.list[0] == s.list[0]
    && r.expected == s.expected + |r.log| - |s.log|
  }

  /** A whole copy of the expected message is counted, and the loop then stops at the overtaken head. */
  lemma DirectKeepsOvertaken(s: Rx, num: nat, htype: nat, data: seq<byte>, env: Env)
    requires RxOK(s) && Overtaken(s) && num == s.expected
    ensures
      var r := ProcessBuffered(WasProcessed(s, num, htype, data), env, 1).0;
      s.expected + |r.log| - |s.log| < 0x1_0000 ==> StillOvertaken(s, r)
  {
    var s1 := WasProcessed(s, num, htype, data);
    if s1.list[0].num < s1.expected {
      assert ProcessBuffered(s1, env, 1).0 == s1;
    } else {
      ProcessedKeepsLog(s, num, htype, data);
      ProcessBufferedKeeps(s1, env, 1);
    }
  }

  /** Whatever is stored, the loop stops at the overtaken head. */
  lemma StoredKeepsOvertaken(s: Rx, epoch: nat, h: Header, data: seq<byte>, env: Env)
    requires RxOK(s) && Overtaken(s) && h.htype != NO_SHAKE && h.num >= s.expected
    ensures StillOvertaken(s, ProcessBuffered(s.(list := Store(s.list, epoch, h, data, env)), env, 0).0)
  {
    StoreKeepsHead(s.list, epoch, h, data, env);
    StoreKeeps(s.list, epoch, h, data, env);
  }

  lemma InOrderKeepsOvertaken(s: Rx, epoch: nat, h: Header, data: seq<byte>, env: Env)
    requires RxOK(s) && Overtaken(s) && h.htype != NO_SHAKE
    ensures
      var r := RecvInOrder(s, epoch, h, data, env).0;
      s.expected + |r.log| - |s.log| < 0x1_0000 ==> StillOvertaken(s, r)
  {
    if h.num >= s.expected {
      if h.off == 0 && h.fragLen == h.length && h.num == s.expected && !env.async {
        DirectKeepsOvertaken(s, h.num, h.htype, data, env);
      } else {
        StoredKeepsOvertaken(s, epoch, h, data, env);
      }
    }
  }

  lemma RecvKeepsOvertaken(s: Rx, epoch: nat, input: seq<byte>, env: Env)
    requires RxOK(s) && Overtaken(s) && !env.awaitHello
    ensures
      var r := Recv(s, epoch, input, env).0;
      s.expected + |r.log| - |s.log| < 0x1_0000 ==> StillOvertaken(s, r)
  {
    match GetHeader(input)
    case TooShort =>
    case Parsed(h) =>
      if Checks(h, |input|, env) == Success {
        InOrderKeepsOvertaken(s, epoch, h, input[HEADER_SZ..HEADER_SZ + h.fragLen], env);
      }
  }

  /**
   A part of a message that a whole copy has overtaken stays at the head for the rest of the run, however long,
   and nothing that is buffered gets out any more; until the expected number wraps.
   */
  lemma {:induction false} OvertakenForever(s: Rx, inputs: seq<Input>)
    requires RxOK(s) && Verified(inputs) && Overtaken(s)
    ensures
      var r := Run(s, inputs);
      s.log <= r.log && (s.expected + |r.log| - |s.log| < 0x1_0000 ==> StillOvertaken(s, r))
    decreases |inputs|
  {
    if inputs != [] {
      var i := inputs[0];
      var s1 := Recv(s, i.epoch, i.bytes, i.env).0;
      RecvKeeps(s, i.epoch, i.bytes, i.env);
      RecvKeepsOvertaken(s, i.epoch, i.bytes, i.env);
      CountedInOrder(s1, inputs[1..]);
      if s.expected + |Run(s1, inputs[1..]).log| - |s.log| < 0x1_0000 {
        OvertakenForever(s1, inputs[1..]);
      }
    }
  }
}
