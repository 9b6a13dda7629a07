/** The receiver as the code runs it: fields updated step by step, proved against module Receiver. */
module ReceiverObject {
  import opened Bytes
  import opened Reassembly
  import opened HandshakeHeader
  import opened Receiver
  import opened ReceiverProofs

  class HandshakeReceiver {
    var expected: word16
    var stateful: bool
    var msgs: seq<Msg>
    var msgCount: nat
    ghost var base: word16
    ghost var log: seq<Accepted>

    ghost function State(): Rx
      reads this
    {
      Rx(expected, stateful, msgs, base, log)
    }

    ghost predicate Valid()
      reads this
    {
      RxOK(State()) && msgCount == |msgs|
    }

    constructor (stateful: bool)
      ensures Valid() && State() == Rx(0, stateful, [], 0, [])
    {
      this.stateful := stateful;
      expected, msgs, msgCount, base, log := 0, [], 0, 0, [];
    }

    method MsgWasProcessed(ghost num: nat, ghost htype: nat, ghost body: seq<byte>)
      requires Valid() && num == expected
      modifies this`expected, this`log
      ensures Valid() && State() == WasProcessed(old(State()), num, htype, body)
    {
      ProcessedKeepsLog(State(), num, htype, body);
      if stateful {
        log := log + [Accepted(num, htype, body)];
        expected := (expected + 1) % 0x1_0000;
      }
    }

    method ProcessBufferedMessages(env: Env, start: nat) returns (ret: Ret)
      requires Valid()
      modifies this
      ensures Valid() && (State(), ret) == ProcessBuffered(old(State()), env, start)
    {
      ret := Success;
      var k := start;
      while msgs != []
        invariant Valid() && ret == Success
        invariant ProcessBuffered(old(State()), env, start) == ProcessBuffered(State(), env, k)
        decreases |msgs|
      {
        var msg := msgs[0];
        if expected != msg.num || !msg.Ready() {
          break;
        }
        var outcome := OutcomeAt(env, k);
        ProcessBufferedKeeps(State(), env, k);
        if CountsBuffered(outcome, msg.htype, env.handShakeDone) {
          MsgWasProcessed(msg.num, msg.htype, msg.full.value);
          msgs := msgs[1..];
          msgCount := msgCount - 1;
        }
        if outcome != Done {
          ret := Handler(outcome);
          break;
        }
        k := k + 1;
      }
    }

    /** DtlsMsgFind: the index of the message, or the length of the list. */
    method FindMessage(epoch: nat, num: nat) returns (k: nat)
      ensures k == FindIndex(msgs, epoch, num)
    {
      k := 0;
      while k < |msgs| && !(msgs[k].epoch == epoch && msgs[k].num == num)
        invariant k <= |msgs|
        invariant forall i :: 0 <= i < k ==> !(msgs[i].epoch == epoch && msgs[i].num == num)
      {
        k := k + 1;
      }
    }

    /** DtlsMsgInsert */
    method InsertMessage(m: Msg)
      modifies this`msgs, this`msgCount
      ensures var i := InsertIndex(old(msgs), m); msgs == old(msgs)[..i] + [m] + old(msgs)[i..]
      ensures msgCount == old(msgCount) + 1
    {
      var i := 0;
      while i < |msgs| && !Before(m, msgs[i])
        invariant i <= |msgs|
        invariant forall j :: 0 <= j < i ==> !Before(m, msgs[j])
      {
        i := i + 1;
      }
      assert i == InsertIndex(msgs, m);
      msgs := msgs[..i] + [m] + msgs[i..];
      msgCount := msgCount + 1;
    }

    /** DtlsMsgStore */
    method StoreFragment(epoch: nat, h: Header, data: seq<byte>, env: Env)
      requires Valid() && h.htype != NO_SHAKE && |msgs| < POOL_SZ
      modifies this`msgs, this`msgCount
      ensures Valid() && State() == old(State()).(list := Store(old(msgs), epoch, h, data, env))
    {
      StoreKeeps(msgs, epoch, h, data, env);
      var k := FindMessage(epoch, h.num);
      var m, status;
      if k < |msgs| {
        m, status := DtlsMsgSet(msgs[k], epoch, h.num, h.htype, h.length, h.off, data, env.alloc, env.junk);
        msgs := msgs[k := m];
      } else if env.allocMsg {
        m, status := DtlsMsgSet(NewMsg(h.length), epoch, h.num, h.htype, h.length, h.off, data, env.alloc, env.junk);
        if status == Ok {
          InsertMessage(m);
        }
      }
    }

    method HandshakeRecv(epoch: nat, input: seq<byte>, env: Env) returns (ret: Ret)
      requires Valid()
      modifies this
      ensures Valid() && (State(), ret) == Recv(old(State()), epoch, input, env)
    {
      RecvKeeps(State(), epoch, input, env);
      var parsed := GetHeader(input);
      if parsed.TooShort? {
        return ParseError;
      }
      var h := parsed.h;
      if !env.sane {
        return SanityError;
      }
      if !env.epochOk || h.htype == NO_SHAKE {
        return EpochError;
      }
      if env.awaitHello {
        if h.htype != CLIENT_HELLO {
          return Success;
        }
        expected, base, log := h.num, h.num, [];
      }
      if HEADER_SZ + h.fragLen > |input| {
        return IncompleteData;
      }
      if h.off + h.fragLen > h.length {
        return BufferError;
      }
      if h.num < expected {
        return Success;
      }
      var data := input[HEADER_SZ..HEADER_SZ + h.fragLen];
      var isComplete := h.off == 0 && h.fragLen == h.length;
      if !isComplete && env.fragments != Accept {
        return if env.fragments == Ignore then Success else CallbackFailed;
      }
      if !isComplete || h.num > expected || env.async {
        if msgCount >= POOL_SZ {
          return TooManyMessages;
        }
        StoreFragment(epoch, h, data, env);
        ret := Success;
        if NextComplete(msgs, expected) {
          ret := ProcessBufferedMessages(env, 0);
        }
        return;
      }
      var outcome := OutcomeAt(env, 0);
      if outcome != Done {
        return Handler(outcome);
      }
      MsgWasProcessed(h.num, h.htype, data);
      ret := Success;
      if NextComplete(msgs, expected) {
        ret := ProcessBufferedMessages(env, 1);
      }
    }
  }
}
