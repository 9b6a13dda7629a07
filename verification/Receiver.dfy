/**
 In-order delivery of handshake messages: _Dtls13HandshakeRecv, Dtls13ProcessBufferedMessages and
 Dtls13MsgWasProcessed of boot/src/dtls13.c, with DtlsMsgStore and DtlsMsgInsert of boot/src/internal.c.
 */
module Receiver {
  import opened Bytes
  import opened Reassembly
  import opened ReassemblyProofs
  import opened HandshakeHeader

  const POOL_SZ := 20
  const CLIENT_HELLO: byte := 1
  const CERTIFICATE_REQUEST: byte := 13

  /** What the message handler (or the encryption check before it) answers. */
  datatype Outcome = Done | WantWrite | Pending | Rejected | Failed

  /** What Dtls13AcceptFragmented and the first-fragment ClientHello check say about an incomplete message. */
  datatype Fragments = Accept | Ignore | CallbackError

  /** Everything a receive step learns from outside. */
  datatype Env = Env(sane: bool, epochOk: bool, awaitHello: bool, fragments: Fragments, async: bool,
                     handShakeDone: bool, allocMsg: bool, alloc: bool, junk: Junk, outcomes: seq<Outcome>)

  datatype Ret = Success | ParseError | SanityError | EpochError | IncompleteData | BufferError
               | CallbackFailed | TooManyMessages | Handler(o: Outcome)

  datatype Accepted = Accepted(num: nat, htype: nat, body: seq<byte>)

  /** The receiver's state, with the history of counted messages since number base. */
  datatype Rx = Rx(expected: word16, stateful: bool, list: seq<Msg>, base: word16, log: seq<Accepted>)

  function OutcomeAt(env: Env, k: nat): Outcome
  {
    if k < |env.outcomes| then env.outcomes[k] else Failed
  }

  /** Dtls13MsgWasProcessed, after the message with number num was processed. */
  function WasProcessed(s: Rx, num: nat, htype: nat, body: seq<byte>): Rx
  {
    if s.stateful then
      s.(expected := (s.expected + 1) % 0x1_0000, log := s.log + [Accepted(num, htype, body)])
    else s
  }

  /** Dtls13NextMessageComplete */
  predicate NextComplete(list: seq<Msg>, expected: nat)
  {
    list != [] && list[0].Ready() && list[0].num == expected
  }

  predicate CountsBuffered(o: Outcome, htype: nat, handShakeDone: bool)
  {
    o == Done || o == WantWrite || (htype == CERTIFICATE_REQUEST as int && handShakeDone && o == Pending)
  }

  function ProcessBuffered(s: Rx, env: Env, k: nat): (Rx, Ret)
    decreases |s.list|
  {
    if !NextComplete(s.list, s.expected) then (s, Success)
    else
      var o, m := OutcomeAt(env, k), s.list[0];
      if !CountsBuffered(o, m.htype, env.handShakeDone) then (s, Handler(o))
      else
        var s1 := WasProcessed(s, m.num, m.htype, m.full.value).(list := s.list[1..]);
        if o == Done then ProcessBuffered(s1, env, k + 1) else (s1, Handler(o))
  }

  /** DtlsMsgFind */
  function FindIndex(list: seq<Msg>, epoch: nat, num: nat): (k: nat)
    ensures k <= |list|
    ensures k < |list| ==> list[k].epoch == epoch && list[k].num == num
    ensures forall i :: 0 <= i < k ==> !(list[i].epoch == epoch && list[i].num == num)
  {
    if list == [] || (list[0].epoch == epoch && list[0].num == num) then 0
    else
      var k := FindIndex(list[1..], epoch, num);
      assert forall i :: 1 <= i < 1 + k ==> list[i] == list[1..][i - 1];
      1 + k
  }

  predicate Before(item: Msg, cur: Msg)
  {
    item.epoch <= cur.epoch && item.num < cur.num
  }

  /** Where DtlsMsgInsert puts an item. */
  function InsertIndex(list: seq<Msg>, item: Msg): (k: nat)
    ensures k <= |list|
    ensures k < |list| ==> Before(item, list[k])
    ensures forall i :: 0 <= i < k ==> !Before(item, list[i])
  {
    if list == [] || Before(item, list[0]) then 0
    else
      var k := InsertIndex(list[1..], item);
      assert forall i :: 1 <= i < 1 + k ==> list[i] == list[1..][i - 1];
      1 + k
  }

  ghost predicate ListOK(list: seq<Msg>)
  {
    forall i :: 0 <= i < |list| ==> MsgOK(list[i]) && list[i].htype != NO_SHAKE
  }

  /** DtlsMsgStore */
  function Store(list: seq<Msg>, epoch: nat, h: Header, data: seq<byte>, env: Env): seq<Msg>
    requires ListOK(list)
  {
    var k := FindIndex(list, epoch, h.num);
    if k < |list| then
      list[k := MsgAfterSet(list[k], epoch, h.num, h.htype, h.length, h.off, data, env.alloc, env.junk).0]
    else if !env.allocMsg then list
    else
      var (m, st) := MsgAfterSet(NewMsg(h.length), epoch, h.num, h.htype, h.length, h.off, data, env.alloc, env.junk);
      if st != Ok then list
      else
        var i := InsertIndex(list, m);
        list[..i] + [m] + list[i..]
  }

  /** The receive step, once the header is parsed and the checks in front of reassembly have passed. */
  function RecvInOrder(s: Rx, epoch: nat, h: Header, data: seq<byte>, env: Env): (Rx, Ret)
    requires ListOK(s.list)
  {
    if h.num < s.expected then (s, Success)
    else
      var isComplete := h.off == 0 && h.fragLen == h.length;
      if !isComplete && env.fragments != Accept then
        (s, if env.fragments == Ignore then Success else CallbackFailed)
      else if !isComplete || h.num > s.expected || env.async then
        if |s.list| >= POOL_SZ then (s, TooManyMessages)
        else ProcessBuffered(s.(list := Store(s.list, epoch, h, data, env)), env, 0)
      else if OutcomeAt(env, 0) != Done then (s, Handler(OutcomeAt(env, 0)))
      else ProcessBuffered(WasProcessed(s, h.num, h.htype, data), env, 1)
  }

  /** Whether the checks before reassembly let the message through. */
  function Checks(h: Header, size: nat, env: Env): Ret
  {
    if !env.sane then SanityError
    else if !env.epochOk || h.htype == NO_SHAKE then EpochError
    else if env.awaitHello && h.htype != CLIENT_HELLO then Success
    else if HEADER_SZ + h.fragLen > size then IncompleteData
    else if h.off + h.fragLen > h.length then BufferError
    else Success
  }

  /** While a server still waits for a verified ClientHello, a ClientHello sets the expected number. */
  function Rebase(s: Rx, h: Header, env: Env): Rx
  {
    if env.sane && env.epochOk && env.awaitHello && h.htype == CLIENT_HELLO then
      s.(expected := h.num, base := h.num, log := [])
    else s
  }

  /** _Dtls13HandshakeRecv on the bytes of one handshake fragment that came in a record of the given epoch. */
  function Recv(s: Rx, epoch: nat, input: seq<byte>, env: Env): (Rx, Ret)
    requires ListOK(s.list)
  {
    match GetHeader(input)
    case TooShort => (s, ParseError)
    case Parsed(h) =>
      var s1 := Rebase(s, h, env);
      var ret := Checks(h, |input|, env);
      if ret != Success || (env.awaitHello && h.htype != CLIENT_HELLO) then (s1, ret)
      else RecvInOrder(s1, epoch, h, input[HEADER_SZ..HEADER_SZ + h.fragLen], env)
  }
}
