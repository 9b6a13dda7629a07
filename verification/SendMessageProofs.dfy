/** A handshake message from the first call of Dtls13HandshakeSend to its last fragment. */
module SendMessageProofs {
  import opened Bytes
  import opened SendPath
  import opened FragmenterProofs

  /** A message sent in state t. */
  function Message(t: Tx, htype: byte, body: seq<byte>): Outgoing
  {
    Outgoing(htype, body, t.num, t.top)
  }

  /** All of the message is in records: one for an empty message, else up to its last byte. */
  ghost predicate AllBuilt(body: seq<byte>, ps: seq<Span>)
  {
    if body == [] then ps == [Span(0, 0)] else Upto(0, ps) == |body|
  }

  /** The message is out, and its number is used up. */
  ghost predicate IsOut(t: Tx, t': Tx, body: seq<byte>, ps: seq<Span>)
  {
    AllBuilt(body, ps) && t'.frag == Idle && t'.num == (t.num + 1) % 0x1_0000
  }

  /** The message waits to be resumed behind the fragments ps. */
  ghost predicate IsPending(t: Tx, t': Tx, htype: byte, body: seq<byte>, ps: seq<Span>)
  {
    body != [] && t'.frag == Sending(htype, body, Upto(0, ps)) && t'.num == t.num
  }

  /** The message is given up, and its number is free again; all of it is out only if the very last send failed late. */
  ghost predicate IsGivenUp(t: Tx, t': Tx, ret: Ret, body: seq<byte>, ps: seq<Span>)
  {
    t'.frag == Idle && t'.num == t.num && (AllBuilt(body, ps) ==> ret == LateError)
  }

  /** Where the message stands after an answer, when the fragments ps are in records. */
  ghost predicate Outcome(t: Tx, t': Tx, ret: Ret, htype: byte, body: seq<byte>, ps: seq<Span>)
  {
    if ret == Done then IsOut(t, t', body, ps)
    else if ret == WouldBlock then IsOut(t, t', body, ps) || IsPending(t, t', htype, body, ps)
    else IsGivenUp(t, t', ret, body, ps)
  }

  /** The fragments are contiguous, cover the message from its first byte on and are at most room bytes long. */
  ghost predicate Cover(body: seq<byte>, ps: seq<Span>, room: nat)
  {
    if body == [] then ps == [] || ps == [Span(0, 0)]
    else Tiles(ps, 0, |body|, room) && Upto(0, ps) <= |body|
  }

  /** What calls that tried ts have done for a message. */
  ghost predicate MessageStep(t: Tx, t': Tx, ret: Ret, htype: byte, body: seq<byte>, ts: seq<Try>, room: nat)
  {
    && Did(t, t', Message(t, htype, body), ts) && t'.top == t.top && Answers(ret, ts)
    && Cover(body, BuiltBy(ts), room) && Outcome(t, t', ret, htype, body, BuiltBy(ts))
  }

  /** The message as Dtls13SendFragmented sets it up. */
  function Started(t: Tx, htype: byte, body: seq<byte>): Tx
  {
    t.(link := t.link.(current := t.top), frag := Sending(htype, body, 0))
  }

  /** The call gets as far as a first fragment: the epoch is there, and memory for the message if it is cut. */
  predicate Begins(t: Tx, htype: byte, body: seq<byte>, cidSz: nat, maxFrag: nat, bufferAlloc: bool)
  {
    && (t.link.current == t.top || t.top in t.link.next)
    && (FitsWhole(htype, body, cidSz, maxFrag) || bufferAlloc)
  }

  // ---------- the first call ----------

  lemma WholeIsStep(t: Tx, htype: byte, body: seq<byte>, t1: Tx, t': Tx, ret: Ret, x: Try, room: nat)
    requires t.frag == Idle && |body| <= room && x.span == Span(0, |body|) && ret == x.answer
    requires Did(t, t1, Message(t, htype, body), [x]) && t1 == t.(link := t1.link, recs := t1.recs)
    requires t' == if ret == Done || ret == WouldBlock then NextNum(t1) else t1
    ensures MessageStep(t, t', ret, htype, body, [x], room)
  {
    OneTry(x);
    if body != [] {
      TilesOne(x.span, |body|, room);
    }
  }

  lemma WholeDoes(t: Tx, htype: byte, body: seq<byte>, out: Out, room: nat) returns (t': Tx, ret: Ret, ts: seq<Try>)
    requires TxOK(t) && t.link.current == t.top && t.frag == Idle && |body| <= room
    ensures (t', ret) == SendWhole(t, htype, body, out)
    ensures ts == [TryOf(htype, t.link.next[t.top], Span(0, |body|), out.(room := Free))] && ret == ts[0].answer
    ensures MessageStep(t, t', ret, htype, body, ts, room)
  {
    var x := TryOf(htype, t.link.next[t.top], Span(0, |body|), out.(room := Free));
    var t1;
    t1, ret := SendOneDid(t, Message(t, htype, body), x.span, out);
    t', ts := if ret == Done || ret == WouldBlock then NextNum(t1) else t1, [x];
    WholeIsStep(t, htype, body, t1, t', ret, x, room);
  }

  /** A cut that began at 0 is a step of the message; an empty message never takes this path. */
  lemma CutIsStep(t: Tx, htype: byte, body: seq<byte>, t': Tx, ret: Ret, ts: seq<Try>, room: nat)
    requires body != [] && ContinueDid(Started(t, htype, body), t', ret, ts, room)
    ensures MessageStep(t, t', ret, htype, body, ts, room)
  {
  }

  lemma FragmentedDoes(t: Tx, htype: byte, body: seq<byte>, room: nat, outs: seq<Out>, most: nat)
    returns (t': Tx, ret: Ret, ts: seq<Try>)
    requires TxOK(Started(t, htype, body)) && t.frag == Idle && body != [] && 0 < room <= most
    ensures (t', ret) == SendFragmented(t.(link := t.link.(current := t.top)), htype, body, room, true, outs)
    ensures ts == TriesFrom(Started(t, htype, body), room, outs, 0)
    ensures ts != [] && ret == ts[|ts| - 1].answer
    ensures MessageStep(t, t', ret, htype, body, ts, most)
  {
    var t1;
    t1, ret, ts := FragmenterDoes(Started(t, htype, body), room, outs, 0);
    t' := if ret == Done then NextNum(t1) else t1;
    RoomGrows(Started(t, htype, body), t1, ret, ts, room, most);
    Counted(Started(t, htype, body), t1, ret, ts, most);
    CutIsStep(t, htype, body, t', ret, ts, most);
  }

  /** The tries of the first call for a message. */
  ghost function FirstTries(t: Tx, htype: byte, body: seq<byte>, cidSz: nat, maxFrag: nat, outs: seq<Out>): seq<Try>
    requires t.top in t.link.next && FragmentRoom(htype, cidSz, maxFrag) > 0
  {
    if FitsWhole(htype, body, cidSz, maxFrag) then
      [TryOf(htype, t.link.next[t.top], Span(0, |body|), OutAt(outs, 0).(room := Free))]
    else TriesFrom(Started(t, htype, body), FragmentRoom(htype, cidSz, maxFrag), outs, 0)
  }

  lemma FirstDoes(t: Tx, htype: byte, body: seq<byte>, cidSz: nat, maxFrag: nat, bufferAlloc: bool, outs: seq<Out>,
                  most: nat) returns (t': Tx, ret: Ret, ts: seq<Try>)
    requires TxOK(t) && t.frag == Idle && Begins(t, htype, body, cidSz, maxFrag, bufferAlloc)
    requires 0 < FragmentRoom(htype, cidSz, maxFrag) <= most
    ensures (t', ret) == HandshakeSend(t, htype, body, cidSz, maxFrag, bufferAlloc, outs)
    ensures ts == FirstTries(t, htype, body, cidSz, maxFrag, outs) && ts != [] && ret == ts[|ts| - 1].answer
    ensures MessageStep(t, t', ret, htype, body, ts, most)
  {
    var t1 := t.(link := t.link.(current := t.top));
    if FitsWhole(htype, body, cidSz, maxFrag) {
      t', ret, ts := WholeDoes(t1, htype, body, OutAt(outs, 0), most);
    } else {
      t', ret, ts := FragmentedDoes(t, htype, body, FragmentRoom(htype, cidSz, maxFrag), outs, most);
    }
  }

  // ---------- the whole message ----------

  /** A message from the first call on: while it is pending, it is resumed; with everything that was tried. */
  ghost function SendMessage(t: Tx, htype: byte, body: seq<byte>, cidSz: nat, maxFrag: nat, bufferAlloc: bool,
                             outs: seq<Out>, calls: seq<Call>, most: nat): (Tx, Ret, seq<Try>)
    requires TxOK(t) && t.frag == Idle && Begins(t, htype, body, cidSz, maxFrag, bufferAlloc)
    requires 0 < FragmentRoom(htype, cidSz, maxFrag) <= most && CallsOK(calls, htype, cidSz, most)
  {
    FirstIsStep(t, htype, body, cidSz, maxFrag, bufferAlloc, outs, most);
    var (t1, ret) := HandshakeSend(t, htype, body, cidSz, maxFrag, bufferAlloc, outs);
    var ts := FirstTries(t, htype, body, cidSz, maxFrag, outs);
    if ret != WouldBlock || t1.frag == Idle then (t1, ret, ts)
    else
      var r := Resume(t1, cidSz, calls, most);
      (r.0, r.1, ts + r.2)
  }

  lemma FirstIsStep(t: Tx, htype: byte, body: seq<byte>, cidSz: nat, maxFrag: nat, bufferAlloc: bool,
                    outs: seq<Out>, most: nat)
    requires TxOK(t) && t.frag == Idle && Begins(t, htype, body, cidSz, maxFrag, bufferAlloc)
    requires 0 < FragmentRoom(htype, cidSz, maxFrag) <= most
    ensures
      var t' := HandshakeSend(t, htype, body, cidSz, maxFrag, bufferAlloc, outs).0;
      TxOK(t') && (t'.frag.Sending? ==> t'.frag.htype == htype && t'.frag.off <= |t'.frag.body|)
  {
    var t', ret, ts := FirstDoes(t, htype, body, cidSz, maxFrag, bufferAlloc, outs, most);
  }

  lemma PendingResumed(t: Tx, t1: Tx, t': Tx, ret: Ret, htype: byte, body: seq<byte>, a: seq<Try>, b: seq<Try>,
                       room: nat)
    requires MessageStep(t, t1, WouldBlock, htype, body, a, room) && t1.frag.Sending?
    requires ContinueDid(t1, t', ret, b, room)
    ensures MessageStep(t, t', ret, htype, body, a + b, room)
  {
    DidChain(t, t1, t', Message(t, htype, body), a, b);
    TriesConcat(a, b);
    AnswersChain(ret, a, b);
    OutcomeResumed(t, t1, t', ret, htype, body, BuiltBy(a), BuiltBy(b), room);
  }

  /** Where the message stands, from where it stood when it was resumed. */
  lemma OutcomeResumed(t: Tx, t1: Tx, t': Tx, ret: Ret, htype: byte, body: seq<byte>, a: seq<Span>, b: seq<Span>,
                       room: nat)
    requires IsPending(t, t1, htype, body, a) && Cover(body, a, room)
    requires t1.frag.Sending? && CutOn(t1, t'.(num := t1.num), ret, b, room)
    requires t'.num == (if ret == Done then (t1.num + 1) % 0x1_0000 else t1.num)
    ensures Cover(body, a + b, room) && Outcome(t, t', ret, htype, body, a + b)
  {
    TilesConcat(a, b, 0, |body|, room);
  }

  lemma SendMessageDoes(t: Tx, htype: byte, body: seq<byte>, cidSz: nat, maxFrag: nat, bufferAlloc: bool,
                        outs: seq<Out>, calls: seq<Call>, most: nat) returns (t': Tx, ret: Ret, ts: seq<Try>)
    requires TxOK(t) && t.frag == Idle && Begins(t, htype, body, cidSz, maxFrag, bufferAlloc)
    requires 0 < FragmentRoom(htype, cidSz, maxFrag) <= most && CallsOK(calls, htype, cidSz, most)
    ensures (t', ret, ts) == SendMessage(t, htype, body, cidSz, maxFrag, bufferAlloc, outs, calls, most)
    ensures MessageStep(t, t', ret, htype, body, ts, most)
  {
    var t1, ret1, ts1 := FirstDoes(t, htype, body, cidSz, maxFrag, bufferAlloc, outs, most);
    if ret1 != WouldBlock || t1.frag == Idle {
      return t1, ret1, ts1;
    }
    var ts2;
    t', ret, ts2 := ResumeDoes(t1, cidSz, calls, most);
    PendingResumed(t, t1, t', ret, htype, body, ts1, ts2, most);
    ts := ts1 + ts2;
  }

  /**
   A message of any size and type, sent on either path and resumed however often it blocks.  MessageStep says: the
   fragments in records are contiguous from the first byte on, none larger than the room; they are what was
   emitted, in order and under the sending epoch, except those an earlier flush held back, and what was queued, except
   one whose send failed late; the message goes on exactly while every flush in front of a fragment gets through and
   nothing fails; it is out, and its number used up, when all of it is in records; and when it is given up, its number
   is not used up, although all of it may be on the wire if its last send failed late.
   */
  lemma MessageGetsOut(t: Tx, htype: byte, body: seq<byte>, cidSz: nat, maxFrag: nat, bufferAlloc: bool,
                       outs: seq<Out>, calls: seq<Call>, most: nat)
    requires TxOK(t) && t.frag == Idle && Begins(t, htype, body, cidSz, maxFrag, bufferAlloc)
    requires 0 < FragmentRoom(htype, cidSz, maxFrag) <= most && CallsOK(calls, htype, cidSz, most)
    ensures
      var (t', ret, ts) := SendMessage(t, htype, body, cidSz, maxFrag, bufferAlloc, outs, calls, most);
      && MessageStep(t, t', ret, htype, body, ts, most)
      && ((forall i :: 0 <= i < |ts| ==> !ts[i].held) ==>
            Emits(t.link, t'.link, Message(t, htype, body), BuiltBy(ts)))
      && BuiltBy(ts) == if ret == LateError then MadeBy(ts) + [ts[|ts| - 1].span] else MadeBy(ts)
  {
    var t', ret, ts := SendMessageDoes(t, htype, body, cidSz, maxFrag, bufferAlloc, outs, calls, most);
    if forall i :: 0 <= i < |ts| ==> !ts[i].held {
      NothingHeld(ts);
    }
    BuiltIsMade(ret, ts);
  }

  /**
   The caller is told that sending failed, but the message goes out: its only record is in the output buffer.  It is
   not queued, and the next message gets the same number.
   */
  lemma FailedGoesOut(t: Tx, htype: byte, body: seq<byte>, cidSz: nat, maxFrag: nat, outs: seq<Out>)
    returns (t': Tx)
    requires TxOK(t) && t.frag == Idle && t.top in t.link.next && FragmentRoom(htype, cidSz, maxFrag) > 0
    requires TypeIsEncrypted(htype) || t.link.next[t.top] != TWO64 - 1
    requires FitsWhole(htype, body, cidSz, maxFrag) && OutAt(outs, 0).alloc && OutAt(outs, 0).res == FailedLate
    ensures (t', LateError) == HandshakeSend(t, htype, body, cidSz, maxFrag, true, outs)
    ensures t'.num == t.num && t'.frag == Idle && t'.recs == t.recs && t'.top == t.top && TxOK(t')
    ensures t'.link.current == t.top && Emits(t.link, t'.link, Message(t, htype, body), [Span(0, |body|)])
  {
    var ret, ts;
    t', ret, ts := FirstDoes(t, htype, body, cidSz, maxFrag, true, outs, FragmentRoom(htype, cidSz, maxFrag));
    OneTry(ts[0]);
    assert ts == [ts[0]];
  }

  /** A call that does not get as far as a fragment reports an error and sends nothing. */
  lemma NothingBegun(t: Tx, htype: byte, body: seq<byte>, cidSz: nat, maxFrag: nat, bufferAlloc: bool, outs: seq<Out>)
    requires TxOK(t) && t.frag == Idle && !Begins(t, htype, body, cidSz, maxFrag, bufferAlloc)
    requires FragmentRoom(htype, cidSz, maxFrag) > 0
    ensures
      var (t', ret) := HandshakeSend(t, htype, body, cidSz, maxFrag, bufferAlloc, outs);
      t' == t.(link := t.link.(current := t'.link.current)) && (ret == NoEpoch || ret == MemoryError)
  {
  }

  /**
   The caller is told WANT_WRITE, as for a message that waits to be resumed; but the message is given up.  Here a
   first fragment is sent and the flush in front of the second one blocks: what was sent stays sent, and the next
   message gets the same number.
   */
  lemma WantWriteGivesUp(t: Tx, htype: byte, body: seq<byte>, cidSz: nat, maxFrag: nat, outs: seq<Out>)
    requires TxOK(t) && t.frag == Idle && t.top in t.link.next && t.link.next[t.top] != TWO64 - 1
    requires 0 < FragmentRoom(htype, cidSz, maxFrag) < |body|
    requires OutAt(outs, 0).room == Free && OutAt(outs, 0).alloc && OutAt(outs, 0).res == Sent
    requires OutAt(outs, 1).room == FlushBlocked
    ensures
      var (t', ret) := HandshakeSend(t, htype, body, cidSz, maxFrag, true, outs);
      && ret == FlushWait && IsWantWrite(ret) && t'.frag == Idle && t'.num == t.num
      && TxOK(t') && t'.link.current == t'.top == t.top
      && Emits(t.link, t'.link, Message(t, htype, body), [Span(0, FragmentRoom(htype, cidSz, maxFrag))])
  {
    var room := FragmentRoom(htype, cidSz, maxFrag);
    var t', ret, ts := FirstDoes(t, htype, body, cidSz, maxFrag, true, outs, room);
    var x := TryOf(htype, t.link.next[t.top], Span(0, room), OutAt(outs, 0));
    var y := TryOf(htype, (t.link.next[t.top] + 1) % TWO64, Span(room, Smaller(room, |body| - room)), OutAt(outs, 1));
    assert !FitsWhole(htype, body, cidSz, maxFrag) && x.answer == Done && y.answer == FlushWait;
    assert Tries(htype, |body|, room, (t.link.next[t.top] + 1) % TWO64, room, outs, 1) == [y];
    assert ts == [x] + [y];
    TriesConcat([x], [y]);
    OneTry(x);
    OneTry(y);
    var none: seq<Span> := [];
    assert EmittedBy(ts) == [Span(0, room)] + none == [Span(0, room)];
  }
}
