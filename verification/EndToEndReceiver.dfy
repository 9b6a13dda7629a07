/** Deliveries keep the invariant of EndToEnd, and the end-to-end result over whole runs. */
module EndToEndReceiver {
  import opened Bytes
  import opened Sequences
  import opened HandshakeHeader
  import opened Reassembly
  import opened ReassemblyProofs
  import opened FragmentCuts
  import opened EndToEnd
  import opened EndToEndSender
  import T = SendPath
  import R = Receiver
  import RP = ReceiverProofs

  /** Message i and the bytes [off, off + |data|) of it, which are one of its fragments in records. */
  ghost predicate PartOf(h: Header, data: seq<byte>, msgs: seq<Message>, i: nat)
  {
    && i < |msgs| && CutSoFar(msgs[i])
    && h.num == msgs[i].num && h.htype == msgs[i].htype && h.length == |msgs[i].body|
    && h.fragLen == |data| && h.off + |data| <= CutTo(msgs[i])
    && data == msgs[i].body[h.off..h.off + |data|]
    && Piece(AsCut(msgs[i]), h.off, h.off + |data|)
  }

  lemma PayloadParts(p: seq<byte>, msgs: seq<Message>) returns (h: Header, data: seq<byte>, i: nat)
    requires Carried(p, msgs) && AllCut(msgs)
    ensures GetHeader(p) == Parsed(h) && PartOf(h, data, msgs, i)
    ensures HEADER_SZ + h.fragLen == |p| && data == p[HEADER_SZ..HEADER_SZ + h.fragLen]
  {
    var m: nat, j: nat :| IsFragment(p, msgs, m, j);
    i := m;
    var c := msgs[i].cuts;
    h := Header(msgs[i].htype, |msgs[i].body|, msgs[i].num, c[j], c[j + 1] - c[j]);
    data := msgs[i].body[h.off..h.off + h.fragLen];
    HeaderParsed(p, h, data);
    CutPiece(msgs[i], j);
  }

  lemma HeaderParsed(p: seq<byte>, h: Header, data: seq<byte>)
    requires h.length < 0x100_0000 && h.off < 0x100_0000 && h.fragLen == |data| < 0x100_0000
    requires p == PutHeader(h) + data
    ensures GetHeader(p) == Parsed(h) && HEADER_SZ + h.fragLen == |p| && data == p[HEADER_SZ..HEADER_SZ + h.fragLen]
  {
    GetPutHeader(h, data);
  }

  lemma CutPiece(m: Message, j: nat)
    requires CutSoFar(m) && j + 1 < |m.cuts| && m.cuts[j] <= m.cuts[j + 1]
    ensures m.cuts[j + 1] <= CutTo(m) && Piece(AsCut(m), m.cuts[j], m.cuts[j + 1])
  {
    assert AsCut(m)[j] == m.cuts[j] && AsCut(m)[j + 1] == m.cuts[j + 1];
    assert j + 1 < |m.cuts| - 1 && m.body != [] ==> InOrder(m.cuts, j + 1, |m.cuts| - 1);
  }

  /** The next expected number is the one behind those accepted. */
  lemma ExpectedNext(rx: R.Rx, msgs: seq<Message>, start: nat)
    requires ReceiverInv(rx, msgs, start) && AllCut(msgs)
    ensures rx.expected == start + |rx.log|
  {
    if rx.log != [] {
      var last := |rx.log| - 1;
      assert SentWhole(rx.log[last], msgs, start + last);
      var k :| 0 <= k < |msgs| && IsAccepted(rx.log[last], msgs[k], start + last);
      assert CutSoFar(msgs[k]);
    }
  }

  lemma ProcessedInv(rx: R.Rx, num: nat, htype: nat, body: seq<byte>, msgs: seq<Message>, start: nat)
    requires ReceiverInv(rx, msgs, start) && num == rx.expected == start + |rx.log|
    requires SentWhole(R.Accepted(num, htype, body), msgs, num)
    ensures ReceiverInv(R.WasProcessed(rx, num, htype, body), msgs, start)
  {
    RP.ProcessedKeepsLog(rx, num, htype, body);
    assert R.WasProcessed(rx, num, htype, body).list == rx.list;
  }

  lemma DropHeadInv(rx: R.Rx, msgs: seq<Message>, start: nat)
    requires ReceiverInv(rx, msgs, start) && rx.list != []
    ensures ReceiverInv(rx.(list := rx.list[1..]), msgs, start)
  {
    assert forall k :: 0 <= k < |rx.list| - 1 ==> rx.list[1..][k] == rx.list[k + 1];
  }

  /** The ready head with the expected number holds a message that was sent under it. */
  lemma HeadIsNext(rx: R.Rx, msgs: seq<Message>, start: nat)
    requires ReceiverInv(rx, msgs, start) && R.NextComplete(rx.list, rx.expected)
    requires AllCut(msgs)
    ensures rx.expected == start + |rx.log|
    ensures
      var m := rx.list[0];
      SentWhole(R.Accepted(m.num, m.htype, m.full.value), msgs, m.num)
  {
    ExpectedNext(rx, msgs, start);
    var m := rx.list[0];
    assert StoredOf(m, msgs);
    var i :| 0 <= i < |msgs| && StoredPart(m, msgs[i]);
    assert IsAccepted(R.Accepted(m.num, m.htype, m.full.value), msgs[i], m.num);
  }

  lemma {:induction false} ProcessBufferedInv(rx: R.Rx, env: R.Env, k: nat, msgs: seq<Message>, start: nat)
    requires ReceiverInv(rx, msgs, start) && AllCut(msgs)
    ensures ReceiverInv(R.ProcessBuffered(rx, env, k).0, msgs, start)
    decreases |rx.list|
  {
    if R.NextComplete(rx.list, rx.expected) {
      var o, m := R.OutcomeAt(env, k), rx.list[0];
      if R.CountsBuffered(o, m.htype, env.handShakeDone) {
        HeadIsNext(rx, msgs, start);
        ProcessedInv(rx, m.num, m.htype, m.full.value, msgs, start);
        var rx1 := R.WasProcessed(rx, m.num, m.htype, m.full.value);
        DropHeadInv(rx1, msgs, start);
        if o == R.Done {
          ProcessBufferedInv(rx1.(list := rx.list[1..]), env, k + 1, msgs, start);
        }
      }
    }
  }

  /** What is stored stays below the place the message was cut to, and is complete only if all of it was cut. */
  lemma SetStaysCut(m: Msg, h: Header, data: seq<byte>, epoch: nat, env: R.Env, msgs: seq<Message>, i: nat)
    requires PartOf(h, data, msgs, i) && MsgOK(m) && m.sz == h.length && !m.Ready()
    requires Within(m.buckets, CutTo(msgs[i]))
    ensures
      var r := MsgAfterSet(m, epoch, h.num, h.htype, h.length, h.off, data, env.alloc, env.junk).0;
      (r.Ready() ==> Whole(msgs[i])) && (!r.Ready() ==> Within(r.buckets, CutTo(msgs[i])))
  {
    PlaceSorted(m.buckets, h.off, data, env.alloc, env.junk, CutTo(msgs[i]));
    var b := SetPlaces(m, epoch, h.num, h.htype, h.length, h.off, data, env.alloc, env.junk);
  }

  /** A part of message i that finds no gap leaves the entry for message i honest. */
  lemma SetPart(m: Msg, h: Header, data: seq<byte>, epoch: nat, env: R.Env, msgs: seq<Message>, i: nat)
    requires PartOf(h, data, msgs, i) && h.htype != NO_SHAKE
    requires Honest(m, msgs[i].body, AsCut(msgs[i]))
    requires m.htype == NO_SHAKE || StoredPart(m, msgs[i])
    requires m.Ready() || !Gap(m.buckets, h.off, |data|)
    ensures
      var (r, st) := MsgAfterSet(m, epoch, h.num, h.htype, h.length, h.off, data, env.alloc, env.junk);
      m.htype != NO_SHAKE || st == Ok ==> StoredPart(r, msgs[i])
  {
    SetKeepsHonest(m, msgs[i].body, AsCut(msgs[i]), epoch, h.num, h.htype, h.off, data, env.alloc, env.junk);
    SetIdentity(m, h, data, epoch, env);
    if m.Ready() {
      assert MsgAfterSet(m, epoch, h.num, h.htype, h.length, h.off, data, env.alloc, env.junk).0 == m;
    } else {
      SetStaysCut(m, h, data, epoch, env, msgs, i);
    }
  }

  lemma SetIdentity(m: Msg, h: Header, data: seq<byte>, epoch: nat, env: R.Env)
    requires MsgOK(m) && m.sz == h.length && h.off + |data| <= h.length && h.htype != NO_SHAKE
    requires m.htype == NO_SHAKE || (m.num == h.num && m.htype == h.htype)
    ensures
      var (r, st) := MsgAfterSet(m, epoch, h.num, h.htype, h.length, h.off, data, env.alloc, env.junk);
      m.htype != NO_SHAKE || st == Ok ==> r.num == h.num && r.htype == h.htype
  {
  }

  /** An entry for a message in one record is complete, or holds nothing or all of it. */
  lemma OneRecordBuckets(b: seq<Bucket>, body: seq<byte>)
    requires Sorted(b) && AllHold(b, body) && Aligned(b, [0, |body|])
    ensures b == [] || b == [Bucket(0, body)]
  {
    if b != [] {
      assert AlignedBucket(b[0], [0, |body|]) && AlignedBucket(b[|b| - 1], [0, |body|]);
      assert Holds(b[0], body) && body[0..|body|] == body;
      assert b == [b[0]];
    }
  }

  /** A complete copy does not change an entry that already holds all the bytes. */
  lemma SetCopy(m: Msg, h: Header, data: seq<byte>, epoch: nat, env: R.Env, body: seq<byte>)
    requires MsgOK(m) && !m.Ready() && m.sz == h.length == |body| && m.buckets == [Bucket(0, body)]
    requires h.off == 0 && |data| == h.length
    ensures
      var r := MsgAfterSet(m, epoch, h.num, h.htype, h.length, h.off, data, env.alloc, env.junk).0;
      || r == m
      || (r.num == h.num && r.htype == h.htype && r.sz == |body| && r.buckets == [] && r.Ready() &&
          r.full.value == body)
  {
    assert m.buckets[1..] == [];
    assert Total(m.buckets) == |body|;
    assert Contained(m.buckets, 0, |data|);
  }

  /** The entry belongs to message j, and the part is of message i under the same number. */
  lemma SetOther(m: Msg, h: Header, data: seq<byte>, epoch: nat, env: R.Env, msgs: seq<Message>, i: nat, j: nat)
    requires PartOf(h, data, msgs, i) && h.htype != NO_SHAKE
    requires j < |msgs| && StoredPart(m, msgs[j]) && m.num == h.num && m.htype != NO_SHAKE && Told(msgs[j], msgs[i])
    ensures
      var r := MsgAfterSet(m, epoch, h.num, h.htype, h.length, h.off, data, env.alloc, env.junk).0;
      StoredPart(r, msgs[i]) || StoredPart(r, msgs[j])
  {
    if m.sz == h.length && m.htype == h.htype && !m.Ready() && m.epoch == epoch {
      assert OneRecord(msgs[j]) && OneRecord(msgs[i]);
      OneRecordBuckets(m.buckets, msgs[j].body);
      if m.buckets == [] {
        SetPart(m, h, data, epoch, env, msgs, i);
      } else {
        SetCopy(m, h, data, epoch, env, msgs[j].body);
      }
    }
  }

  /** An entry that is offered a part with its number stays an honest part of some message. */
  lemma SetInv(m: Msg, h: Header, data: seq<byte>, epoch: nat, env: R.Env, msgs: seq<Message>, i: nat)
    requires PartOf(h, data, msgs, i) && h.htype != NO_SHAKE && AllTold(msgs)
    requires StoredOf(m, msgs) && m.num == h.num && m.htype != NO_SHAKE && FitsNoGap(m, h)
    ensures StoredOf(MsgAfterSet(m, epoch, h.num, h.htype, h.length, h.off, data, env.alloc, env.junk).0, msgs)
  {
    var j :| 0 <= j < |msgs| && StoredPart(m, msgs[j]);
    if j == i {
      SetPart(m, h, data, epoch, env, msgs, i);
    } else {
      assert if j < i then Told(msgs[j], msgs[i]) else Told(msgs[i], msgs[j]);
      SetOther(m, h, data, epoch, env, msgs, i, j);
    }
  }

  lemma InsertInv(list: seq<Msg>, m: Msg, msgs: seq<Message>, at: nat)
    requires AllStored(list, msgs) && StoredOf(m, msgs) && at <= |list|
    ensures AllStored(list[..at] + [m] + list[at..], msgs)
  {
    InsertAll(list, m, at, x => StoredOf(x, msgs));
  }

  lemma StoreNewInv(list: seq<Msg>, epoch: nat, h: Header, data: seq<byte>, env: R.Env, msgs: seq<Message>, i: nat)
    requires R.ListOK(list) && PartOf(h, data, msgs, i) && h.htype != NO_SHAKE
    requires AllStored(list, msgs) && R.FindIndex(list, epoch, h.num) == |list|
    ensures AllStored(R.Store(list, epoch, h, data, env), msgs)
  {
    AsCutIsCut(msgs[i]);
    SetPart(NewMsg(h.length), h, data, epoch, env, msgs, i);
    var (m, st) := MsgAfterSet(NewMsg(h.length), epoch, h.num, h.htype, h.length, h.off, data, env.alloc, env.junk);
    if env.allocMsg && st == Ok {
      assert StoredOf(m, msgs);
      InsertInv(list, m, msgs, R.InsertIndex(list, m));
    }
  }

  /** No entry that takes the fragment has a gap for it to fall in. */
  ghost predicate StoreFits(list: seq<Msg>, epoch: nat, h: Header)
  {
    var k := R.FindIndex(list, epoch, h.num);
    k < |list| ==> FitsNoGap(list[k], h)
  }

  lemma StoreInv(list: seq<Msg>, epoch: nat, h: Header, data: seq<byte>, env: R.Env, msgs: seq<Message>, i: nat)
    requires R.ListOK(list) && PartOf(h, data, msgs, i) && h.htype != NO_SHAKE && AllTold(msgs)
    requires AllStored(list, msgs) && StoreFits(list, epoch, h)
    ensures AllStored(R.Store(list, epoch, h, data, env), msgs)
  {
    var k := R.FindIndex(list, epoch, h.num);
    if k < |list| {
      assert StoredOf(list[k], msgs);
      SetInv(list[k], h, data, epoch, env, msgs, i);
    } else {
      StoreNewInv(list, epoch, h, data, env, msgs, i);
    }
  }

  lemma NewListInv(rx: R.Rx, list: seq<Msg>, msgs: seq<Message>, start: nat)
    requires ReceiverInv(rx, msgs, start) && AllStored(list, msgs) && R.ListOK(list) && |list| <= R.POOL_SZ
    ensures ReceiverInv(rx.(list := list), msgs, start)
  {
  }

  lemma StoredPartInv(rx: R.Rx, epoch: nat, h: Header, data: seq<byte>, env: R.Env, msgs: seq<Message>, start: nat,
                      i: nat)
    requires ReceiverInv(rx, msgs, start) && |rx.list| < R.POOL_SZ && AllTold(msgs)
    requires AllCut(msgs)
    requires PartOf(h, data, msgs, i) && h.htype != NO_SHAKE && StoreFits(rx.list, epoch, h)
    ensures ReceiverInv(R.ProcessBuffered(rx.(list := R.Store(rx.list, epoch, h, data, env)), env, 0).0, msgs, start)
  {
    StoreInv(rx.list, epoch, h, data, env, msgs, i);
    RP.StoreKeeps(rx.list, epoch, h, data, env);
    NewListInv(rx, R.Store(rx.list, epoch, h, data, env), msgs, start);
    ProcessBufferedInv(rx.(list := R.Store(rx.list, epoch, h, data, env)), env, 0, msgs, start);
  }

  lemma DirectPartInv(rx: R.Rx, h: Header, data: seq<byte>, env: R.Env, msgs: seq<Message>, start: nat, i: nat)
    requires ReceiverInv(rx, msgs, start) && PartOf(h, data, msgs, i)
    requires AllCut(msgs)
    requires h.num == rx.expected && h.off == 0 && h.fragLen == h.length
    ensures ReceiverInv(R.ProcessBuffered(R.WasProcessed(rx, h.num, h.htype, data), env, 1).0, msgs, start)
  {
    ExpectedNext(rx, msgs, start);
    assert data == msgs[i].body;
    assert IsAccepted(R.Accepted(h.num, h.htype, data), msgs[i], h.num);
    ProcessedInv(rx, h.num, h.htype, data, msgs, start);
    ProcessBufferedInv(R.WasProcessed(rx, h.num, h.htype, data), env, 1, msgs, start);
  }

  /** Delivering a fragment of message i, whatever the environment does, keeps the receiver's invariant. */
  lemma RecvPartInv(rx: R.Rx, epoch: nat, h: Header, data: seq<byte>, env: R.Env, msgs: seq<Message>, start: nat,
                    i: nat)
    requires ReceiverInv(rx, msgs, start) && AllTold(msgs) && AllCut(msgs)
    requires PartOf(h, data, msgs, i) && h.htype != NO_SHAKE && StoreFits(rx.list, epoch, h)
    ensures ReceiverInv(R.RecvInOrder(rx, epoch, h, data, env).0, msgs, start)
  {
    if h.num == rx.expected && h.off == 0 && h.fragLen == h.length && !env.async {
      DirectPartInv(rx, h, data, env, msgs, start, i);
    } else if |rx.list| < R.POOL_SZ {
      StoredPartInv(rx, epoch, h, data, env, msgs, start, i);
    }
  }

  lemma DeliverInv(rx: R.Rx, epoch: nat, p: seq<byte>, env: R.Env, msgs: seq<Message>, start: nat)
    requires ReceiverInv(rx, msgs, start) && AllTold(msgs)
    requires Carried(p, msgs) && AllCut(msgs)
    requires NoGap(rx, epoch, p) && !env.awaitHello
    ensures ReceiverInv(R.Recv(rx, epoch, p, env).0, msgs, start)
  {
    var h, data, i := PayloadParts(p, msgs);
    if R.Checks(h, |p|, env) == R.Success {
      RecvPartInv(rx, epoch, h, data, env, msgs, start, i);
    }
  }

  /** A fragment of a short message finds no gap in an entry for it, nor in one for another message it could join. */
  lemma ShortPartFits(m: Msg, h: Header, data: seq<byte>, msgs: seq<Message>, i: nat)
    requires StoredOf(m, msgs) && AllShort(msgs) && AllTold(msgs) && PartOf(h, data, msgs, i) && m.num == h.num
    ensures FitsNoGap(m, h)
  {
    var j :| 0 <= j < |msgs| && StoredPart(m, msgs[j]);
    if m.htype == h.htype && m.sz == h.length && !m.Ready() {
      if j == i {
        ShortCutSafe(m.buckets, AsCut(msgs[i]), |msgs[i].body|, h.off, h.fragLen);
      } else {
        assert if j < i then Told(msgs[j], msgs[i]) else Told(msgs[i], msgs[j]);
        assert AsCut(msgs[i]) == AsCut(msgs[j]);
        ShortCutSafe(m.buckets, AsCut(msgs[j]), |msgs[j].body|, h.off, h.fragLen);
      }
    }
  }

  /** In at most four fragments, no fragment ever finds a gap. */
  lemma ShortHasNoGap(rx: R.Rx, epoch: nat, p: seq<byte>, msgs: seq<Message>, start: nat)
    requires ReceiverInv(rx, msgs, start) && AllShort(msgs) && AllTold(msgs)
    requires Carried(p, msgs) && AllCut(msgs)
    ensures NoGap(rx, epoch, p)
  {
    var h, data, i := PayloadParts(p, msgs);
    var k := R.FindIndex(rx.list, epoch, h.num);
    if k < |rx.list| {
      assert StoredOf(rx.list[k], msgs);
      ShortPartFits(rx.list[k], h, data, msgs, i);
    }
  }

  // ---------- whole runs ----------

  ghost predicate Init(s: Sys)
  {
    && T.TxOK(s.tx) && s.tx.link.wire == [] && s.tx.recs == [] && s.tx.frag == T.Idle
    && s.msgs == [] && s.start < 0x1_0000 && s.tx.num == s.start
    && s.rx == R.Rx(s.start, true, [], s.start, [])
  }

  lemma InitInv(s: Sys)
    requires Init(s)
    ensures Inv(s)
  {
  }

  /** A message may be started under the current number: no fragment of it can be mixed with one under that number. */
  ghost predicate Tellable(t: T.Tx, msgs: seq<Message>, htype: byte, body: seq<byte>, cidSz: nat, maxFrag: nat)
  {
    forall i :: 0 <= i < |msgs| && msgs[i].num == t.num ==>
      || msgs[i].htype != htype || |msgs[i].body| != |body|
      || (OneRecord(msgs[i]) && T.FitsWhole(htype, body, cidSz, maxFrag))
  }

  /**
   What makes a step one of the runs considered: no delivered fragment falls in a gap, and behind a message that was
   given up, none is started that the receiver could mix with it.
   */
  ghost predicate Guarded(s: Sys, step: Step)
    requires Enabled(s, step)
  {
    match step
    case Deliver(k, env) => NoGap(s.rx, s.tx.link.wire[k].rn.epoch, s.tx.link.wire[k].payload)
    case Send(htype, body, cidSz, maxFrag, _, _) => Tellable(s.tx, s.msgs, htype, body, cidSz, maxFrag)
    case _ => true
  }

  lemma ToldOn(a: Message, b: Message, a': Message, b': Message)
    requires Told(a, b) && CutOn(a, a') && CutOn(b, b')
    requires CutSoFar(a) && CutSoFar(b) && CutSoFar(a') && CutSoFar(b')
    ensures Told(a', b')
  {
    WholeOn(a, a');
    WholeOn(b, b');
  }

  /** A call for a message adds at most one, and one that goes out in one record when it fits. */
  lemma SentIsNew(t: T.Tx, htype: byte, body: seq<byte>, cidSz: nat, maxFrag: nat, bufferAlloc: bool,
                  outs: seq<T.Out>, msgs: seq<Message>) returns (m: Message)
    requires T.TxOK(t) && t.frag == T.Idle && T.FragmentRoom(htype, cidSz, maxFrag) > 0
    ensures
      var msgs' := SentMessages(t, htype, body, cidSz, maxFrag, bufferAlloc, outs, msgs);
      msgs' == msgs || msgs' == msgs + [m]
    ensures m.num == t.num && m.htype == htype && m.body == body
    ensures T.FitsWhole(htype, body, cidSz, maxFrag) ==> OneRecord(m)
  {
    var msgs' := SentMessages(t, htype, body, cidSz, maxFrag, bufferAlloc, outs, msgs);
    m := if |msgs'| > |msgs| then msgs'[|msgs|] else Message(t.num, htype, body, [0, |body|]);
  }

  lemma StaysTold(msgs: seq<Message>, msgs': seq<Message>)
    requires AllTold(msgs) && Extends(msgs, msgs') && AllCut(msgs) && AllCut(msgs')
    requires forall i, j :: 0 <= i < j && |msgs| <= j < |msgs'| ==> Told(msgs'[i], msgs'[j])
    ensures AllTold(msgs')
  {
    forall i, j | 0 <= i < j < |msgs'|
      ensures Told(msgs'[i], msgs'[j])
    {
      if j < |msgs| {
        assert CutOn(msgs[i], msgs'[i]) && CutOn(msgs[j], msgs'[j]) && Told(msgs[i], msgs[j]);
        ToldOn(msgs[i], msgs[j], msgs'[i], msgs'[j]);
      }
    }
  }

  lemma StepTold(s: Sys, step: Step)
    requires Inv(s) && Enabled(s, step) && Guarded(s, step) && !step.Deliver?
    requires s.tx.frag.Sending? ==> s.tx.frag.off <= |s.tx.frag.body| && s.msgs != []
    requires var s' := Apply(s, step); Extends(s.msgs, s'.msgs) && AllCut(s'.msgs)
    ensures AllTold(Apply(s, step).msgs)
  {
    var msgs' := Apply(s, step).msgs;
    if step.Send? {
      var m := SentIsNew(s.tx, step.htype, step.body, step.cidSz, step.maxFrag, step.bufferAlloc, step.outs, s.msgs);
      SendTold(s.tx, s.msgs, m, msgs', step.cidSz, step.maxFrag);
    }
    StaysTold(s.msgs, msgs');
  }

  lemma SendTold(t: T.Tx, msgs: seq<Message>, m: Message, msgs': seq<Message>, cidSz: nat, maxFrag: nat)
    requires Tellable(t, msgs, m.htype, m.body, cidSz, maxFrag) && m.num == t.num
    requires msgs' == msgs || msgs' == msgs + [m]
    requires T.FitsWhole(m.htype, m.body, cidSz, maxFrag) ==> OneRecord(m)
    ensures forall i, j :: 0 <= i < j && |msgs| <= j < |msgs'| ==> Told(msgs'[i], msgs'[j])
  {
  }

  lemma StepInv(s: Sys, step: Step)
    requires Inv(s) && Enabled(s, step) && Guarded(s, step)
    ensures s.tx.frag.Sending? ==> s.tx.frag.off <= |s.tx.frag.body| && s.msgs != []
    ensures Inv(Apply(s, step)) && Extends(s.msgs, Apply(s, step).msgs) && Apply(s, step).start == s.start
  {
    if s.tx.frag.Sending? {
      assert CutSoFar(s.msgs[|s.msgs| - 1]);
    }
    if step.Deliver? {
      var e := s.tx.link.wire[step.k];
      DeliverInv(s.rx, e.rn.epoch, e.payload, step.env, s.msgs, s.start);
      ExtendsSelf(s.msgs);
    } else {
      SenderStep(s, step);
      StaysInSequence(s.tx, s.msgs, Apply(s, step).tx, Apply(s, step).msgs, s.start);
      StepTold(s, step);
      ReceiverOn(s.rx, s.msgs, Apply(s, step).msgs, s.start);
    }
  }

  /** Every step of the run is enabled and guarded. */
  ghost predicate GuardedRun(s: Sys, steps: seq<Step>)
    requires Inv(s)
    decreases |steps|
  {
    steps == [] ||
    (Enabled(s, steps[0]) && Guarded(s, steps[0]) &&
     (StepInv(s, steps[0]); GuardedRun(Apply(s, steps[0]), steps[1..])))
  }

  ghost function RunTo(s: Sys, steps: seq<Step>): (r: Sys)
    requires Inv(s) && GuardedRun(s, steps)
    decreases |steps|
  {
    if steps == [] then s
    else
      StepInv(s, steps[0]);
      RunTo(Apply(s, steps[0]), steps[1..])
  }

  /** Every guarded run keeps the invariant of the whole system, and messages once sent stay sent. */
  lemma {:induction false} RunKeepsInv(s: Sys, steps: seq<Step>)
    requires Inv(s) && GuardedRun(s, steps)
    ensures
      var r := RunTo(s, steps);
      Inv(r) && Extends(s.msgs, r.msgs) && r.start == s.start
    decreases |steps|
  {
    if steps == [] {
      ExtendsSelf(s.msgs);
    } else {
      StepInv(s, steps[0]);
      var s1 := Apply(s, steps[0]);
      RunKeepsInv(s1, steps[1..]);
      ExtendsTrans(s.msgs, s1.msgs, RunTo(s1, steps[1..]).msgs);
    }
  }

  /**
   End to end: from the start, after any guarded run, whatever was lost, repeated or reordered, each message the
   receiver accepted was put into records completely, with its type and full body, under its number; and the numbers
   are consecutive.  That the start satisfies Inv is InitInv.
   */
  lemma AcceptedIsSent(s: Sys, steps: seq<Step>, i: nat) returns (k: nat)
    requires Init(s) && Inv(s) && GuardedRun(s, steps) && i < |RunTo(s, steps).rx.log|
    ensures
      var r := RunTo(s, steps);
      && k < |r.msgs| && r.msgs[k].num == s.start + i && Whole(r.msgs[k])
      && r.rx.log[i] == R.Accepted(s.start + i, r.msgs[k].htype, r.msgs[k].body)
  {
    RunKeepsInv(s, steps);
    var r := RunTo(s, steps);
    assert SentWhole(r.rx.log[i], r.msgs, s.start + i);
    k :| 0 <= k < |r.msgs| && IsAccepted(r.rx.log[i], r.msgs[k], s.start + i);
  }

  /** The messages that were not followed by another one under the same number. */
  function Latest(msgs: seq<Message>): seq<Message>
  {
    if |msgs| <= 1 then msgs
    else (if msgs[0].num == msgs[1].num then [] else [msgs[0]]) + Latest(msgs[1..])
  }

  predicate Superseded(msgs: seq<Message>, k: nat)
    requires k < |msgs|
  {
    k + 1 < |msgs| && msgs[k + 1].num == msgs[k].num
  }

  /** A message that is not superseded is found among the latest by its number. */
  lemma {:induction false} LatestAt(msgs: seq<Message>, k: nat)
    requires Consecutive(msgs) && k < |msgs| && !Superseded(msgs, k)
    ensures msgs[0].num <= msgs[k].num
    ensures
      var at := msgs[k].num - msgs[0].num;
      at < |Latest(msgs)| && Latest(msgs)[at] == msgs[k]
  {
    if |msgs| > 1 {
      var rest := msgs[1..];
      assert Follows(msgs, 1);
      forall i | 0 < i < |rest|
        ensures Follows(rest, i)
      {
        assert Follows(msgs, i + 1);
      }
      if k > 0 {
        LatestAt(rest, k - 1);
      }
    }
  }

  lemma SentIsLatest(a: R.Accepted, msgs: seq<Message>, start: nat, num: nat)
    requires SentWhole(a, msgs, num) && Consecutive(msgs) && (msgs != [] ==> msgs[0].num == start <= num)
    requires forall k :: 0 <= k < |msgs| && Superseded(msgs, k) ==> !Whole(msgs[k])
    ensures
      var sent := Latest(msgs);
      start <= num && num - start < |sent| && a == R.Accepted(num, sent[num - start].htype, sent[num - start].body)
  {
    var k :| 0 <= k < |msgs| && IsAccepted(a, msgs[k], num);
    LatestAt(msgs, k);
  }

  lemma LogIsLatest(rx: R.Rx, msgs: seq<Message>, start: nat)
    requires LogSent(rx.log, msgs, start) && Consecutive(msgs) && (msgs != [] ==> msgs[0].num == start)
    requires forall k :: 0 <= k < |msgs| && Superseded(msgs, k) ==> !Whole(msgs[k])
    ensures
      var sent := Latest(msgs);
      && |rx.log| <= |sent|
      && forall i :: 0 <= i < |rx.log| ==> rx.log[i] == R.Accepted(start + i, sent[i].htype, sent[i].body)
  {
    var sent := Latest(msgs);
    forall i | 0 <= i < |rx.log|
      ensures i < |sent| && rx.log[i] == R.Accepted(start + i, sent[i].htype, sent[i].body)
    {
      assert SentWhole(rx.log[i], msgs, start + i);
      SentIsLatest(rx.log[i], msgs, start, start + i);
    }
    assert rx.log != [] ==> rx.log[|rx.log| - 1].num < start + |sent|;
  }

  /**
   If no message that was superseded had been put into records completely, then what the receiver accepted are the
   first of the messages that were not superseded, in order, with their types and full bodies.
   */
  lemma AcceptedIsPrefixOfSent(s: Sys, steps: seq<Step>)
    requires Init(s) && Inv(s) && GuardedRun(s, steps)
    requires
      var msgs := RunTo(s, steps).msgs;
      forall k :: 0 <= k < |msgs| && Superseded(msgs, k) ==> !Whole(msgs[k])
    ensures
      var r := RunTo(s, steps);
      var sent := Latest(r.msgs);
      && |r.rx.log| <= |sent|
      && forall i :: 0 <= i < |r.rx.log| ==> r.rx.log[i] == R.Accepted(s.start + i, sent[i].htype, sent[i].body)
  {
    RunKeepsInv(s, steps);
    var r := RunTo(s, steps);
    LogIsLatest(r.rx, r.msgs, s.start);
  }

  /** All steps are enabled, messages are started as guarded, and each is in at most four fragments at every step. */
  ghost predicate ShortRun(s: Sys, steps: seq<Step>)
    requires Inv(s)
    decreases |steps|
  {
    && AllShort(s.msgs)
    && (steps == [] ||
        (Enabled(s, steps[0]) && (steps[0].Send? ==> Guarded(s, steps[0])) &&
         (Guarded(s, steps[0]) ==> (StepInv(s, steps[0]); ShortRun(Apply(s, steps[0]), steps[1..])))))
  }

  lemma ShortStepIsGuarded(s: Sys, step: Step)
    requires Inv(s) && AllShort(s.msgs) && Enabled(s, step) && !step.Send?
    ensures Guarded(s, step)
  {
    if step.Deliver? {
      var e := s.tx.link.wire[step.k];
      ShortHasNoGap(s.rx, e.rn.epoch, e.payload, s.msgs, s.start);
    }
  }

  /** Messages in at most four fragments need no guard on deliveries. */
  lemma {:induction false} ShortRunIsGuarded(s: Sys, steps: seq<Step>)
    requires Inv(s) && ShortRun(s, steps)
    ensures GuardedRun(s, steps)
    decreases |steps|
  {
    if steps != [] {
      if !steps[0].Send? {
        ShortStepIsGuarded(s, steps[0]);
      }
      StepInv(s, steps[0]);
      ShortRunIsGuarded(Apply(s, steps[0]), steps[1..]);
    }
  }
}
