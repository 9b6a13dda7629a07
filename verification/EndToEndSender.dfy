/** Every step of the sender keeps the invariant of EndToEnd: nothing but fragments of its messages is ever emitted. */
module EndToEndSender {
  import opened Bytes
  import opened Reassembly
  import opened FragmentCuts
  import opened RtxRecords
  import opened EndToEnd
  import T = SendPath
  import TP = SendPathProofs
  import R = Receiver

  /** msgs' has the messages of msgs, perhaps cut further, and perhaps more. */
  ghost predicate Extends(msgs: seq<Message>, msgs': seq<Message>)
  {
    |msgs| <= |msgs'| &&
    forall i :: 0 <= i < |msgs| ==> CutOn(msgs[i], msgs'[i])
  }

  ghost predicate CutOn(m: Message, m': Message)
  {
    && m.num == m'.num && m.htype == m'.htype && m.body == m'.body
    && |m.cuts| <= |m'.cuts| && m'.cuts[..|m.cuts|] == m.cuts
  }

  /** A whole message is not cut further. */
  lemma WholeOn(m: Message, m': Message)
    requires CutSoFar(m) && CutSoFar(m') && CutOn(m, m')
    ensures Whole(m) ==> m'.cuts == m.cuts && Whole(m')
    ensures CutTo(m) <= CutTo(m')
  {
    var n, n' := |m.cuts| - 1, |m'.cuts| - 1;
    assert m'.cuts[..|m.cuts|][n] == m'.cuts[n];
    if n < n' {
      assert InOrder(m'.cuts, n, n');
    } else {
      assert m'.cuts[..|m.cuts|] == m'.cuts;
    }
  }

  lemma CarriedOn(p: seq<byte>, msgs: seq<Message>, msgs': seq<Message>)
    requires Carried(p, msgs) && Extends(msgs, msgs')
    ensures Carried(p, msgs')
  {
    var i: nat, j: nat :| IsFragment(p, msgs, i, j);
    assert CutOn(msgs[i], msgs'[i]);
    assert msgs'[i].cuts[..|msgs[i].cuts|][j] == msgs[i].cuts[j];
    assert msgs'[i].cuts[..|msgs[i].cuts|][j + 1] == msgs[i].cuts[j + 1];
    assert IsFragment(p, msgs', i, j);
  }

  lemma PayloadsOn(t: T.Tx, msgs: seq<Message>, msgs': seq<Message>)
    requires Payloads(t, msgs) && Extends(msgs, msgs')
    ensures Payloads(t, msgs')
  {
    forall i | 0 <= i < |t.link.wire|
      ensures Carried(t.link.wire[i].payload, msgs')
    {
      CarriedOn(t.link.wire[i].payload, msgs, msgs');
    }
    forall i | 0 <= i < |t.recs|
      ensures Carried(t.recs[i].data, msgs')
    {
      CarriedOn(t.recs[i].data, msgs, msgs');
    }
  }

  /** A bucket of whole fragments stays one when the message is cut further. */
  lemma AlignedOn(k: Bucket, m: Message, m': Message)
    requires CutSoFar(m) && CutSoFar(m') && CutOn(m, m') && AlignedBucket(k, AsCut(m))
    ensures AlignedBucket(k, AsCut(m'))
  {
    var a, c :| 0 <= a < c < |AsCut(m)| && k.offset == AsCut(m)[a] && k.End() == AsCut(m)[c];
    var n := |AsCut(m')| - 1;
    assert forall i :: 0 <= i < |m.cuts| ==> m'.cuts[..|m.cuts|][i] == m'.cuts[i];
    assert AsCut(m')[n] == |m.body| && a < |m.cuts|;
    if c < |m.cuts| {
      assert AsCut(m')[a] == k.offset && AsCut(m')[c] == k.End();
    } else {
      assert AsCut(m')[a] == k.offset && AsCut(m')[n] == k.End();
    }
  }

  lemma AsCutIsCut(m: Message)
    requires CutSoFar(m)
    ensures Cut(AsCut(m), |m.body|)
  {
    if m.body != [] {
      RisingAppend(m.cuts, |m.body|);
    }
  }

  lemma RisingAppend(cuts: seq<nat>, n: nat)
    requires Rising(cuts)
    ensures cuts == [] || cuts[|cuts| - 1] < n ==> Rising(cuts + [n])
  {
    var c := cuts + [n];
    if cuts == [] || cuts[|cuts| - 1] < n {
      forall i, j | 0 <= i < j < |c|
        ensures InOrder(c, i, j)
      {
        assert j < |cuts| ==> InOrder(cuts, i, j);
        assert i < |cuts| - 1 ==> InOrder(cuts, i, |cuts| - 1);
      }
    }
  }

  lemma StoredOn(x: Msg, msgs: seq<Message>, msgs': seq<Message>)
    requires StoredOf(x, msgs) && Extends(msgs, msgs')
    requires AllCut(msgs)
    requires AllCut(msgs')
    ensures StoredOf(x, msgs')
  {
    var i :| 0 <= i < |msgs| && StoredPart(x, msgs[i]);
    assert CutOn(msgs[i], msgs'[i]);
    AsCutIsCut(msgs'[i]);
    WholeOn(msgs[i], msgs'[i]);
    if !x.Ready() {
      forall k | 0 <= k < |x.buckets|
        ensures AlignedBucket(x.buckets[k], AsCut(msgs'[i]))
      {
        AlignedOn(x.buckets[k], msgs[i], msgs'[i]);
      }
    }
    assert StoredPart(x, msgs'[i]);
  }

  lemma SentOn(a: R.Accepted, msgs: seq<Message>, msgs': seq<Message>, num: nat)
    requires SentWhole(a, msgs, num) && Extends(msgs, msgs')
    requires AllCut(msgs)
    requires AllCut(msgs')
    ensures SentWhole(a, msgs', num)
  {
    var k :| 0 <= k < |msgs| && IsAccepted(a, msgs[k], num);
    assert CutOn(msgs[k], msgs'[k]);
    WholeOn(msgs[k], msgs'[k]);
    assert IsAccepted(a, msgs'[k], num);
  }

  lemma ReceiverOn(rx: R.Rx, msgs: seq<Message>, msgs': seq<Message>, start: nat)
    requires ReceiverInv(rx, msgs, start) && Extends(msgs, msgs')
    requires AllCut(msgs)
    requires AllCut(msgs')
    ensures ReceiverInv(rx, msgs', start)
  {
    forall i | 0 <= i < |rx.log|
      ensures SentWhole(rx.log[i], msgs', start + i)
    {
      SentOn(rx.log[i], msgs, msgs', start + i);
    }
    forall k | 0 <= k < |rx.list|
      ensures StoredOf(rx.list[k], msgs')
    {
      StoredOn(rx.list[k], msgs, msgs');
    }
  }

  /** At most one message was added, under the number of t; and if a number was used up, it is that of the last one. */
  ghost predicate Moves(t: T.Tx, msgs: seq<Message>, t': T.Tx, msgs': seq<Message>)
  {
    && |msgs| <= |msgs'| <= |msgs| + 1 && t.num <= t'.num <= t.num + 1
    && (|msgs'| > |msgs| ==> msgs'[|msgs|].num == t.num)
    && (t'.num > t.num ==> msgs' != [] && msgs'[|msgs'| - 1].num == t.num)
  }

  lemma StaysInSequence(t: T.Tx, msgs: seq<Message>, t': T.Tx, msgs': seq<Message>, start: nat)
    requires InSequence(t, msgs, start) && Extends(msgs, msgs') && Moves(t, msgs, t', msgs')
    ensures InSequence(t', msgs', start)
  {
    forall i | 0 < i < |msgs'|
      ensures Follows(msgs', i)
    {
      assert CutOn(msgs[i - 1], msgs'[i - 1]);
      assert i < |msgs| ==> CutOn(msgs[i], msgs'[i]) && Follows(msgs, i);
    }
    assert msgs != [] ==> CutOn(msgs[0], msgs'[0]) && CutOn(msgs[|msgs| - 1], msgs'[|msgs| - 1]);
  }

  // ---------- the fragmenter ----------

  lemma RecordPayloads(t: T.Tx, l: T.Link, recs: seq<Rec>, payload: seq<byte>, msgs: seq<Message>)
    requires Payloads(t, msgs) && Carried(payload, msgs)
    requires l.wire == t.link.wire || exists rn :: l.wire == t.link.wire + [T.Emitted(rn, payload)]
    requires recs == t.recs || exists r: Rec :: recs == t.recs + [r] && r.data == payload
    ensures Payloads(t.(link := l, recs := recs), msgs)
  {
  }

  lemma SendOnePayloads(t: T.Tx, htype: byte, payload: seq<byte>, out: T.Out, msgs: seq<Message>)
    returns (t': T.Tx, ret: T.Ret)
    requires T.TxOK(t) && Payloads(t, msgs)
    requires InRecord(T.SendOne(t, htype, payload, out).1) ==> Carried(payload, msgs)
    ensures (t', ret) == T.SendOne(t, htype, payload, out)
    ensures Payloads(t', msgs) && T.TxOK(t') && t' == t.(link := t'.link, recs := t'.recs)
  {
    t', ret := T.SendOne(t, htype, payload, out).0, T.SendOne(t, htype, payload, out).1;
    if InRecord(ret) {
      RecordPayloads(t, t'.link, t'.recs, payload, msgs);
    }
  }

  lemma SetLastExtends(msgs: seq<Message>, cuts: seq<nat>)
    requires msgs != [] && |msgs[|msgs| - 1].cuts| <= |cuts| && cuts[..|msgs[|msgs| - 1].cuts|] == msgs[|msgs| - 1].cuts
    ensures Extends(msgs, SetLast(msgs, cuts)) && |SetLast(msgs, cuts)| == |msgs|
  {
    var msgs' := SetLast(msgs, cuts);
    forall i | 0 <= i < |msgs|
      ensures CutOn(msgs[i], msgs'[i])
    {
      if i < |msgs| - 1 {
        assert msgs'[i] == msgs[i];
        assert msgs[i].cuts[..|msgs[i].cuts|] == msgs[i].cuts;
      }
    }
  }

  /** The messages after the last one was cut at one more place. */
  function CutAt(msgs: seq<Message>, at: nat): seq<Message>
    requires msgs != []
  {
    SetLast(msgs, msgs[|msgs| - 1].cuts + [at])
  }

  lemma CutAtOK(t: T.Tx, msgs: seq<Message>, at: nat) returns (msgs': seq<Message>)
    requires Pending(t, msgs) && AllCut(msgs) && t.frag.off < at <= |t.frag.body|
    ensures msgs' == CutAt(msgs, at) && Extends(msgs, msgs') && |msgs'| == |msgs| && AllCut(msgs')
    ensures Carried(T.FragmentBytes(t.frag.htype, t.frag.body, t.num, t.frag.off, at - t.frag.off), msgs')
  {
    var last := |msgs| - 1;
    var cuts := msgs[last].cuts;
    var payload := T.FragmentBytes(t.frag.htype, t.frag.body, t.num, t.frag.off, at - t.frag.off);
    msgs' := CutAt(msgs, at);
    SetLastExtends(msgs, cuts + [at]);
    assert IsFragment(payload, msgs', last, |cuts| - 1);
    assert forall i :: 0 <= i < last ==> msgs'[i] == msgs[i];
    RisingAppend(cuts, at);
    assert CutSoFar(msgs'[last]);
  }

  /** The place where the next fragment ends. */
  function NextCut(t: T.Tx, room: nat): nat
    requires t.frag.Sending? && t.frag.off <= |t.frag.body|
  {
    t.frag.off + T.Smaller(room, |t.frag.body| - t.frag.off)
  }

  lemma OneFragmentPayloads(t: T.Tx, room: nat, out: T.Out, msgs: seq<Message>) returns (t': T.Tx, ret: T.Ret)
    requires T.TxOK(t) && t.frag.Sending? && t.frag.off < |t.frag.body| && room > 0
    requires Payloads(t, msgs)
    requires
      var len := NextCut(t, room) - t.frag.off;
      InRecord(T.OneFragment(t, room, out).1) ==>
        Carried(T.FragmentBytes(t.frag.htype, t.frag.body, t.num, t.frag.off, len), msgs)
    ensures (t', ret) == T.OneFragment(t, room, out)
    ensures
      && Payloads(t', msgs) && t'.num == t.num && T.TxOK(t')
      && t'.frag == if ret == T.Done || ret == T.WouldBlock then t.frag.(off := NextCut(t, room)) else T.Idle
  {
    var payload := T.FragmentBytes(t.frag.htype, t.frag.body, t.num, t.frag.off, NextCut(t, room) - t.frag.off);
    if out.room == T.Free {
      var t1;
      t1, ret := SendOnePayloads(t, t.frag.htype, payload, out, msgs);
      t' := t1.(frag := if ret == T.Done || ret == T.WouldBlock then t.frag.(off := NextCut(t, room)) else T.Idle);
    } else {
      t', ret := t.(frag := T.Idle), T.RoomRet(out.room);
    }
  }

  lemma OneFragmentAdvances(t: T.Tx, room: nat, out: T.Out, msgs: seq<Message>)
    returns (t': T.Tx, ret: T.Ret, msgs': seq<Message>)
    requires SenderCore(t, msgs) && Pending(t, msgs) && t.frag.off < |t.frag.body| && room > 0
    ensures (t', ret) == T.OneFragment(t, room, out) && msgs' == CutAt(msgs, NextCut(t, room))
    ensures ret == T.Done || ret == T.WouldBlock ==> t'.frag == t.frag.(off := NextCut(t, room))
    ensures
      && SenderCore(t', msgs') && Extends(msgs, msgs') && |msgs'| == |msgs| && t'.num == t.num
      && (if ret == T.Done || ret == T.WouldBlock then Pending(t', msgs') else t'.frag == T.Idle)
  {
    var at := NextCut(t, room);
    msgs' := CutAtOK(t, msgs, at);
    PayloadsOn(t, msgs, msgs');
    t', ret := OneFragmentPayloads(t, room, out, msgs');
    if ret == T.Done || ret == T.WouldBlock {
      CutIsPending(t, msgs, t', at);
    }
  }

  lemma CutIsPending(t: T.Tx, msgs: seq<Message>, t': T.Tx, at: nat)
    requires Pending(t, msgs) && t'.frag == t.frag.(off := at) && t'.num == t.num
    ensures Pending(t', CutAt(msgs, at))
  {
  }

  /** What a call of the fragmenter leaves, before the message number advances. */
  ghost predicate AfterFragmenter(t: T.Tx, msgs: seq<Message>, t': T.Tx, msgs': seq<Message>, blocked: bool)
  {
    && SenderCore(t', msgs') && Extends(msgs, msgs') && |msgs'| == |msgs| > 0 && t'.num == t.num
    && (if blocked then Pending(t', msgs') else t'.frag == T.Idle)
  }

  lemma OneFragmentInv(t: T.Tx, room: nat, out: T.Out, msgs: seq<Message>)
    returns (t': T.Tx, ret: T.Ret, msgs': seq<Message>)
    requires SenderCore(t, msgs) && Pending(t, msgs) && t.frag.off < |t.frag.body| && room > 0
    ensures (t', ret) == T.OneFragment(t, room, out)
    ensures msgs' == if InRecord(ret) then CutAt(msgs, NextCut(t, room)) else msgs
    ensures AfterFragmenter(t, msgs, t', msgs', ret == T.Done || ret == T.WouldBlock)
    ensures ret == T.Done ==>
      t'.frag.Sending? && t.frag.off < t'.frag.off == NextCut(t, room) <= |t.frag.body| == |t'.frag.body|
  {
    if InRecord(T.OneFragment(t, room, out).1) {
      t', ret, msgs' := OneFragmentAdvances(t, room, out, msgs);
    } else {
      t', ret := OneFragmentPayloads(t, room, out, msgs);
      msgs' := msgs;
      ExtendsSelf(msgs);
    }
  }

  lemma SetLastTwice(msgs: seq<Message>, a: seq<nat>, b: seq<nat>)
    requires msgs != []
    ensures SetLast(SetLast(msgs, a), b) == SetLast(msgs, b)
    ensures SetLast(msgs, msgs[|msgs| - 1].cuts) == msgs
  {
  }

  lemma ExtendsTrans(a: seq<Message>, b: seq<Message>, c: seq<Message>)
    requires Extends(a, b) && Extends(b, c)
    ensures Extends(a, c)
  {
    forall i | 0 <= i < |a|
      ensures CutOn(a[i], c[i])
    {
      assert CutOn(a[i], b[i]) && CutOn(b[i], c[i]);
      assert c[i].cuts[..|a[i].cuts|] == c[i].cuts[..|b[i].cuts|][..|a[i].cuts|];
    }
  }

  lemma FragmenterChain(t: T.Tx, msgs: seq<Message>, t1: T.Tx, msgs1: seq<Message>, t2: T.Tx, msgs2: seq<Message>,
                        blocked: bool)
    requires Extends(msgs, msgs1) && |msgs1| == |msgs| && t1.num == t.num
    requires AfterFragmenter(t1, msgs1, t2, msgs2, blocked)
    ensures AfterFragmenter(t, msgs, t2, msgs2, blocked)
  {
    ExtendsTrans(msgs, msgs1, msgs2);
  }

  lemma CutsStep(t: T.Tx, room: nat, outs: seq<T.Out>, k: nat, cuts: seq<nat>, t1: T.Tx, ret: T.Ret, at: nat)
    requires T.TxOK(t) && t.frag.Sending? && t.frag.off < |t.frag.body| && room > 0
    requires (t1, ret) == T.OneFragment(t, room, T.OutAt(outs, k))
    requires at == t.frag.off + T.Smaller(room, |t.frag.body| - t.frag.off)
    ensures ret == T.Done ==> t1.frag == t.frag.(off := at) && T.TxOK(t1) && at <= |t1.frag.body|
    ensures CutsAfter(t, room, outs, k, cuts) ==
      if ret == T.Done then CutsAfter(t1, room, outs, k + 1, cuts + [at])
      else if InRecord(ret) then cuts + [at]
      else cuts
  {
  }

  lemma {:induction false} SendFragmentsInv(t: T.Tx, room: nat, outs: seq<T.Out>, k: nat, msgs: seq<Message>)
    returns (t': T.Tx, ret: T.Ret, msgs': seq<Message>)
    requires SenderCore(t, msgs) && Pending(t, msgs) && t.frag.off <= |t.frag.body| && room > 0
    ensures (t', ret) == T.SendFragments(t, room, outs, k)
    ensures msgs' == SetLast(msgs, CutsAfter(t, room, outs, k, msgs[|msgs| - 1].cuts))
    ensures AfterFragmenter(t, msgs, t', msgs', ret == T.WouldBlock)
    decreases |t.frag.body| - t.frag.off
  {
    var cuts := msgs[|msgs| - 1].cuts;
    SetLastTwice(msgs, cuts, cuts);
    ExtendsSelf(msgs);
    if t.frag.off == |t.frag.body| {
      return t.(frag := T.Idle), T.Done, msgs;
    }
    var t1, ret1, msgs1 := OneFragmentInv(t, room, T.OutAt(outs, k), msgs);
    CutsStep(t, room, outs, k, cuts, t1, ret1, NextCut(t, room));
    if ret1 != T.Done {
      return t1, ret1, msgs1;
    }
    t', ret, msgs' := SendFragmentsInv(t1, room, outs, k + 1, msgs1);
    SetLastTwice(msgs, cuts + [t1.frag.off], CutsAfter(t1, room, outs, k + 1, cuts + [t1.frag.off]));
    FragmenterChain(t, msgs, t1, msgs1, t', msgs', ret == T.WouldBlock);
  }

  // ---------- the steps of the sender ----------

  /** Counting a message changes nothing else. */
  lemma AdvanceInv(t: T.Tx, msgs: seq<Message>, counts: bool)
    requires SenderInv(t, msgs) && (counts ==> t.frag == T.Idle)
    ensures SenderInv(if counts then T.NextNum(t) else t, msgs)
  {
    assert Payloads(T.NextNum(t), msgs);
  }

  lemma ContinueInv(t: T.Tx, cidSz: nat, maxFrag: nat, outs: seq<T.Out>, msgs: seq<Message>)
    requires SenderInv(t, msgs) && t.frag.Sending? && t.frag.off <= |t.frag.body|
    requires T.FragmentRoom(t.frag.htype, cidSz, maxFrag) > 0
    ensures
      var room := T.FragmentRoom(t.frag.htype, cidSz, maxFrag);
      var msgs' := SetLast(msgs, CutsAfter(t, room, outs, 0, msgs[|msgs| - 1].cuts));
      var t' := T.FragmentsContinue(t, cidSz, maxFrag, outs).0;
      SenderInv(t', msgs') && Extends(msgs, msgs') && Moves(t, msgs, t', msgs')
  {
    var room := T.FragmentRoom(t.frag.htype, cidSz, maxFrag);
    var t1, ret, msgs' := SendFragmentsInv(t, room, outs, 0, msgs);
    AdvanceInv(t1, msgs', ret == T.Done);
  }

  lemma NewWholeMessage(num: word16, htype: byte, body: seq<byte>, msgs: seq<Message>) returns (msgs': seq<Message>)
    requires num < 0xFFFF && |body| < 0x1_0000
    requires AllCut(msgs)
    ensures msgs' == msgs + [Message(num, htype, body, [0, |body|])]
    ensures
      && Extends(msgs, msgs') && AllCut(msgs')
      && Carried(T.FragmentBytes(htype, body, num, 0, |body|), msgs')
  {
    var m := Message(num, htype, body, [0, |body|]);
    msgs' := msgs + [m];
    AppendExtends(msgs, m);
    if body != [] {
      assert InOrder(m.cuts, 0, 1);
    }
    assert CutSoFar(m);
    assert IsFragment(T.FragmentBytes(htype, body, num, 0, |body|), msgs + [m], |msgs|, 0);
  }

  lemma WholeInv(t: T.Tx, htype: byte, body: seq<byte>, out: T.Out, msgs: seq<Message>)
    requires SenderCore(t, msgs) && t.frag == T.Idle && t.num + 1 < 0x1_0000 && |body| < 0x1_0000
    ensures
      var msgs' := WholeMessages(t, htype, body, out, msgs);
      var t' := T.SendWhole(t, htype, body, out).0;
      SenderInv(t', msgs') && Extends(msgs, msgs') && Moves(t, msgs, t', msgs')
  {
    var payload := T.FragmentBytes(htype, body, t.num, 0, |body|);
    ExtendsSelf(msgs);
    if InRecord(T.SendOne(t, htype, payload, out).1) {
      var msgs' := NewWholeMessage(t.num, htype, body, msgs);
      PayloadsOn(t, msgs, msgs');
      var t1, ret := SendOnePayloads(t, htype, payload, out, msgs');
      WholeSent(t, msgs, t1, msgs', ret != T.LateError);
    } else {
      var t1, ret := SendOnePayloads(t, htype, payload, out, msgs);
    }
  }

  lemma WholeSent(t: T.Tx, msgs: seq<Message>, t1: T.Tx, msgs': seq<Message>, counts: bool)
    requires t.frag == T.Idle && t.num + 1 < 0x1_0000 && T.TxOK(t1) && t1 == t.(link := t1.link, recs := t1.recs)
    requires |msgs'| == |msgs| + 1 && msgs'[|msgs|].num == t.num && AllCut(msgs') && Payloads(t1, msgs')
    ensures
      var t' := if counts then T.NextNum(t1) else t1;
      SenderInv(t', msgs') && Moves(t, msgs, t', msgs')
  {
    AdvanceInv(t1, msgs', counts);
  }

  lemma AppendExtends(msgs: seq<Message>, m: Message)
    ensures Extends(msgs, msgs + [m])
    ensures AllCut(msgs) && CutSoFar(m) ==>
            forall i :: 0 <= i < |msgs + [m]| ==> CutSoFar((msgs + [m])[i])
  {
    forall i | 0 <= i < |msgs|
      ensures CutOn(msgs[i], (msgs + [m])[i])
    {
      assert msgs[i].cuts[..|msgs[i].cuts|] == msgs[i].cuts;
    }
  }

  lemma SetNewCuts(msgs: seq<Message>, m: Message, cuts: seq<nat>)
    ensures SetLast(msgs + [m], cuts) == msgs + [m.(cuts := cuts)]
  {
  }

  lemma FragmentedInv(t: T.Tx, room: nat, outs: seq<T.Out>, msgs: seq<Message>)
    requires SenderCore(t, msgs) && t.num + 1 < 0x1_0000
    requires room > 0 && t.frag.Sending? && t.frag.off == 0 < |t.frag.body| < 0x1_0000
    ensures
      var (t', ret) := T.SendFragments(t, room, outs, 0);
      var msgs' := FragmentedMessages(t, room, outs, msgs);
      var t'' := if ret == T.Done then T.NextNum(t') else t';
      SenderInv(t'', msgs') && Extends(msgs, msgs') && Moves(t, msgs, t'', msgs')
  {
    var cuts := CutsAfter(t, room, outs, 0, [0]);
    if cuts == [0] {
      GivenUpAtOnce(t, room, outs, msgs);
    } else {
      var m := Message(t.num, t.frag.htype, t.frag.body, [0]);
      var msgs0 := msgs + [m];
      AppendExtends(msgs, m);
      PayloadsOn(t, msgs, msgs0);
      var t1, ret, msgs1 := SendFragmentsInv(t, room, outs, 0, msgs0);
      SetNewCuts(msgs, m, cuts);
      AdvanceInv(t1, msgs1, ret == T.Done);
      ExtendsTrans(msgs, msgs0, msgs1);
    }
  }

  /** A message whose first fragment is given up is forgotten. */
  lemma GivenUpAtOnce(t: T.Tx, room: nat, outs: seq<T.Out>, msgs: seq<Message>)
    requires SenderCore(t, msgs)
    requires room > 0 && t.frag.Sending? && t.frag.off == 0 < |t.frag.body|
    requires CutsAfter(t, room, outs, 0, [0]) == [0]
    ensures
      var (t', ret) := T.SendFragments(t, room, outs, 0);
      ret != T.Done && SenderInv(t', msgs) && t'.num == t.num && Extends(msgs, msgs)
  {
    var ret := T.OneFragment(t, room, T.OutAt(outs, 0)).1;
    assert !InRecord(ret);
    var t1, ret1 := OneFragmentPayloads(t, room, T.OutAt(outs, 0), msgs);
    ExtendsSelf(msgs);
  }

  /** A new message, on either path. */
  lemma SendInv(t: T.Tx, htype: byte, body: seq<byte>, cidSz: nat, maxFrag: nat, bufferAlloc: bool, outs: seq<T.Out>,
                msgs: seq<Message>)
    requires SenderInv(t, msgs) && t.frag == T.Idle
    requires T.FragmentRoom(htype, cidSz, maxFrag) > 0 && |body| < 0x1_0000 && t.num + 1 < 0x1_0000
    ensures
      var msgs' := SentMessages(t, htype, body, cidSz, maxFrag, bufferAlloc, outs, msgs);
      var t' := T.HandshakeSend(t, htype, body, cidSz, maxFrag, bufferAlloc, outs).0;
      SenderInv(t', msgs') && Extends(msgs, msgs') && Moves(t, msgs, t', msgs')
  {
    ExtendsSelf(msgs);
    if t.link.current == t.top || t.top in t.link.next {
      var t1 := WithTopEpoch(t);
      assert SenderCore(t1, msgs);
      if T.FitsWhole(htype, body, cidSz, maxFrag) {
        WholeInv(t1, htype, body, T.OutAt(outs, 0), msgs);
      } else if bufferAlloc {
        FragmentedInv(t1.(frag := T.Sending(htype, body, 0)), T.FragmentRoom(htype, cidSz, maxFrag), outs, msgs);
      }
    }
  }

  lemma ExtendsSelf(msgs: seq<Message>)
    ensures Extends(msgs, msgs)
  {
    forall i | 0 <= i < |msgs|
      ensures CutOn(msgs[i], msgs[i])
    {
      assert msgs[i].cuts[..|msgs[i].cuts|] == msgs[i].cuts;
    }
  }

  lemma ResendInv(t: T.Tx, outs: seq<T.RtxOutcome>, msgs: seq<Message>)
    requires SenderInv(t, msgs)
    ensures
      var (l, recs, ret) := T.Retransmit(t.link, t.recs, 0, outs);
      SenderInv(t.(link := l, recs := recs), msgs)
  {
    var l, recs, ret, stop := TP.RetransmitInOrder(t.link, t.recs, 0, outs);
    RetransmitKeepsEpoch(t.link, t.recs, 0, outs);
    PassedPayloads(t, outs, l, recs, ret, stop, msgs);
  }

  lemma PassedPayloads(t: T.Tx, outs: seq<T.RtxOutcome>, l: T.Link, recs: seq<Rec>, ret: T.Ret, stop: nat,
                       msgs: seq<Message>)
    requires Payloads(t, msgs) && TP.PassedInOrder(t.link, t.recs, 0, outs, l, recs, ret, stop)
    ensures Payloads(t.(link := l, recs := recs), msgs)
  {
    forall i | 0 <= i < |l.wire|
      ensures Carried(l.wire[i].payload, msgs)
    {
      if i < |t.link.wire| {
        assert l.wire[i] == l.wire[..|t.link.wire|][i];
      } else {
        assert l.wire[i].payload == t.recs[i - |t.link.wire|].data;
      }
    }
    forall i | 0 <= i < |recs|
      ensures Carried(recs[i].data, msgs)
    {
      if ret == T.WouldBlock {
        assert T.MoveToEnd(t.recs, stop)[i] == t.recs[if i < stop then i else if i < |recs| - 1 then i + 1 else stop];
      }
    }
  }

  lemma {:induction false} RetransmitKeepsEpoch(l: T.Link, recs: seq<Rec>, k: nat, outs: seq<T.RtxOutcome>)
    requires l.current in l.next
    ensures var l' := T.Retransmit(l, recs, k, outs).0; l'.current in l'.next
    decreases |recs| - k
  {
    if k < |recs| {
      var (l1, recs1, ret) := T.ResendOne(l, recs, k, T.RtxOutcomeAt(outs, k));
      if ret == T.Done {
        RetransmitKeepsEpoch(l1, recs1, k + 1, outs);
      }
    }
  }

  /** Every record of a is one of b. */
  ghost predicate Among(a: seq<Rec>, b: seq<Rec>)
  {
    forall i :: 0 <= i < |a| ==> a[i] in b
  }

  lemma {:induction false} RemoveAmong(recs: seq<Rec>, rn: RecordNumber)
    ensures Among(Remove(recs, rn), recs)
  {
    if recs != [] {
      RemoveAmong(recs[1..], rn);
    }
  }

  lemma {:induction false} RemoveAllAmong(recs: seq<Rec>, acks: seq<RecordNumber>)
    ensures Among(RemoveAll(recs, acks), recs)
    decreases |acks|
  {
    if acks != [] {
      RemoveAmong(recs, acks[0]);
      RemoveAllAmong(Remove(recs, acks[0]), acks[1..]);
    }
  }

  lemma {:induction false} FlushedAmong(recs: seq<Rec>, keepTickets: bool)
    ensures Among(Flushed(recs, keepTickets), recs)
  {
    if recs != [] {
      FlushedAmong(recs[1..], keepTickets);
    }
  }

  lemma FewerRecordsInv(t: T.Tx, recs: seq<Rec>, msgs: seq<Message>)
    requires SenderInv(t, msgs) && Among(recs, t.recs)
    ensures SenderInv(t.(recs := recs), msgs)
  {
    forall i | 0 <= i < |recs|
      ensures Carried(recs[i].data, msgs)
    {
      assert recs[i] in t.recs;
    }
  }

  /** Every step but a delivery keeps the sender's invariant and only adds to the messages. */
  lemma SenderStep(s: Sys, step: Step)
    requires SenderInv(s.tx, s.msgs) && R.ListOK(s.rx.list) && Enabled(s, step) && !step.Deliver?
    requires s.tx.frag.Sending? ==> s.tx.frag.off <= |s.tx.frag.body| && s.msgs != []
    ensures
      var s' := Apply(s, step);
      && SenderInv(s'.tx, s'.msgs) && Extends(s.msgs, s'.msgs) && Moves(s.tx, s.msgs, s'.tx, s'.msgs)
      && s'.rx == s.rx && s'.start == s.start
  {
    ExtendsSelf(s.msgs);
    match step
    case Send(htype, body, cidSz, maxFrag, bufferAlloc, outs) =>
      SendInv(s.tx, htype, body, cidSz, maxFrag, bufferAlloc, outs, s.msgs);
    case Continue(cidSz, maxFrag, outs) =>
      ContinueInv(s.tx, cidSz, maxFrag, outs, s.msgs);
    case Resend(rtxOuts) =>
      ResendInv(s.tx, rtxOuts, s.msgs);
    case Ack(acks) =>
      RemoveAllAmong(s.tx.recs, acks);
      FewerRecordsInv(s.tx, RemoveAll(s.tx.recs, acks), s.msgs);
    case Flush(keepTickets) =>
      FlushedAmong(s.tx.recs, keepTickets);
      FewerRecordsInv(s.tx, Flushed(s.tx.recs, keepTickets), s.msgs);
    case NewEpoch(epoch, evicted) =>
      assert Payloads(Apply(s, step).tx, s.msgs);
  }
}
