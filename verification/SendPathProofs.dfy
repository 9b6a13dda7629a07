/** Record numbers stay unique, retransmission keeps order, and fragments tile their message. */
module SendPathProofs {
  import opened Bytes
  import opened RtxRecords
  import opened SendPath

  // ---------- record numbers ----------

  /** The number was given out already, or belongs to an evicted epoch. */
  ghost predicate Used(l: Link, rn: RecordNumber)
  {
    rn.epoch in l.retired || (rn.epoch in l.next && rn.seqNum < l.next[rn.epoch])
  }

  /** Until a counter wraps, no two emitted records share a number and every number in sight was given out. */
  ghost predicate NumbersOK(l: Link, recs: seq<Rec>)
  {
    && l.current in l.next && l.next.Keys !! l.retired
    && (!l.wrapped ==>
          && (forall i :: 0 <= i < |l.wire| ==> Used(l, l.wire[i].rn))
          && (forall i, j :: 0 <= i < j < |l.wire| ==> l.wire[i].rn != l.wire[j].rn)
          && (forall i, rn :: 0 <= i < |recs| && IsTrackedByRn(recs[i], rn) ==> Used(l, rn))
          && NumbersDistinct(recs))
  }

  /** l' has given out at least the numbers l has, and differs in nothing else that matters to them. */
  ghost predicate Later(l: Link, l': Link)
  {
    && (l.wrapped ==> l'.wrapped)
    && (!l'.wrapped ==> forall rn :: Used(l, rn) ==> Used(l', rn))
  }

  lemma BumpLater(l: Link)
    requires l.current in l.next && l.current !in l.retired
    ensures Later(l, Bump(l))
    ensures var rn := RecordNumber(l.current, l.next[l.current]);
      !Used(l, rn) && (!Bump(l).wrapped ==> Used(Bump(l), rn))
  {
    var l', n := Bump(l), l.next[l.current];
    assert l'.retired == l.retired && l'.next.Keys == l.next.Keys;
    if !l'.wrapped {
      assert (n as int + 1) % TWO64 == n as int + 1;
    }
  }

  lemma SendRecordNumbers(l: Link, recs: seq<Rec>, htype: byte, payload: seq<byte>, res: SendResult)
    requires NumbersOK(l, recs)
    ensures
      var (l', r) := SendRecord(l, htype, payload, res);
      var rn := RecordNumber(l.current, l.next[l.current]);
      && NumbersOK(l', recs) && l'.next.Keys == l.next.Keys && l'.current == l.current && Later(l, l')
      && !Used(l, rn) && (!r.Failed? && !l'.wrapped ==> Used(l', rn))
  {
    var (l', r) := SendRecord(l, htype, payload, res);
    BumpLater(l);
    assert l' == l || (l'.next == Bump(l).next && l'.wrapped == Bump(l).wrapped && l'.retired == l.retired);
    assert forall x :: Used(l', x) <==> if l' == l then Used(l, x) else Used(Bump(l), x);
    if !l'.wrapped && l'.wire != l.wire {
      assert forall i :: 0 <= i < |l.wire| ==> Used(l, l.wire[i].rn) && l'.wire[i] == l.wire[i];
    }
  }

  /** A freshly numbered record joins the queue. */
  lemma AddedNumbers(l: Link, recs: seq<Rec>, r: Rec, l0: Link)
    requires NumbersOK(l, recs) && Later(l0, l)
    requires !l.wrapped ==> forall i, rn :: 0 <= i < |recs| && IsTrackedByRn(recs[i], rn) ==> Used(l0, rn)
    requires r.Tracked() == [r.slots[0]]
    requires var rn := RecordNumber(r.epoch, r.slots[0]); !Used(l0, rn) && (!l.wrapped ==> Used(l, rn))
    ensures NumbersOK(l, recs + [r])
  {
    var recs' := recs + [r];
    var own := RecordNumber(r.epoch, r.slots[0]);
    assert forall rn :: IsTrackedByRn(r, rn) ==> rn == own;
    assert forall i :: 0 <= i < |recs| ==> recs'[i] == recs[i];
  }

  /** A queued record is resent under a number nobody else tracks. */
  lemma ResentNumbers(l: Link, recs: seq<Rec>, k: nat, number: word64, l0: Link)
    requires NumbersOK(l, recs) && k < |recs| && Later(l0, l)
    requires !l.wrapped ==> forall i, rn :: 0 <= i < |recs| && IsTrackedByRn(recs[i], rn) ==> Used(l0, rn)
    requires var rn := RecordNumber(recs[k].epoch, number); !Used(l0, rn) && (!l.wrapped ==> Used(l, rn))
    ensures NumbersOK(l, recs[k := Resent(recs[k], number)])
  {
    var own := RecordNumber(recs[k].epoch, number);
    var r := Resent(recs[k], number);
    assert forall rn :: IsTrackedByRn(r, rn) ==> rn == own || IsTrackedByRn(recs[k], rn);
  }

  lemma MovedNumbers(l: Link, recs: seq<Rec>, k: nat)
    requires NumbersOK(l, recs) && k < |recs|
    ensures NumbersOK(l, MoveToEnd(recs, k))
  {
    var m := MoveToEnd(recs, k);
    assert forall i :: 0 <= i < |m| ==> m[i] == recs[if i < k then i else if i < |m| - 1 then i + 1 else k];
    if !l.wrapped {
      forall i, j, rn | 0 <= i < j < |m| && IsTrackedByRn(m[i], rn)
        ensures !IsTrackedByRn(m[j], rn)
      {
        var x := if i < k then i else if i < |m| - 1 then i + 1 else k;
        var y := if j < k then j else if j < |m| - 1 then j + 1 else k;
        assert m[i] == recs[x] && m[j] == recs[y] && x != y;
      }
    }
  }

  lemma ResendOneNumbers(l: Link, recs: seq<Rec>, k: nat, out: RtxOutcome)
    requires NumbersOK(l, recs) && k < |recs|
    ensures var (l', recs', ret) := ResendOne(l, recs, k, out); NumbersOK(l', recs')
  {
    if out.room == Free && (l.current == recs[k].epoch || recs[k].epoch in l.next) {
      var l1 := l.(current := recs[k].epoch);
      assert forall rn :: Used(l1, rn) <==> Used(l, rn);
      SendRecordNumbers(l1, recs, recs[k].htype, recs[k].data, out.res);
      var (l2, res) := SendRecord(l1, recs[k].htype, recs[k].data, out.res);
      if !res.Failed? && res != FailedLate {
        ResentNumbers(l2, recs, k, l1.next[l1.current], l1);
        if Blocked(res) {
          MovedNumbers(l2, recs[k := Resent(recs[k], l1.next[l1.current])], k);
        }
      }
    }
  }

  lemma {:induction false} RetransmitNumbers(l: Link, recs: seq<Rec>, k: nat, outs: seq<RtxOutcome>)
    requires NumbersOK(l, recs)
    ensures var (l', recs', ret) := Retransmit(l, recs, k, outs); NumbersOK(l', recs')
    decreases |recs| - k
  {
    if k < |recs| {
      ResendOneNumbers(l, recs, k, RtxOutcomeAt(outs, k));
      var (l1, recs1, ret) := ResendOne(l, recs, k, RtxOutcomeAt(outs, k));
      if ret == Done {
        RetransmitNumbers(l1, recs1, k + 1, outs);
      }
    }
  }

  lemma {:induction false} UnackedNumbers(l: Link, recs: seq<Rec>, acks: seq<RecordNumber>)
    requires NumbersOK(l, recs)
    ensures NumbersOK(l, RemoveAll(recs, acks))
  {
    if !l.wrapped {
      AckExact(recs, acks);
      UnackedDistinct(recs, ToSet(acks));
      var u := Unacked(recs, ToSet(acks));
      forall i, rn | 0 <= i < |u| && IsTrackedByRn(u[i], rn)
        ensures Used(l, rn)
      {
        assert u[i] in recs;
      }
    }
  }

  lemma SendOneNumbers(t: Tx, htype: byte, payload: seq<byte>, out: Out)
    requires TxOK(t) && NumbersOK(t.link, t.recs)
    ensures var t' := SendOne(t, htype, payload, out).0; TxOK(t') && NumbersOK(t'.link, t'.recs)
  {
    SendRecordNumbers(t.link, t.recs, htype, payload, out.res);
    var (l, res) := SendRecord(t.link, htype, payload, out.res);
    if !res.Failed? && res != FailedLate && htype != HELLO_RETRY_REQUEST {
      var rec := NewRec(t.link.current, htype, payload, t.link.next[t.link.current], out.junk1, out.junk2);
      AddedNumbers(l, t.recs, rec, t.link);
    }
  }

  lemma {:induction false} SendFragmentsNumbers(t: Tx, room: nat, outs: seq<Out>, k: nat)
    requires TxOK(t) && NumbersOK(t.link, t.recs) && t.frag.Sending? && t.frag.off <= |t.frag.body| && room > 0
    ensures var t' := SendFragments(t, room, outs, k).0; TxOK(t') && NumbersOK(t'.link, t'.recs)
    decreases |t.frag.body| - t.frag.off
  {
    var htype, body, off := t.frag.htype, t.frag.body, t.frag.off;
    if off < |body| {
      SendOneNumbers(t, htype, FragmentBytes(htype, body, t.num, off, Smaller(room, |body| - off)), OutAt(outs, k));
      var (t1, ret) := OneFragment(t, room, OutAt(outs, k));
      if ret == Done {
        SendFragmentsNumbers(t1, room, outs, k + 1);
      }
    }
  }

  lemma TopEpochNumbers(l: Link, recs: seq<Rec>, top: word64)
    requires NumbersOK(l, recs) && top in l.next
    ensures NumbersOK(l.(current := top), recs)
  {
    assert forall rn :: Used(l.(current := top), rn) <==> Used(l, rn);
  }

  lemma HandshakeSendNumbers(t: Tx, htype: byte, body: seq<byte>, cidSz: nat, maxFrag: nat, bufferAlloc: bool,
                             outs: seq<Out>)
    requires TxOK(t) && NumbersOK(t.link, t.recs) && FragmentRoom(htype, cidSz, maxFrag) > 0
    ensures var t' := HandshakeSend(t, htype, body, cidSz, maxFrag, bufferAlloc, outs).0;
      TxOK(t') && NumbersOK(t'.link, t'.recs)
  {
    if t.link.current == t.top || t.top in t.link.next {
      TopEpochNumbers(t.link, t.recs, t.top);
      var t1 := t.(link := t.link.(current := t.top));
      if FitsWhole(htype, body, cidSz, maxFrag) {
        SendWholeNumbers(t1, htype, body, OutAt(outs, 0));
      } else {
        SendFragmentedNumbers(t1, htype, body, FragmentRoom(htype, cidSz, maxFrag), bufferAlloc, outs);
      }
    }
  }

  lemma SendFragmentedNumbers(t: Tx, htype: byte, body: seq<byte>, room: nat, bufferAlloc: bool, outs: seq<Out>)
    requires TxOK(t) && NumbersOK(t.link, t.recs) && room > 0
    ensures var t' := SendFragmented(t, htype, body, room, bufferAlloc, outs).0; TxOK(t') && NumbersOK(t'.link, t'.recs)
  {
    if t.frag == Idle {
      SendFragmentsNumbers(t.(frag := Sending(htype, body, 0)), room, outs, 0);
    }
  }

  lemma SendWholeNumbers(t: Tx, htype: byte, body: seq<byte>, out: Out)
    requires TxOK(t) && NumbersOK(t.link, t.recs)
    ensures var t' := SendWhole(t, htype, body, out).0; TxOK(t') && NumbersOK(t'.link, t'.recs)
  {
    SendOneNumbers(t, htype, FragmentBytes(htype, body, t.num, 0, |body|), out);
  }

  // ---------- retransmission order ----------

  /** The same records in the same order, up to the numbers they are tracked by. */
  ghost predicate SameContents(a: seq<Rec>, b: seq<Rec>)
  {
    && |a| == |b|
    && forall i :: 0 <= i < |a| ==> a[i].epoch == b[i].epoch && a[i].htype == b[i].htype && a[i].data == b[i].data
  }

  /** The records emitted between l and l' carry recs[from], recs[from + 1], ... in list order. */
  ghost predicate EmittedInOrder(l: Link, l': Link, recs: seq<Rec>, from: nat)
  {
    && |l.wire| <= |l'.wire| && l'.wire[..|l.wire|] == l.wire
    && from + |l'.wire| - |l.wire| <= |recs|
    && forall i :: |l.wire| <= i < |l'.wire| ==>
         l'.wire[i].payload == recs[from + i - |l.wire|].data && l'.wire[i].rn.epoch == recs[from + i - |l.wire|].epoch
  }

  /** The answers a pass can stop with at a record for which the environment decides out. */
  ghost predicate StopsWith(out: RtxOutcome, ret: Ret)
  {
    if out.room != Free then ret == RoomRet(out.room)
    else ret == WouldBlock || ret == NoEpoch || ret == SendError || ret == LateError
  }

  /**
   What a pass that started at record k with list recs and stopped at record stop has done.  Only a record whose
   sending blocks is moved to the end; a blocked flush in front of a record leaves the list as it was, and so does a
   failure, even one that comes when the record is in the output buffer.
   */
  ghost predicate PassedInOrder(l: Link, recs: seq<Rec>, k: nat, outs: seq<RtxOutcome>, l': Link, recs': seq<Rec>,
                                ret: Ret, stop: nat)
  {
    var sent := |l'.wire| - |l.wire|;
    && k <= stop <= |recs| && EmittedInOrder(l, l', recs, k)
    && (forall i :: k <= i < stop ==> RtxOutcomeAt(outs, i) == RtxOutcome(Free, Sent))
    && (if stop == |recs| then ret == Done else StopsWith(RtxOutcomeAt(outs, stop), ret))
    && (if ret == WouldBlock then
          && SameContents(recs', MoveToEnd(recs, stop))
          && sent == if RtxOutcomeAt(outs, stop).res == WantWrite then stop - k + 1 else stop - k
        else SameContents(recs', recs) && sent == if ret == LateError then stop - k + 1 else stop - k)
  }

  /** The outcome of one round. */
  ghost predicate ResentInOrder(l: Link, recs: seq<Rec>, k: nat, outs: seq<RtxOutcome>, l': Link, recs': seq<Rec>,
                                ret: Ret)
  {
    if ret == Done then
      && EmittedInOrder(l, l', recs, k) && |l'.wire| == |l.wire| + 1 && SameContents(recs', recs)
      && RtxOutcomeAt(outs, k) == RtxOutcome(Free, Sent)
    else PassedInOrder(l, recs, k, outs, l', recs', ret, k)
  }

  lemma ResendOneInOrder(l: Link, recs: seq<Rec>, k: nat, outs: seq<RtxOutcome>)
    returns (l': Link, recs': seq<Rec>, ret: Ret)
    requires l.current in l.next && k < |recs|
    ensures (l', recs', ret) == ResendOne(l, recs, k, RtxOutcomeAt(outs, k))
    ensures ResentInOrder(l, recs, k, outs, l', recs', ret)
  {
    var r := ResendOne(l, recs, k, RtxOutcomeAt(outs, k));
    l', recs', ret := r.0, r.1, r.2;
    OneEmitted(l, l', recs, k);
    if ret == WouldBlock {
      MoveToEndContents(recs[k := Resent(recs[k], l.(current := recs[k].epoch).next[recs[k].epoch])], recs, k);
    }
  }

  lemma OneEmitted(l: Link, l': Link, recs: seq<Rec>, k: nat)
    requires k < |recs|
    ensures l'.wire == l.wire ==> EmittedInOrder(l, l', recs, k)
    ensures
      (exists n :: l'.wire == l.wire + [Emitted(RecordNumber(recs[k].epoch, n), recs[k].data)]) ==>
      EmittedInOrder(l, l', recs, k) && |l'.wire| == |l.wire| + 1
  {
  }

  lemma {:induction false} RetransmitInOrder(l: Link, recs: seq<Rec>, k: nat, outs: seq<RtxOutcome>)
    returns (l': Link, recs': seq<Rec>, ret: Ret, stop: nat)
    requires l.current in l.next && k <= |recs|
    ensures (l', recs', ret) == Retransmit(l, recs, k, outs)
    ensures PassedInOrder(l, recs, k, outs, l', recs', ret, stop)
    decreases |recs| - k
  {
    if k == |recs| {
      return l, recs, Done, k;
    }
    var l1, recs1, ret1 := ResendOneInOrder(l, recs, k, outs);
    if ret1 != Done {
      return l1, recs1, ret1, k;
    }
    l', recs', ret, stop := RetransmitInOrder(l1, recs1, k + 1, outs);
    PassChain(l, recs, k, outs, l1, recs1, l', recs', ret, stop);
  }

  /**
   A retransmission pass goes through the list in order up to the first record that is not simply sent.  A
   complete pass sends every record once.  WANT_WRITE moves the stopping record to the end when its sending
   blocks, and moves nothing when the flush in front of it does.
   */
  lemma RetransmissionPass(l: Link, recs: seq<Rec>, outs: seq<RtxOutcome>)
    requires l.current in l.next
    ensures
      var (l', recs', ret) := Retransmit(l, recs, 0, outs);
      exists stop: nat :: PassedInOrder(l, recs, 0, outs, l', recs', ret, stop)
  {
    var l', recs', ret, stop := RetransmitInOrder(l, recs, 0, outs);
  }

  lemma PassChain(l: Link, recs: seq<Rec>, k: nat, outs: seq<RtxOutcome>, l1: Link, recs1: seq<Rec>, l2: Link,
                  recs2: seq<Rec>, ret: Ret, stop: nat)
    requires k < |recs| && RtxOutcomeAt(outs, k) == RtxOutcome(Free, Sent)
    requires EmittedInOrder(l, l1, recs, k) && |l1.wire| == |l.wire| + 1 && SameContents(recs1, recs)
    requires PassedInOrder(l1, recs1, k + 1, outs, l2, recs2, ret, stop)
    ensures PassedInOrder(l, recs, k, outs, l2, recs2, ret, stop)
  {
    EmittedChain(l, l1, l2, recs, recs1, k);
    MoveToEndContents(recs1, recs, stop);
  }

  lemma EmittedChain(l: Link, l2: Link, l3: Link, recs: seq<Rec>, recs': seq<Rec>, k: nat)
    requires EmittedInOrder(l, l2, recs, k) && |l2.wire| == |l.wire| + 1
    requires EmittedInOrder(l2, l3, recs', k + 1) && SameContents(recs', recs)
    ensures EmittedInOrder(l, l3, recs, k)
  {
    assert l3.wire[..|l.wire|] == l3.wire[..|l2.wire|][..|l.wire|];
    assert l3.wire[|l.wire|] == l3.wire[..|l2.wire|][|l.wire|];
  }

  lemma MoveToEndContents(a: seq<Rec>, b: seq<Rec>, k: nat)
    requires SameContents(a, b)
    ensures k < |a| ==> SameContents(MoveToEnd(a, k), MoveToEnd(b, k))
  {
  }
}
