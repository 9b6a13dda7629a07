/** Over every run of the whole system: record numbers stay unique, and so acknowledgements remove the right records. */
module EndToEndAcks {
  import opened Bytes
  import opened Options
  import opened RtxRecords
  import opened EndToEnd
  import opened EndToEndSender
  import T = SendPath
  import TP = SendPathProofs
  import R = Receiver
  import RP = ReceiverProofs

  ghost predicate SysOK(s: Sys)
  {
    && SenderInv(s.tx, s.msgs) && RP.RxOK(s.rx) && TP.NumbersOK(s.tx.link, s.tx.recs)
    && (s.tx.frag.Sending? ==> s.tx.frag.off <= |s.tx.frag.body| && s.msgs != [])
  }

  /** An evicted epoch does not come back, so its numbers stay used. */
  lemma NewEpochNumbers(l: T.Link, recs: seq<Rec>, epoch: word64, evicted: Option<word64>)
    requires TP.NumbersOK(l, recs) && epoch !in l.retired && (evicted.Some? ==> evicted.value in l.next)
    ensures TP.NumbersOK(WithEpoch(l, epoch, evicted), recs)
  {
    var l' := WithEpoch(l, epoch, evicted);
    assert l'.next.Keys <= l.next.Keys + {epoch} && (evicted.Some? && l' != l ==> evicted.value !in l'.next);
    assert forall rn :: TP.Used(l, rn) ==> TP.Used(l', rn);
  }

  lemma {:induction false} FlushedNumbers(l: T.Link, recs: seq<Rec>, keepTickets: bool)
    requires TP.NumbersOK(l, recs)
    ensures TP.NumbersOK(l, Flushed(recs, keepTickets))
  {
    if recs != [] {
      var rest := recs[1..];
      assert forall i :: 0 <= i < |rest| ==> rest[i] == recs[i + 1];
      FlushedNumbers(l, rest, keepTickets);
      var f := Flushed(rest, keepTickets);
      FlushedAmong(rest, keepTickets);
      if !l.wrapped {
        forall j, rn | 0 <= j < |f| && IsTrackedByRn(recs[0], rn)
          ensures !IsTrackedByRn(f[j], rn)
        {
          assert f[j] in rest;
        }
      }
    }
  }

  /** Every enabled step, deliveries of any kind included, keeps the sender in order. */
  lemma StepKeepsSys(s: Sys, step: Step)
    requires SysOK(s) && Enabled(s, step)
    ensures SysOK(Apply(s, step))
  {
    match step
    case Deliver(k, env) =>
      RP.RecvKeeps(s.rx, s.tx.link.wire[k].rn.epoch, s.tx.link.wire[k].payload, env);
    case _ =>
      SenderStep(s, step);
      PendingInRange(Apply(s, step).tx, Apply(s, step).msgs);
      StepNumbers(s, step);
  }

  lemma PendingInRange(t: T.Tx, msgs: seq<Message>)
    requires SenderInv(t, msgs)
    ensures t.frag.Sending? ==> t.frag.off <= |t.frag.body| && msgs != []
  {
    if t.frag.Sending? {
      assert CutSoFar(msgs[|msgs| - 1]);
    }
  }

  lemma StepNumbers(s: Sys, step: Step)
    requires SysOK(s) && Enabled(s, step) && !step.Deliver?
    ensures TP.NumbersOK(Apply(s, step).tx.link, Apply(s, step).tx.recs)
  {
    match step
    case Send(htype, body, cidSz, maxFrag, bufferAlloc, outs) =>
      TP.HandshakeSendNumbers(s.tx, htype, body, cidSz, maxFrag, bufferAlloc, outs);
    case Continue(cidSz, maxFrag, outs) =>
      TP.SendFragmentsNumbers(s.tx, T.FragmentRoom(s.tx.frag.htype, cidSz, maxFrag), outs, 0);
    case Resend(rtxOuts) =>
      TP.RetransmitNumbers(s.tx.link, s.tx.recs, 0, rtxOuts);
    case Ack(acks) =>
      TP.UnackedNumbers(s.tx.link, s.tx.recs, acks);
    case Flush(keepTickets) =>
      FlushedNumbers(s.tx.link, s.tx.recs, keepTickets);
    case NewEpoch(epoch, evicted) =>
      NewEpochNumbers(s.tx.link, s.tx.recs, epoch, evicted);
  }

  ghost predicate EnabledRun(s: Sys, steps: seq<Step>)
    requires SysOK(s)
    decreases |steps|
  {
    steps == [] || (Enabled(s, steps[0]) && (StepKeepsSys(s, steps[0]); EnabledRun(Apply(s, steps[0]), steps[1..])))
  }

  ghost function Reach(s: Sys, steps: seq<Step>): (r: Sys)
    requires SysOK(s) && EnabledRun(s, steps)
    ensures SysOK(r)
    decreases |steps|
  {
    if steps == [] then s
    else
      StepKeepsSys(s, steps[0]);
      Reach(Apply(s, steps[0]), steps[1..])
  }

  /**
   In every reachable state, until a record counter wraps: no two emitted records share a number, and an ACK
   leaves exactly the queued records none of whose tracked numbers it names, in their old order.
   */
  lemma AckExactInEveryRun(s: Sys, steps: seq<Step>, acks: seq<RecordNumber>)
    requires SysOK(s) && EnabledRun(s, steps)
    ensures
      var t := Reach(s, steps).tx;
      !t.link.wrapped ==>
        && RemoveAll(t.recs, acks) == Unacked(t.recs, ToSet(acks))
        && forall i, j :: 0 <= i < j < |t.link.wire| ==> t.link.wire[i].rn != t.link.wire[j].rn
  {
    var t := Reach(s, steps).tx;
    if !t.link.wrapped {
      AckExact(t.recs, acks);
    }
  }

  lemma StartIsOK(t: T.Tx, start: nat)
    requires T.TxOK(t) && t.link.wire == [] && t.recs == [] && t.frag == T.Idle && start < 0x1_0000 && t.num == start
    requires t.link.next.Keys !! t.link.retired
    ensures SysOK(Sys(t, R.Rx(start, true, [], start, []), [], start))
  {
  }
}
