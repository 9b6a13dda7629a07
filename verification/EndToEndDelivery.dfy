/**
 Several messages delivered to a receiver that has memory and whose handlers answer 0: after any deliveries, in any
 order and with any repetitions, it has counted exactly the first messages of which every fragment was delivered, as
 long as fewer messages are under way than the buffer has entries.
 */
module EndToEndDelivery {
  import opened Bytes
  import opened Options
  import opened HandshakeHeader
  import opened Reassembly
  import opened FragmentCuts
  import opened ReceiverSlots
  import opened EndToEnd
  import opened EndToEndSender
  import opened EndToEndReceiver
  import opened EndToEndAcks
  import opened EndToEndLimits
  import T = SendPath
  import R = Receiver

  // ---------- what has arrived ----------

  /** The message was cut completely, into few fragments. */
  ghost predicate InBatch(m: Message, num: nat)
  {
    CutSoFar(m) && Whole(m) && |m.cuts| - 1 <= MAX_SAFE_FRAGMENTS && m.num == num && m.htype < NO_SHAKE
  }

  ghost predicate Batch(msgs: seq<Message>, start: nat)
  {
    start + |msgs| < 0x1_0000 && forall i :: 0 <= i < |msgs| ==> InBatch(msgs[i], start + i)
  }

  function IdOf(m: Message, epoch: nat): Id { Id(epoch, m.num, m.htype) }

  /** For each message, the fragments of it that have arrived. */
  type History = seq<seq<Arrival>>

  ghost predicate HistoryOK(msgs: seq<Message>, ar: History, epoch: nat)
  {
    && |ar| == |msgs|
    && forall i :: 0 <= i < |msgs| ==> Arriving(IdOf(msgs[i], epoch), msgs[i].body, msgs[i].cuts, ar[i])
  }

  /** Fragment f of message i arrives. */
  function Append(ar: History, i: nat, a: Arrival): History
    requires i < |ar|
  {
    ar[i := ar[i] + [a]]
  }

  lemma AppendOK(msgs: seq<Message>, start: nat, ar: History, epoch: nat, i: nat, a: Arrival)
    requires Batch(msgs, start) && HistoryOK(msgs, ar, epoch) && i < |msgs| && a.alloc && a.index + 1 < |msgs[i].cuts|
    ensures HistoryOK(msgs, Append(ar, i, a), epoch)
  {
  }

  lemma StartOK(msgs: seq<Message>, start: nat, epoch: nat)
    requires Batch(msgs, start)
    ensures HistoryOK(msgs, seq(|msgs|, i => []), epoch)
  {
    forall i | 0 <= i < |msgs|
      ensures Arriving(IdOf(msgs[i], epoch), msgs[i].body, msgs[i].cuts, [])
    {
      assert InBatch(msgs[i], start + i);
      AsCutIsCut(msgs[i]);
    }
  }

  // ---------- the slots ----------

  ghost function SlotOf(m: Message, epoch: nat, arrivals: seq<Arrival>): Slot
    requires Arriving(IdOf(m, epoch), m.body, m.cuts, arrivals)
  {
    if arrivals == [] then None else Some(FragmentCuts.Deliver(IdOf(m, epoch), m.body, m.cuts, arrivals))
  }

  ghost function SlotsOf(msgs: seq<Message>, ar: History, epoch: nat): (slots: seq<Slot>)
    requires HistoryOK(msgs, ar, epoch)
    ensures |slots| == |msgs|
  {
    seq(|msgs|, i requires 0 <= i < |msgs| => SlotOf(msgs[i], epoch, ar[i]))
  }

  /** All messages, as the receiver counts them. */
  function Counted(msgs: seq<Message>, start: nat): (all: seq<R.Accepted>)
    ensures |all| == |msgs|
  {
    seq(|msgs|, i requires 0 <= i < |msgs| => R.Accepted(start + i, msgs[i].htype, msgs[i].body))
  }

  /** A slot is full when all fragments have arrived, and then holds the message. */
  lemma SlotIs(m: Message, num: nat, epoch: nat, arrivals: seq<Arrival>)
    requires InBatch(m, num) && Arriving(IdOf(m, epoch), m.body, m.cuts, arrivals)
    ensures
      var slot := SlotOf(m, epoch, arrivals);
      && SlotOK(slot, num, epoch) && (Full(slot) <==> AllArrived(m.cuts, arrivals))
      && (Full(slot) ==> AcceptedOf(slot.value) == R.Accepted(num, m.htype, m.body))
  {
    ShortCutReady(IdOf(m, epoch), m.body, m.cuts, arrivals);
    if arrivals == [] {
      assert !FragmentCuts.Arrived(arrivals, 0);
    } else {
      Identified(IdOf(m, epoch), m.body, m.cuts, arrivals);
    }
  }

  lemma SlotsAre(msgs: seq<Message>, start: nat, ar: History, epoch: nat)
    requires Batch(msgs, start) && HistoryOK(msgs, ar, epoch)
    ensures
      var slots := SlotsOf(msgs, ar, epoch);
      && SlotsOK(slots, start, epoch) && Fits(slots, Counted(msgs, start))
      && forall i :: 0 <= i < |msgs| ==> (Full(slots[i]) <==> AllArrived(msgs[i].cuts, ar[i]))
  {
    forall i | 0 <= i < |msgs|
      ensures
        var slot := SlotsOf(msgs, ar, epoch)[i];
        && SlotOK(slot, start + i, epoch) && (Full(slot) <==> AllArrived(msgs[i].cuts, ar[i]))
        && (Full(slot) ==> Counted(msgs, start)[i] == AcceptedOf(slot.value))
    {
      assert InBatch(msgs[i], start + i);
      SlotIs(msgs[i], start + i, epoch, ar[i]);
    }
  }

  /** The fragment that arrives, as the receiver sees it. */
  ghost predicate IsPart(m: Message, a: Arrival, h: Header, data: seq<byte>, env: R.Env)
  {
    && a.index + 1 < |m.cuts| && m.cuts[a.index] <= m.cuts[a.index + 1] <= |m.body|
    && h == Header(m.htype, |m.body|, m.num, m.cuts[a.index], m.cuts[a.index + 1] - m.cuts[a.index])
    && data == Fragment(m.body, m.cuts, a.index)
    && a == Arrival(a.index, true, env.junk) && env.alloc && env.allocMsg
  }

  lemma SlotAfter(m: Message, num: nat, epoch: nat, arrivals: seq<Arrival>, a: Arrival, h: Header, data: seq<byte>,
                  env: R.Env)
    requires InBatch(m, num) && IsPart(m, a, h, data, env)
    requires Arriving(IdOf(m, epoch), m.body, m.cuts, arrivals)
    requires Arriving(IdOf(m, epoch), m.body, m.cuts, arrivals + [a])
    ensures
      var slot := SlotOf(m, epoch, arrivals);
      && (slot.Some? ==> Sorted(slot.value.buckets))
      && SlotOf(m, epoch, arrivals + [a]) == Some(Offered(slot, epoch, h, data, env).0)
      && (slot.None? ==> Offered(slot, epoch, h, data, env).1 == Ok)
      && (Full(slot) ==> SlotOf(m, epoch, arrivals + [a]) == slot)
  {
    var id, all := IdOf(m, epoch), arrivals + [a];
    assert all[..|all| - 1] == arrivals;
    var before := FragmentCuts.Deliver(id, m.body, m.cuts, arrivals);
    assert FragmentCuts.Deliver(id, m.body, m.cuts, all) == Arrive(before, id, m.body, m.cuts, a);
  }

  // ---------- one delivery ----------

  lemma SlotsAppend(msgs: seq<Message>, start: nat, ar: History, epoch: nat, i: nat, a: Arrival, h: Header,
                    data: seq<byte>, env: R.Env)
    requires Batch(msgs, start) && HistoryOK(msgs, ar, epoch) && i < |msgs| && IsPart(msgs[i], a, h, data, env)
    ensures HistoryOK(msgs, Append(ar, i, a), epoch)
    ensures
      var slots, slots' := SlotsOf(msgs, ar, epoch), SlotsOf(msgs, Append(ar, i, a), epoch);
      && (slots[i].Some? ==> Sorted(slots[i].value.buckets))
      && slots' == slots[i := Some(Offered(slots[i], epoch, h, data, env).0)]
      && (slots[i].None? ==> Offered(slots[i], epoch, h, data, env).1 == Ok)
      && (Full(slots[i]) ==> slots' == slots)
  {
    AppendOK(msgs, start, ar, epoch, i, a);
    assert InBatch(msgs[i], start + i);
    SlotAfter(msgs[i], start + i, epoch, ar[i], a, h, data, env);
    var slots, slots' := SlotsOf(msgs, ar, epoch), SlotsOf(msgs, Append(ar, i, a), epoch);
    assert forall x :: 0 <= x < |msgs| && x != i ==> slots'[x] == slots[x];
  }

  /** The only fragment of a message is all of it. */
  lemma OnlyPart(m: Message, num: nat, epoch: nat, arrivals: seq<Arrival>, a: Arrival, h: Header, data: seq<byte>,
                 env: R.Env)
    requires InBatch(m, num) && IsPart(m, a, h, data, env) && h.off == 0 && h.fragLen == h.length
    requires Arriving(IdOf(m, epoch), m.body, m.cuts, arrivals)
    requires Arriving(IdOf(m, epoch), m.body, m.cuts, arrivals + [a])
    ensures data == m.body && Full(SlotOf(m, epoch, arrivals + [a]))
    ensures !Full(SlotOf(m, epoch, arrivals)) ==> SlotOf(m, epoch, arrivals).None?
  {
    AsCutIsCut(m);
    CutRises(m.cuts, |m.body|);
    assert |m.cuts| == 2;
    OneIsAll(IdOf(m, epoch), m.body, m.cuts, arrivals + [a]);
    if arrivals != [] {
      OneIsAll(IdOf(m, epoch), m.body, m.cuts, arrivals);
    }
  }

  /** What the receiver holds after the arrivals. */
  ghost predicate Holds(rx: R.Rx, msgs: seq<Message>, start: nat, ar: History, epoch: nat, p: nat)
  {
    && Batch(msgs, start) && HistoryOK(msgs, ar, epoch) && Waiting(SlotsOf(msgs, ar, epoch), p)
    && rx == Holding(SlotsOf(msgs, ar, epoch), start, Counted(msgs, start), p)
  }

  lemma PartTaken(rx: R.Rx, msgs: seq<Message>, start: nat, ar: History, epoch: nat, p: nat, i: nat, a: Arrival,
                  h: Header, data: seq<byte>, env: R.Env) returns (rx1: R.Rx, q: nat)
    requires Holds(rx, msgs, start, ar, epoch, p) && i < |msgs| && IsPart(msgs[i], a, h, data, env)
    requires Generous(env, |msgs|) && |rx.list| < R.POOL_SZ
    ensures R.ListOK(rx.list) && rx1 == R.RecvInOrder(rx, epoch, h, data, env).0
    ensures Holds(rx1, msgs, start, Append(ar, i, a), epoch, q)
  {
    SlotsAppend(msgs, start, ar, epoch, i, a, h, data, env);
    SlotsAre(msgs, start, ar, epoch);
    SlotsAre(msgs, start, Append(ar, i, a), epoch);
    assert InBatch(msgs[i], start + i);
    var slots, slots' := SlotsOf(msgs, ar, epoch), SlotsOf(msgs, Append(ar, i, a), epoch);
    q := NextGap(slots', p);
    rx1 := Holding(slots', start, Counted(msgs, start), q);
    if i < p {
      OldDiscarded(slots, start, epoch, Counted(msgs, start), p, h, data, env);
    } else if h.off == 0 && h.fragLen == h.length && i == p {
      OnlyPart(msgs[i], start + i, epoch, ar[i], a, h, data, env);
      WholeTaken(slots, slots', start, epoch, Counted(msgs, start), p, h, data, env);
    } else {
      PartStored(slots, slots', start, epoch, Counted(msgs, start), p, i, h, data, env);
    }
  }

  // ---------- deliveries over the wire ----------

  /** The receiver gets everything it needs in the step. */
  ghost predicate Arrives(step: Step, n: nat)
  {
    step.Deliver? && Generous(step.env, n)
  }

  /** Fragment f of message i is delivered in one of the steps. */
  ghost predicate Delivered(wire: seq<T.Emitted>, msgs: seq<Message>, steps: seq<Step>, i: nat, f: nat)
  {
    exists x :: 0 <= x < |steps| && DeliversPart(wire, msgs, steps[x], i, f)
  }

  ghost predicate DeliversPart(wire: seq<T.Emitted>, msgs: seq<Message>, step: Step, i: nat, f: nat)
  {
    step.Deliver? && step.k < |wire| && IsFragment(wire[step.k].payload, msgs, i, f)
  }

  lemma DeliveredStep(wire: seq<T.Emitted>, msgs: seq<Message>, steps: seq<Step>, i: nat, f: nat)
    requires steps != []
    ensures Delivered(wire, msgs, steps, i, f) <==>
            DeliversPart(wire, msgs, steps[0], i, f) || Delivered(wire, msgs, steps[1..], i, f)
  {
    if Delivered(wire, msgs, steps, i, f) {
      var x :| 0 <= x < |steps| && DeliversPart(wire, msgs, steps[x], i, f);
      assert x > 0 ==> steps[x] == steps[1..][x - 1];
    }
    if Delivered(wire, msgs, steps[1..], i, f) {
      var x :| 0 <= x < |steps[1..]| && DeliversPart(wire, msgs, steps[1..][x], i, f);
      assert steps[x + 1] == steps[1..][x];
    }
  }

  /** A record carries one fragment of one message only. */
  lemma OnePart(p: seq<byte>, msgs: seq<Message>, start: nat, i: nat, f: nat, j: nat, g: nat)
    requires Batch(msgs, start) && IsFragment(p, msgs, i, f) && IsFragment(p, msgs, j, g)
    ensures i == j && f == g
  {
    var h := PartHeader(p, msgs, start, i, f);
    var k := PartHeader(p, msgs, start, j, g);
    var c := msgs[i].cuts;
    assert msgs[i].body != [] && f < g ==> InOrder(c, f, g);
    assert msgs[i].body != [] && g < f ==> InOrder(c, g, f);
  }

  lemma OneDelivered(wire: seq<T.Emitted>, msgs: seq<Message>, start: nat, step: Step, i: nat, f: nat, j: nat, g: nat)
    requires Batch(msgs, start) && DeliversPart(wire, msgs, step, i, f) && DeliversPart(wire, msgs, step, j, g)
    ensures i == j && f == g
  {
    OnePart(wire[step.k].payload, msgs, start, i, f, j, g);
  }

  lemma PartHeader(p: seq<byte>, msgs: seq<Message>, start: nat, i: nat, f: nat) returns (h: Header)
    requires Batch(msgs, start) && IsFragment(p, msgs, i, f)
    ensures GetHeader(p) == Parsed(h) && h.num == start + i && h.off == msgs[i].cuts[f]
    ensures CutSoFar(msgs[i]) && (msgs[i].body == [] ==> f == 0)
  {
    var m := msgs[i];
    assert InBatch(m, start + i);
    h := Header(m.htype, |m.body|, m.num, m.cuts[f], m.cuts[f + 1] - m.cuts[f]);
    GetPutHeader(h, m.body[h.off..h.off + h.fragLen]);
  }

  /** The records that are delivered are all of one epoch. */
  ghost predicate OneEpoch(wire: seq<T.Emitted>, epoch: nat)
  {
    forall k :: 0 <= k < |wire| ==> wire[k].rn.epoch == epoch
  }

  /** A record that carries fragment f of message i is delivered. */
  lemma DeliverPart(s: Sys, step: Step, ar: History, epoch: nat, p: nat, i: nat, f: nat)
    returns (s1: Sys, a: Arrival, q: nat)
    requires SysOK(s) && Holds(s.rx, s.msgs, s.start, ar, epoch, p) && |s.rx.list| < R.POOL_SZ
    requires OneEpoch(s.tx.link.wire, epoch) && Enabled(s, step) && Arrives(step, |s.msgs|)
    requires DeliversPart(s.tx.link.wire, s.msgs, step, i, f)
    ensures s1 == Apply(s, step) && SysOK(s1) && s1 == s.(rx := s1.rx)
    ensures a.index == f && HistoryOK(s.msgs, Append(ar, i, a), epoch)
    ensures Holds(s1.rx, s.msgs, s.start, Append(ar, i, a), epoch, q)
  {
    a := Arrival(f, true, step.env.junk);
    var payload := s.tx.link.wire[step.k].payload;
    var h, data := PartIs(payload, s.msgs, s.start, i, f, a, step.env);
    var rx1;
    rx1, q := PartReceived(s.rx, payload, s.msgs, s.start, ar, epoch, p, i, a, h, data, step.env);
    s1 := DeliverIs(s, step);
  }

  lemma PartReceived(rx: R.Rx, payload: seq<byte>, msgs: seq<Message>, start: nat, ar: History, epoch: nat, p: nat,
                     i: nat, a: Arrival, h: Header, data: seq<byte>, env: R.Env) returns (rx1: R.Rx, q: nat)
    requires Holds(rx, msgs, start, ar, epoch, p) && |rx.list| < R.POOL_SZ && Generous(env, |msgs|)
    requires i < |msgs| && IsPart(msgs[i], a, h, data, env) && Parses(payload, h, data)
    ensures HistoryOK(msgs, Append(ar, i, a), epoch)
    ensures R.ListOK(rx.list) && rx1 == R.Recv(rx, epoch, payload, env).0
    ensures Holds(rx1, msgs, start, Append(ar, i, a), epoch, q)
  {
    rx1, q := PartTaken(rx, msgs, start, ar, epoch, p, i, a, h, data, env);
    ParsedReceived(rx, epoch, payload, h, data, env);
  }

  /** The payload is a handshake fragment with the header and the data. */
  ghost predicate Parses(payload: seq<byte>, h: Header, data: seq<byte>)
  {
    && h.htype < NO_SHAKE && h.off + h.fragLen <= h.length && |payload| == HEADER_SZ + h.fragLen
    && GetHeader(payload) == Parsed(h) && payload[HEADER_SZ..HEADER_SZ + h.fragLen] == data
  }

  lemma FewEntries(rx: R.Rx, msgs: seq<Message>, start: nat, ar: History, epoch: nat, p: nat)
    requires Holds(rx, msgs, start, ar, epoch, p)
    ensures |rx.list| <= |msgs|
  {
    SlotsAre(msgs, start, ar, epoch);
    EntriesOK(SlotsOf(msgs, ar, epoch), start, epoch, p);
  }

  lemma PartIs(payload: seq<byte>, msgs: seq<Message>, start: nat, i: nat, f: nat, a: Arrival, env: R.Env)
    returns (h: Header, data: seq<byte>)
    requires Batch(msgs, start) && IsFragment(payload, msgs, i, f) && env.alloc && env.allocMsg
    requires a == Arrival(f, true, env.junk)
    ensures IsPart(msgs[i], a, h, data, env) && Parses(payload, h, data)
  {
    var m := msgs[i];
    assert InBatch(m, start + i);
    h := Header(m.htype, |m.body|, m.num, m.cuts[f], m.cuts[f + 1] - m.cuts[f]);
    data := Fragment(m.body, m.cuts, f);
    GetPutHeader(h, data);
  }

  lemma PartOnWire(s: Sys, step: Step) returns (i: nat, f: nat)
    requires SysOK(s) && Enabled(s, step) && step.Deliver?
    ensures DeliversPart(s.tx.link.wire, s.msgs, step, i, f)
  {
    assert Carried(s.tx.link.wire[step.k].payload, s.msgs);
    i, f :| IsFragment(s.tx.link.wire[step.k].payload, s.msgs, i, f);
  }

  /** The fragments in ar' are those in ar and those delivered. */
  ghost predicate Grew(wire: seq<T.Emitted>, msgs: seq<Message>, steps: seq<Step>, ar: History, ar': History)
  {
    && |ar| == |ar'| == |msgs|
    && forall i: nat, f: nat :: i < |msgs| ==>
         (FragmentCuts.Arrived(ar'[i], f) <==>
            FragmentCuts.Arrived(ar[i], f) || Delivered(wire, msgs, steps, i, f))
  }

  lemma AppendArrived(arrivals: seq<Arrival>, a: Arrival, f: nat)
    ensures FragmentCuts.Arrived(arrivals + [a], f) <==> FragmentCuts.Arrived(arrivals, f) || f == a.index
  {
    var all := arrivals + [a];
    if FragmentCuts.Arrived(arrivals, f) {
      var x :| 0 <= x < |arrivals| && arrivals[x].index == f;
      assert all[x].index == f;
    }
    assert all[|arrivals|] == a;
  }

  lemma GrewStep(wire: seq<T.Emitted>, msgs: seq<Message>, start: nat, steps: seq<Step>, ar: History, ar': History,
                 i: nat, a: Arrival)
    requires Batch(msgs, start) && steps != [] && |ar| == |msgs| && DeliversPart(wire, msgs, steps[0], i, a.index)
    requires Grew(wire, msgs, steps[1..], Append(ar, i, a), ar')
    ensures Grew(wire, msgs, steps, ar, ar')
  {
    forall j: nat, f: nat | j < |msgs|
      ensures FragmentCuts.Arrived(ar'[j], f) <==>
              FragmentCuts.Arrived(ar[j], f) || Delivered(wire, msgs, steps, j, f)
    {
      DeliveredStep(wire, msgs, steps, j, f);
      AppendArrived(ar[i], a, f);
      if DeliversPart(wire, msgs, steps[0], j, f) {
        OneDelivered(wire, msgs, start, steps[0], i, a.index, j, f);
      }
    }
  }

  lemma {:induction false} AllDeliveries(s: Sys, steps: seq<Step>, ar: History, epoch: nat, p: nat)
    returns (ar': History, q: nat)
    requires SysOK(s) && Holds(s.rx, s.msgs, s.start, ar, epoch, p) && |s.msgs| < R.POOL_SZ
    requires OneEpoch(s.tx.link.wire, epoch) && EnabledRun(s, steps)
    requires forall x :: 0 <= x < |steps| ==> Arrives(steps[x], |s.msgs|)
    ensures Holds(Reach(s, steps).rx, s.msgs, s.start, ar', epoch, q)
    ensures Grew(s.tx.link.wire, s.msgs, steps, ar, ar')
    decreases |steps|
  {
    if steps == [] {
      return ar, p;
    }
    FewEntries(s.rx, s.msgs, s.start, ar, epoch, p);
    var i, f := PartOnWire(s, steps[0]);
    var s1, a, q1 := DeliverPart(s, steps[0], ar, epoch, p, i, f);
    ar', q := AllDeliveries(s1, steps[1..], Append(ar, i, a), epoch, q1);
    GrewStep(s.tx.link.wire, s.msgs, s.start, steps, ar, ar', i, a);
  }

  /** Every fragment of message i was delivered. */
  ghost predicate AllDelivered(s: Sys, steps: seq<Step>, i: nat)
    requires i < |s.msgs|
  {
    forall f: nat :: f + 1 < |s.msgs[i].cuts| ==> Delivered(s.tx.link.wire, s.msgs, steps, i, f)
  }

  /** Messages are on the wire, in few fragments each and under one epoch, and the receiver has seen nothing yet. */
  ghost predicate Underway(s: Sys, epoch: nat)
  {
    && SysOK(s) && Batch(s.msgs, s.start) && OneEpoch(s.tx.link.wire, epoch)
    && s.rx == R.Rx(s.start, true, [], s.start, [])
  }

  lemma {:induction false} NoEntries(slots: seq<Slot>, p: nat)
    requires p <= |slots| && forall i :: p <= i < |slots| ==> slots[i].None?
    ensures Entries(slots, p) == []
    decreases |slots| - p
  {
    if p < |slots| {
      NoEntries(slots, p + 1);
    }
  }

  lemma NothingArrived(s: Sys, epoch: nat) returns (ar: History)
    requires Underway(s, epoch)
    ensures Holds(s.rx, s.msgs, s.start, ar, epoch, 0) && |ar| == |s.msgs| && forall i :: 0 <= i < |ar| ==> ar[i] == []
  {
    ar := seq(|s.msgs|, i => []);
    StartOK(s.msgs, s.start, epoch);
    NoEntries(SlotsOf(s.msgs, ar, epoch), 0);
  }

  /** A run in which everything the receiver needs is there. */
  ghost predicate ArrivalRun(s: Sys, steps: seq<Step>)
  {
    SysOK(s) && EnabledRun(s, steps) && forall x :: 0 <= x < |steps| ==> Arrives(steps[x], |s.msgs|)
  }

  /**
   The receiver has counted, in order and with their bytes, exactly the first messages of which every fragment was
   delivered.
   */
  ghost predicate CountsDelivered(s: Sys, steps: seq<Step>, log: seq<R.Accepted>)
  {
    && |log| <= |s.msgs| && log == Counted(s.msgs, s.start)[..|log|]
    && (forall i :: 0 <= i < |log| ==> AllDelivered(s, steps, i))
    && (|log| < |s.msgs| ==> !AllDelivered(s, steps, |log|))
  }

  /** Nothing is lost, and nothing waits, in any order of delivery. */
  lemma CountedIffDelivered(s: Sys, steps: seq<Step>, epoch: nat)
    requires Underway(s, epoch) && |s.msgs| < R.POOL_SZ && ArrivalRun(s, steps)
    ensures CountsDelivered(s, steps, Reach(s, steps).rx.log)
  {
    var ar0 := NothingArrived(s, epoch);
    var ar, p := AllDeliveries(s, steps, ar0, epoch, 0);
    SlotsAre(s.msgs, s.start, ar, epoch);
    forall i | 0 <= i < |s.msgs|
      ensures AllDelivered(s, steps, i) <==> AllArrived(s.msgs[i].cuts, ar[i])
    {
      assert forall f: nat :: !FragmentCuts.Arrived(ar0[i], f);
    }
  }

  // ---------- sending the messages ----------

  ghost predicate IsOnWire(s: Sys, i: nat, f: nat)
  {
    exists k :: 0 <= k < |s.tx.link.wire| && IsFragment(s.tx.link.wire[k].payload, s.msgs, i, f)
  }

  /** Every fragment of every message is on the wire. */
  ghost predicate AllOnWire(s: Sys)
  {
    forall i: nat, f: nat :: i < |s.msgs| && f + 1 < |s.msgs[i].cuts| ==> IsOnWire(s, i, f)
  }

  /** A message of at most four fragments is sent without trouble, under the given epoch. */
  ghost predicate SendsShort(s: Sys, b: Step, epoch: nat)
  {
    && b.Send? && Enabled(s, b) && b.bufferAlloc && b.htype < NO_SHAKE && NoneHeld(b.outs) && s.tx.top == epoch
    && s.tx.top in s.tx.link.next && GoesSmoothly(s.tx, b.htype, b.body, b.outs)
    && |b.body| <= MAX_SAFE_FRAGMENTS * T.FragmentRoom(b.htype, b.cidSz, b.maxFrag)
  }

  ghost predicate SendsAll(s: Sys, sends: seq<Step>, epoch: nat)
    requires SysOK(s)
    decreases |sends|
  {
    sends == [] ||
    (SendsShort(s, sends[0], epoch) &&
     (StepKeepsSys(s, sends[0]); SendsAll(Apply(s, sends[0]), sends[1..], epoch)))
  }

  /** Everything that was sent so far is on the wire, and the next message gets the next number. */
  ghost predicate AllSent(s: Sys, epoch: nat)
  {
    Underway(s, epoch) && AllOnWire(s) && s.tx.num == s.start + |s.msgs|
  }

  lemma StillOnWire(s: Sys, s2: Sys, m: Message, i: nat, f: nat)
    requires s2.msgs == s.msgs + [m] && |s.tx.link.wire| <= |s2.tx.link.wire| && i < |s.msgs| && IsOnWire(s, i, f)
    requires forall k :: 0 <= k < |s.tx.link.wire| ==> s2.tx.link.wire[k] == s.tx.link.wire[k]
    ensures IsOnWire(s2, i, f)
  {
    var k :| 0 <= k < |s.tx.link.wire| && IsFragment(s.tx.link.wire[k].payload, s.msgs, i, f);
    assert IsFragment(s2.tx.link.wire[k].payload, s2.msgs, i, f);
  }

  lemma NowOnWire(s2: Sys, at: nat, id: Id, m: Message, f: nat)
    requires s2.msgs != [] && s2.msgs[|s2.msgs| - 1] == m && id.htype < NO_SHAKE && id.num < 0x1_0000
    requires id.htype == m.htype && id.num == m.num && m.cuts != [] && at + |m.cuts| - 1 <= |s2.tx.link.wire|
    requires FragmentsAt(s2.tx.link.wire, at, id, m.body, m.cuts) && f + 1 < |m.cuts|
    ensures IsOnWire(s2, |s2.msgs| - 1, f) && s2.tx.link.wire[at + f].rn.epoch == id.epoch
  {
    assert FragmentAt(s2.tx.link.wire, at, id, m.body, m.cuts, f);
    assert IsFragment(s2.tx.link.wire[at + f].payload, s2.msgs, |s2.msgs| - 1, f);
  }

  lemma OneMoreSent(s: Sys, b: Step, epoch: nat) returns (s2: Sys)
    requires AllSent(s, epoch) && SendsShort(s, b, epoch)
    ensures s2 == Apply(s, b) && AllSent(s2, epoch) && |s2.msgs| == |s.msgs| + 1 && s2.start == s.start
    ensures s2.msgs[..|s.msgs|] == s.msgs
    ensures s2.msgs[|s.msgs|].htype == b.htype && s2.msgs[|s.msgs|].body == b.body
  {
    var full;
    s2, full := NextOnWire(s, b);
    var m := s2.msgs[|s.msgs|];
    BatchGrows(s.msgs, s2.msgs, s.start, m);
    WireGrows(s, s2, m, Id(epoch, s.tx.num, b.htype), epoch);
  }

  lemma WireGrows(s: Sys, s2: Sys, m: Message, id: Id, epoch: nat)
    requires AllOnWire(s) && OneEpoch(s.tx.link.wire, epoch) && id.epoch == epoch
    requires s2.msgs == s.msgs + [m] && |s2.tx.link.wire| == |s.tx.link.wire| + |m.cuts| - 1 && m.cuts != []
    requires forall k :: 0 <= k < |s.tx.link.wire| ==> s2.tx.link.wire[k] == s.tx.link.wire[k]
    requires id.htype == m.htype < NO_SHAKE && id.num == m.num
    requires FragmentsAt(s2.tx.link.wire, |s.tx.link.wire|, id, m.body, m.cuts)
    ensures AllOnWire(s2) && OneEpoch(s2.tx.link.wire, epoch)
  {
    var at := |s.tx.link.wire|;
    forall i: nat, f: nat | i < |s2.msgs| && f + 1 < |s2.msgs[i].cuts|
      ensures IsOnWire(s2, i, f)
    {
      if i < |s.msgs| {
        assert IsOnWire(s, i, f);
        StillOnWire(s, s2, m, i, f);
      } else {
        NowOnWire(s2, at, id, m, f);
      }
    }
    forall k | 0 <= k < |s2.tx.link.wire|
      ensures s2.tx.link.wire[k].rn.epoch == epoch
    {
      if k >= at {
        NowOnWire(s2, at, id, m, k - at);
      }
    }
  }

  lemma BatchGrows(msgs: seq<Message>, msgs': seq<Message>, start: nat, m: Message)
    requires Batch(msgs, start) && msgs' == msgs + [m] && AllCut(msgs') && Whole(m) && m.htype < NO_SHAKE
    requires |m.cuts| - 1 <= MAX_SAFE_FRAGMENTS && m.num == start + |msgs|
    ensures Batch(msgs', start)
  {
    assert CutSoFar(msgs'[|msgs|]);
    forall i | 0 <= i < |msgs'|
      ensures InBatch(msgs'[i], start + i)
    {
      assert i < |msgs| ==> InBatch(msgs[i], start + i);
    }
  }

  /** The messages of the sends, in order. */
  ghost predicate AreSent(msgs: seq<Message>, sends: seq<Step>)
  {
    && |msgs| == |sends|
    && forall i :: 0 <= i < |sends| ==>
         sends[i].Send? && msgs[i].htype == sends[i].htype && msgs[i].body == sends[i].body
  }

  /** Short messages that are sent one after the other are then all on the wire. */
  lemma {:induction false} SendsGetThere(s: Sys, sends: seq<Step>, epoch: nat) returns (r: Sys)
    requires AllSent(s, epoch) && SendsAll(s, sends, epoch)
    ensures RunsTo(s, sends, r) && AllSent(r, epoch) && r.start == s.start
    ensures |s.msgs| <= |r.msgs| && r.msgs[..|s.msgs|] == s.msgs && AreSent(r.msgs[|s.msgs|..], sends)
    decreases |sends|
  {
    if sends == [] {
      return s;
    }
    var s1 := OneMoreSent(s, sends[0], epoch);
    r := SendsGetThere(s1, sends[1..], epoch);
    assert r.msgs[..|s.msgs|] == r.msgs[..|s1.msgs|][..|s.msgs|];
    assert r.msgs[|s.msgs|] == r.msgs[..|s1.msgs|][|s.msgs|];
    assert forall i :: 1 <= i < |sends| ==> r.msgs[|s.msgs|..][i] == r.msgs[|s1.msgs|..][i - 1];
  }

  /**
   From the start: messages of at most four fragments are sent, and their records delivered in any order and number.
   What the receiver has counted are exactly the first messages of which every fragment was delivered.
   */
  lemma SentMessagesArrive(s: Sys, sends: seq<Step>, steps: seq<Step>, epoch: nat) returns (r: Sys)
    requires Init(s) && SysOK(s) && SendsAll(s, sends, epoch) && |sends| < R.POOL_SZ
    ensures RunsTo(s, sends, r) && AreSent(r.msgs, sends)
    ensures ArrivalRun(r, steps) ==> CountsDelivered(r, steps, Reach(r, steps).rx.log)
  {
    r := SendsGetThere(s, sends, epoch);
    assert r.msgs[0..] == r.msgs;
    if ArrivalRun(r, steps) {
      CountedIffDelivered(r, steps, epoch);
    }
  }

  // ---------- a full buffer ----------

  /** No message fits one record. */
  ghost predicate AllCutUp(msgs: seq<Message>)
  {
    forall i :: 0 <= i < |msgs| ==> |msgs[i].cuts| >= 3
  }

  /** The delivery of fragment f of message i, with everything the receiver needs. */
  lemma DeliveryOf(s: Sys, i: nat, f: nat, junk: Junk) returns (step: Step)
    requires AllOnWire(s) && i < |s.msgs| && f + 1 < |s.msgs[i].cuts|
    ensures Enabled(s, step) && Arrives(step, |s.msgs|) && DeliversPart(s.tx.link.wire, s.msgs, step, i, f)
  {
    assert IsOnWire(s, i, f);
    var k :| 0 <= k < |s.tx.link.wire| && IsFragment(s.tx.link.wire[k].payload, s.msgs, i, f);
    var outcomes := seq(|s.msgs|, x => R.Done);
    step := Step.Deliver(k, R.Env(true, true, false, R.Accept, false, true, true, true, junk, outcomes));
  }

  lemma {:induction false} EntriesCount(slots: seq<Slot>, p: nat, n: nat)
    requires p <= n <= |slots| && forall i :: p <= i < |slots| ==> (slots[i].Some? <==> i < n)
    ensures |Entries(slots, p)| == n - p
    decreases |slots| - p
  {
    if p < n {
      EntriesCount(slots, p + 1, n);
    } else {
      NoEntries(slots, p);
    }
  }

  /** Of each of the first n messages, one fragment has arrived. */
  ghost predicate FirstOnes(ar: History, n: nat)
  {
    n <= |ar| && forall i: nat :: i < |ar| ==> HasFirst(ar, i, n)
  }

  ghost predicate HasFirst(ar: History, i: nat, n: nat)
    requires i < |ar|
  {
    |ar[i]| == if i < n then 1 else 0
  }

  lemma OneIsNotAll(cuts: seq<nat>, arrivals: seq<Arrival>)
    requires |cuts| >= 3 && |arrivals| <= 1
    ensures !AllArrived(cuts, arrivals)
  {
    assert FragmentCuts.Arrived(arrivals, 0) ==> arrivals[0].index == 0;
    assert FragmentCuts.Arrived(arrivals, 1) ==> arrivals[0].index == 1;
  }

  /** No message is then complete, and the buffer has an entry for each. */
  lemma FirstOnesHeld(rx: R.Rx, msgs: seq<Message>, start: nat, ar: History, epoch: nat, p: nat, n: nat)
    requires Holds(rx, msgs, start, ar, epoch, p) && FirstOnes(ar, n)
    requires AllCutUp(msgs)
    ensures p == 0 && R.ListOK(rx.list) && |rx.list| == n && rx.log == []
  {
    SlotsAre(msgs, start, ar, epoch);
    var slots := SlotsOf(msgs, ar, epoch);
    forall i | 0 <= i < |msgs|
      ensures !Full(slots[i]) && (slots[i].Some? <==> i < n)
    {
      assert HasFirst(ar, i, n);
      OneIsNotAll(msgs[i].cuts, ar[i]);
    }
    EntriesOK(slots, start, epoch, 0);
    EntriesCount(slots, 0, n);
  }

  /** The run has delivered one fragment of each of the first n messages. */
  ghost predicate Filled(s: Sys, steps: seq<Step>, rx: R.Rx, ar: History, epoch: nat, p: nat, n: nat)
  {
    && ArrivalRun(s, steps) && RunsTo(s, steps, s.(rx := rx))
    && Holds(rx, s.msgs, s.start, ar, epoch, p) && FirstOnes(ar, n)
  }

  /** The first fragments of the first n messages are delivered, one after the other. */
  lemma {:induction false} FillBuffer(s: Sys, epoch: nat, n: nat, junk: Junk)
    returns (steps: seq<Step>, rx: R.Rx, ar: History, p: nat)
    requires Underway(s, epoch) && AllOnWire(s) && AllCutUp(s.msgs) && n <= |s.msgs| && n <= R.POOL_SZ
    ensures Filled(s, steps, rx, ar, epoch, p, n)
    decreases n
  {
    if n == 0 {
      ar := NothingArrived(s, epoch);
      FirstOnesNone(ar);
      steps, rx, p := [], s.rx, 0;
      assert s.(rx := rx) == s;
    } else {
      steps, rx, ar, p := FillBuffer(s, epoch, n - 1, junk);
      steps, rx, ar, p := FillNext(s, steps, rx, ar, epoch, p, n, junk);
    }
  }

  lemma FillNext(s: Sys, steps: seq<Step>, rx: R.Rx, ar: History, epoch: nat, p: nat, n: nat, junk: Junk)
    returns (steps': seq<Step>, rx': R.Rx, ar': History, q: nat)
    requires n > 0 && Filled(s, steps, rx, ar, epoch, p, n - 1) && OneEpoch(s.tx.link.wire, epoch)
    requires AllOnWire(s) && AllCutUp(s.msgs) && n <= |s.msgs| && n <= R.POOL_SZ
    ensures Filled(s, steps', rx', ar', epoch, q, n)
  {
    var step := DeliveryOf(s, n - 1, 0, junk);
    rx', ar', q := FillOne(rx, s.tx.link.wire[step.k].payload, s.msgs, s.start, ar, epoch, p, n, step.env);
    OneMoreRun(s, steps, rx, step, rx');
    steps' := steps + [step];
  }

  lemma FillOne(rx: R.Rx, payload: seq<byte>, msgs: seq<Message>, start: nat, ar: History, epoch: nat, p: nat, n: nat,
                env: R.Env) returns (rx': R.Rx, ar': History, q: nat)
    requires Holds(rx, msgs, start, ar, epoch, p) && AllCutUp(msgs) && 0 < n <= |msgs| && n <= R.POOL_SZ
    requires FirstOnes(ar, n - 1) && IsFragment(payload, msgs, n - 1, 0) && Generous(env, |msgs|)
    ensures R.ListOK(rx.list) && rx' == R.Recv(rx, epoch, payload, env).0
    ensures Holds(rx', msgs, start, ar', epoch, q) && FirstOnes(ar', n)
  {
    FirstOnesHeld(rx, msgs, start, ar, epoch, p, n - 1);
    var a := Arrival(0, true, env.junk);
    var h, data := PartIs(payload, msgs, start, n - 1, 0, a, env);
    rx', q := PartReceived(rx, payload, msgs, start, ar, epoch, p, n - 1, a, h, data, env);
    ar' := Append(ar, n - 1, a);
    FirstOnesAppend(ar, n, a);
  }

  lemma FirstOnesNone(ar: History)
    requires forall i :: 0 <= i < |ar| ==> ar[i] == []
    ensures FirstOnes(ar, 0)
  {
  }

  lemma FirstOnesAppend(ar: History, n: nat, a: Arrival)
    requires 0 < n <= |ar| && FirstOnes(ar, n - 1)
    ensures FirstOnes(Append(ar, n - 1, a), n)
  {
    var ar' := Append(ar, n - 1, a);
    forall i: nat | i < |ar'|
      ensures HasFirst(ar', i, n)
    {
      assert HasFirst(ar, i, n - 1);
    }
  }

  lemma OneMoreRun(s: Sys, steps: seq<Step>, rx: R.Rx, step: Step, rx': R.Rx)
    requires ArrivalRun(s, steps) && RunsTo(s, steps, s.(rx := rx)) && Enabled(s, step) && Arrives(step, |s.msgs|)
    requires R.ListOK(rx.list)
    requires var e := s.tx.link.wire[step.k]; rx' == R.Recv(rx, e.rn.epoch, e.payload, step.env).0
    ensures ArrivalRun(s, steps + [step]) && RunsTo(s, steps + [step], s.(rx := rx'))
  {
    DeliverApplied(s.(rx := rx), step.k, step.env, rx');
    OneMoreStep(s, steps, s.(rx := rx), step);
  }

  /** A full buffer refuses every fragment that is not a whole message, whether expected or not. */
  lemma Refused(rx: R.Rx, epoch: nat, payload: seq<byte>, msgs: seq<Message>, start: nat, i: nat, f: nat, env: R.Env)
    requires R.ListOK(rx.list) && |rx.list| >= R.POOL_SZ && Batch(msgs, start) && Generous(env, |msgs|)
    requires IsFragment(payload, msgs, i, f) && |msgs[i].cuts| >= 3
    ensures R.Recv(rx, epoch, payload, env).0 == rx
  {
    var m, id := msgs[i], Id(epoch, start + i, msgs[i].htype);
    assert InBatch(m, start + i);
    AsCutIsCut(m);
    Partial(id, m.body, m.cuts, f);
    var h := FragmentHeader(id, m.body, m.cuts, f);
    FragmentReceived(rx, epoch, m.body, h, env, rx);
  }

  /** So the expected message never gets complete, although all its fragments are delivered. */
  lemma {:induction false} AllRefused(s: Sys, steps: seq<Step>, rx: R.Rx, n: nat, junk: Junk)
    returns (steps': seq<Step>)
    requires ArrivalRun(s, steps) && RunsTo(s, steps, s.(rx := rx)) && Batch(s.msgs, s.start) && R.ListOK(rx.list)
    requires AllOnWire(s) && AllCutUp(s.msgs) && s.msgs != [] && |rx.list| >= R.POOL_SZ && n < |s.msgs[0].cuts|
    ensures ArrivalRun(s, steps') && RunsTo(s, steps', s.(rx := rx))
    ensures forall f: nat :: f < n ==> Delivered(s.tx.link.wire, s.msgs, steps', 0, f)
    decreases n
  {
    if n == 0 {
      return steps;
    }
    var before := AllRefused(s, steps, rx, n - 1, junk);
    var step := DeliveryOf(s, 0, n - 1, junk);
    var e := s.tx.link.wire[step.k];
    Refused(rx, e.rn.epoch, e.payload, s.msgs, s.start, 0, n - 1, step.env);
    OneMoreRun(s, before, rx, step, rx);
    steps' := before + [step];
    MoreDelivered(s.tx.link.wire, s.msgs, before, step, 0, n);
  }

  lemma MoreDelivered(wire: seq<T.Emitted>, msgs: seq<Message>, steps: seq<Step>, step: Step, i: nat, n: nat)
    requires n > 0 && DeliversPart(wire, msgs, step, i, n - 1)
    requires forall f: nat :: f < n - 1 ==> Delivered(wire, msgs, steps, i, f)
    ensures forall f: nat :: f < n ==> Delivered(wire, msgs, steps + [step], i, f)
  {
    var all := steps + [step];
    forall f: nat | f < n
      ensures Delivered(wire, msgs, all, i, f)
    {
      if f < n - 1 {
        assert Delivered(wire, msgs, steps, i, f);
        var x :| 0 <= x < |steps| && DeliversPart(wire, msgs, steps[x], i, f);
        assert all[x] == steps[x];
      } else {
        assert all[|steps|] == step;
      }
    }
  }

  /**
   With as many messages under way as the buffer has entries, some order of delivery fills it with parts of all of
   them; every fragment of the expected message is then delivered, and the message is not counted.
   */
  lemma FullBufferStalls(s: Sys, epoch: nat, junk: Junk) returns (steps: seq<Step>)
    requires Underway(s, epoch) && AllOnWire(s) && AllCutUp(s.msgs) && |s.msgs| >= R.POOL_SZ
    ensures ArrivalRun(s, steps) && AllDelivered(s, steps, 0) && Reach(s, steps).rx.log == []
  {
    var fill, rx, ar, p := FillBuffer(s, epoch, R.POOL_SZ, junk);
    FirstOnesHeld(rx, s.msgs, s.start, ar, epoch, p, R.POOL_SZ);
    steps := AllRefused(s, fill, rx, |s.msgs[0].cuts| - 1, junk);
  }

  /**
   Messages of two to four fragments each, all on the wire: in every order of delivery the receiver counts exactly the
   first messages that were delivered completely, if and only if fewer are under way than the buffer has entries.
   */
  lemma DeliveryIffFewMessages(s: Sys, epoch: nat)
    requires Underway(s, epoch) && AllOnWire(s) && AllCutUp(s.msgs)
    ensures
      (forall steps: seq<Step> :: ArrivalRun(s, steps) ==> CountsDelivered(s, steps, Reach(s, steps).rx.log))
      <==> |s.msgs| < R.POOL_SZ
  {
    if |s.msgs| < R.POOL_SZ {
      forall steps: seq<Step> | ArrivalRun(s, steps)
        ensures CountsDelivered(s, steps, Reach(s, steps).rx.log)
      {
        CountedIffDelivered(s, steps, epoch);
      }
    } else {
      var steps := FullBufferStalls(s, epoch, i => 0);
      assert !CountsDelivered(s, steps, Reach(s, steps).rx.log);
    }
  }
}
