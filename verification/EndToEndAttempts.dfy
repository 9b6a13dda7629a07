/**
 A message that was left behind, given up half-way or sent although its caller was told that sending failed, and the
 next one, which gets the same number.  Which pairs of messages the receiver gets right in every run.
 */
module EndToEndAttempts {
  import opened Bytes
  import opened Reassembly
  import opened RtxRecords
  import opened FragmentCuts
  import opened EndToEnd
  import opened EndToEndSender
  import opened EndToEndReceiver
  import opened EndToEndAcks
  import opened EndToEndLimits
  import T = SendPath
  import TP = SendPathProofs
  import F = FragmenterProofs
  import SM = SendMessageProofs
  import R = Receiver

  // ---------- where a message is cut ----------

  /** The ends of the fragments of a message that is cut from byte off on. */
  function Grid(off: nat, size: nat, room: nat): seq<nat>
    requires off <= size && room > 0
    decreases size - off
  {
    if off == size then []
    else
      var at := off + T.Smaller(room, size - off);
      [at] + Grid(at, size, room)
  }

  lemma {:induction false} GridRises(off: nat, size: nat, room: nat, i: nat)
    requires off <= size && room > 0 && i < |Grid(off, size, room)|
    ensures Grid(off, size, room)[i] <= size
    ensures Grid(off, size, room)[i] == size <==> i + 1 == |Grid(off, size, room)|
    decreases size - off
  {
    var at := off + T.Smaller(room, size - off);
    if i > 0 {
      GridRises(at, size, room, i - 1);
    }
  }

  lemma {:induction false} GridShort(off: nat, size: nat, room: nat, n: nat)
    requires off <= size <= off + n * room && room > 0
    ensures |Grid(off, size, room)| <= n
    decreases n
  {
    if off < size {
      var at := off + T.Smaller(room, size - off);
      assert n > 0 && n * room == (n - 1) * room + room;
      GridShort(at, size, room, n - 1);
    }
  }

  /** A call cuts at the first few of these places. */
  lemma {:induction false} CutsOnGrid(t: T.Tx, room: nat, outs: seq<T.Out>, k: nat, cuts: seq<nat>)
    requires T.TxOK(t) && t.frag.Sending? && t.frag.off <= |t.frag.body| && room > 0
    ensures CutsAfter(t, room, outs, k, cuts) <= cuts + Grid(t.frag.off, |t.frag.body|, room)
    decreases |t.frag.body| - t.frag.off
  {
    if t.frag.off < |t.frag.body| {
      var at := t.frag.off + T.Smaller(room, |t.frag.body| - t.frag.off);
      var (t1, ret) := T.OneFragment(t, room, T.OutAt(outs, k));
      CutsStep(t, room, outs, k, cuts, t1, ret, at);
      CutFirst(cuts, at, Grid(at, |t.frag.body|, room));
      if ret == T.Done {
        CutsOnGrid(t1, room, outs, k + 1, cuts + [at]);
      }
    }
  }

  lemma CutFirst(cuts: seq<nat>, at: nat, rest: seq<nat>)
    ensures cuts + [at] + rest == cuts + ([at] + rest)
    ensures cuts <= cuts + ([at] + rest) && cuts + [at] <= cuts + ([at] + rest)
  {
  }

  /** Where the first call for a message would cut all of it. */
  function FullCut(htype: byte, body: seq<byte>, cidSz: nat, maxFrag: nat): seq<nat>
    requires T.FragmentRoom(htype, cidSz, maxFrag) > 0
  {
    if T.FitsWhole(htype, body, cidSz, maxFrag) then [0, |body|]
    else [0] + Grid(0, |body|, T.FragmentRoom(htype, cidSz, maxFrag))
  }

  lemma FullCutEnds(htype: byte, body: seq<byte>, cidSz: nat, maxFrag: nat, cuts: seq<nat>)
    requires T.FragmentRoom(htype, cidSz, maxFrag) > 0 && cuts <= FullCut(htype, body, cidSz, maxFrag) && |cuts| >= 2
    ensures cuts[|cuts| - 1] == |body| <==> cuts == FullCut(htype, body, cidSz, maxFrag)
  {
    var full := FullCut(htype, body, cidSz, maxFrag);
    assert |cuts| == |full| ==> cuts == full;
    if !T.FitsWhole(htype, body, cidSz, maxFrag) {
      GridRises(0, |body|, T.FragmentRoom(htype, cidSz, maxFrag), |cuts| - 2);
    }
  }

  lemma FullCutShort(htype: byte, body: seq<byte>, cidSz: nat, maxFrag: nat)
    requires T.FragmentRoom(htype, cidSz, maxFrag) > 0
    requires |body| <= MAX_SAFE_FRAGMENTS * T.FragmentRoom(htype, cidSz, maxFrag)
    ensures |FullCut(htype, body, cidSz, maxFrag)| - 1 <= MAX_SAFE_FRAGMENTS
  {
    if !T.FitsWhole(htype, body, cidSz, maxFrag) {
      GridShort(0, |body|, T.FragmentRoom(htype, cidSz, maxFrag), MAX_SAFE_FRAGMENTS);
    }
  }

  lemma SentOnGrid(t: T.Tx, htype: byte, body: seq<byte>, cidSz: nat, maxFrag: nat, bufferAlloc: bool,
                   outs: seq<T.Out>, msgs: seq<Message>, cuts: seq<nat>)
    requires T.TxOK(t) && t.frag == T.Idle && T.FragmentRoom(htype, cidSz, maxFrag) > 0
    requires SentMessages(t, htype, body, cidSz, maxFrag, bufferAlloc, outs, msgs) ==
             msgs + [Message(t.num, htype, body, cuts)]
    ensures cuts <= FullCut(htype, body, cidSz, maxFrag)
  {
    var t1 := WithTopEpoch(t);
    var msgs' := SentMessages(t, htype, body, cidSz, maxFrag, bufferAlloc, outs, msgs);
    assert msgs'[|msgs|].cuts == cuts;
    if !T.FitsWhole(htype, body, cidSz, maxFrag) {
      CutsOnGrid(t1.(frag := T.Sending(htype, body, 0)), T.FragmentRoom(htype, cidSz, maxFrag), outs, 0, [0]);
    }
  }

  // ---------- the two messages ----------

  /** From the start, a message is left behind: some of it came into records, but its number is not used up. */
  ghost predicate LeavesBehind(s: Sys, a: Step)
  {
    && Init(s) && SysOK(s) && a.Send? && Enabled(s, a) && a.htype < NO_SHAKE && NoneHeld(a.outs)
    && var s1 := Apply(s, a);
      s1.msgs != [] && s1.tx.frag == T.Idle && s1.tx.num == s.start
  }

  /** How much of it came into records. */
  ghost function LeftAt(s: Sys, a: Step): nat
    requires LeavesBehind(s, a)
  {
    var m := Apply(s, a).msgs[0];
    if m.cuts == [] then 0 else CutTo(m)
  }

  /** The next message is sent without trouble, with the same record size. */
  ghost predicate SendsNext(s: Sys, a: Step, b: Step)
    requires LeavesBehind(s, a)
  {
    var s1 := Apply(s, a);
    && b.Send? && Enabled(s1, b) && b.bufferAlloc && b.htype < NO_SHAKE && NoneHeld(b.outs)
    && b.cidSz == a.cidSz && b.maxFrag == a.maxFrag
    && s1.tx.top in s1.tx.link.next && GoesSmoothly(s1.tx, b.htype, b.body, b.outs)
  }

  /** Both messages are at most four fragments long. */
  ghost predicate BothShort(a: Step, b: Step)
    requires a.Send? && b.Send?
  {
    && |a.body| <= MAX_SAFE_FRAGMENTS * T.FragmentRoom(a.htype, a.cidSz, a.maxFrag)
    && |b.body| <= MAX_SAFE_FRAGMENTS * T.FragmentRoom(b.htype, b.cidSz, b.maxFrag)
  }

  /** The records of both messages are on the wire, those of the first in front. */
  ghost predicate BothOnWire(s: Sys, epoch: word64, a: Step, b: Step, front: seq<nat>, full: seq<nat>)
    requires a.Send? && b.Send?
  {
    && SysOK(s) && s.start + 1 < 0x1_0000 && a.htype < NO_SHAKE && b.htype < NO_SHAKE
    && s.msgs == [Message(s.start, a.htype, a.body, front), Message(s.start, b.htype, b.body, full)]
    && s.rx == R.Rx(s.start, true, [], s.start, []) && s.tx.frag == T.Idle && s.tx.num == s.start + 1
    && |front| >= 2 && |full| >= 2 && full[|full| - 1] == |b.body| && |s.tx.link.wire| == |front| - 1 + |full| - 1
    && FragmentsAt(s.tx.link.wire, 0, Id(epoch, s.start, a.htype), a.body, front)
    && FragmentsAt(s.tx.link.wire, |front| - 1, Id(epoch, s.start, b.htype), b.body, full)
  }

  lemma LeftStarts(s: Sys, a: Step)
    requires LeavesBehind(s, a)
    ensures Starts(s.tx, a.htype, a.body, a.cidSz, a.maxFrag, a.bufferAlloc)
    ensures Apply(s, a).msgs ==
            SentMessages(s.tx, a.htype, a.body, a.cidSz, a.maxFrag, a.bufferAlloc, a.outs, s.msgs)
  {
  }

  lemma FirstOnWire(s: Sys, a: Step) returns (s1: Sys, front: seq<nat>)
    requires LeavesBehind(s, a)
    ensures s1 == Apply(s, a) && SysOK(s1) && s1.msgs == [Message(s.start, a.htype, a.body, front)] && |front| >= 2
    ensures s1.tx.top == s.tx.top && front[|front| - 1] == LeftAt(s, a) && s1.rx == s.rx && s1.start == s.start
    ensures |s1.tx.link.wire| == |front| - 1
    ensures FragmentsAt(s1.tx.link.wire, 0, Id(s.tx.top, s.start, a.htype), a.body, front)
    ensures front <= FullCut(a.htype, a.body, a.cidSz, a.maxFrag)
  {
    var t1;
    LeftStarts(s, a);
    t1, front := SentOnWire(s.tx, a.htype, a.body, a.cidSz, a.maxFrag, a.bufferAlloc, a.outs, s.msgs);
    SentOnGrid(s.tx, a.htype, a.body, a.cidSz, a.maxFrag, a.bufferAlloc, a.outs, s.msgs, front);
    s1 := Apply(s, a);
    StepKeepsSys(s, a);
  }

  lemma SecondOnWire(s: Sys, a: Step, b: Step, s1: Sys, front: seq<nat>) returns (s2: Sys, full: seq<nat>)
    requires LeavesBehind(s, a) && SendsNext(s, a, b) && s1 == Apply(s, a) && SysOK(s1)
    requires s1.msgs == [Message(s.start, a.htype, a.body, front)] && |front| >= 2 && s1.start == s.start
    requires s1.rx == s.rx && s1.tx.top == s.tx.top && |s1.tx.link.wire| == |front| - 1
    requires FragmentsAt(s1.tx.link.wire, 0, Id(s.tx.top, s.start, a.htype), a.body, front)
    ensures s2 == Apply(s1, b) && BothOnWire(s2, s.tx.top, a, b, front, full)
    ensures full <= FullCut(b.htype, b.body, b.cidSz, b.maxFrag)
  {
    s2, full := NextOnWire(s1, b);
    SentOnGrid(s1.tx, b.htype, b.body, b.cidSz, b.maxFrag, b.bufferAlloc, b.outs, s1.msgs, full);
    StillAt(s1.tx.link.wire, s2.tx.link.wire, Id(s.tx.top, s.start, a.htype), a.body, front);
  }

  lemma StillAt(wire: seq<T.Emitted>, wire': seq<T.Emitted>, id: Id, body: seq<byte>, cuts: seq<nat>)
    requires id.htype < NO_SHAKE && id.num < 0x1_0000 && cuts != [] && |cuts| - 1 <= |wire| <= |wire'|
    requires FragmentsAt(wire, 0, id, body, cuts) && forall i :: 0 <= i < |wire| ==> wire'[i] == wire[i]
    ensures FragmentsAt(wire', 0, id, body, cuts)
  {
    forall i: nat | i + 1 < |cuts|
      ensures FragmentAt(wire', 0, id, body, cuts, i)
    {
      assert FragmentAt(wire, 0, id, body, cuts, i);
    }
  }

  // ---------- deliveries ----------

  ghost predicate OnlyDeliveries(steps: seq<Step>)
  {
    forall i :: 0 <= i < |steps| ==> steps[i].Deliver?
  }

  /** The two steps deliver equal records to equal environments. */
  ghost predicate SameRecord(wire: seq<T.Emitted>, step: Step, wire': seq<T.Emitted>, step': Step)
  {
    && step.Deliver? && step'.Deliver? && step.env == step'.env && step'.k < |wire'|
    && (step.k < |wire| ==> wire[step.k] == wire'[step'.k])
  }

  ghost predicate Alike(wire: seq<T.Emitted>, steps: seq<Step>, wire': seq<T.Emitted>, steps': seq<Step>)
  {
    |steps| == |steps'| && forall i :: 0 <= i < |steps| ==> SameRecord(wire, steps[i], wire', steps'[i])
  }

  lemma AlikeTail(wire: seq<T.Emitted>, steps: seq<Step>, wire': seq<T.Emitted>, steps': seq<Step>)
    requires Alike(wire, steps, wire', steps') && steps != []
    ensures SameRecord(wire, steps[0], wire', steps'[0]) && Alike(wire, steps[1..], wire', steps'[1..])
  {
  }

  /** The receiver sees nothing but the records. */
  lemma {:induction false} SameDeliveries(s: Sys, steps: seq<Step>, s': Sys, steps': seq<Step>)
    requires SysOK(s) && SysOK(s') && EnabledRun(s, steps) && s.rx == s'.rx
    requires Alike(s.tx.link.wire, steps, s'.tx.link.wire, steps')
    ensures EnabledRun(s', steps') && Reach(s', steps').rx == Reach(s, steps).rx
    decreases |steps|
  {
    if steps != [] {
      AlikeTail(s.tx.link.wire, steps, s'.tx.link.wire, steps');
      var s1 := DeliverIs(s, steps[0]);
      var s1' := DeliverIs(s', steps'[0]);
      SameDeliveries(s1, steps[1..], s1', steps'[1..]);
    }
  }

  // ---------- pairs that are safe ----------

  /** Message A was left at the given place. */
  predicate Harmless(a: Step, b: Step, at: nat)
    requires a.Send? && b.Send? && at <= |a.body|
  {
    if a.htype == b.htype && |a.body| == |b.body| then a.body[..at] == b.body[..at] else at < |a.body|
  }

  /** The state in which nothing but the second message was ever sent. */
  function OnlySecond(s: Sys, b: Step, full: seq<nat>): Sys
    requires b.Send? && s.start < 0x1_0000
  {
    s.(tx := s.tx.(recs := []), msgs := [Message(s.start, b.htype, b.body, full)])
  }

  lemma SameFragment(htype: byte, a: seq<byte>, b: seq<byte>, num: word16, off: nat, len: nat, at: nat)
    requires |a| == |b| && off + len <= at <= |a| && a[..at] == b[..at]
    ensures T.FragmentBytes(htype, a, num, off, len) == T.FragmentBytes(htype, b, num, off, len)
  {
    assert a[off..off + len] == a[..at][off..off + len];
    assert b[off..off + len] == b[..at][off..off + len];
  }

  /** Every record carries a fragment of the second message, when the front of the first is that of the second. */
  lemma AllOfSecond(wire: seq<T.Emitted>, id: Id, a: seq<byte>, b: seq<byte>, front: seq<nat>, full: seq<nat>, i: nat)
    requires id.htype < NO_SHAKE && id.num < 0x1_0000 && 2 <= |front| && front <= full
    requires i < |wire| == |front| - 1 + |full| - 1
    requires FragmentsAt(wire, 0, id, a, front) && FragmentsAt(wire, |front| - 1, id, b, full)
    requires var at := front[|front| - 1]; at <= |a| == |b| && a[..at] == b[..at]
    requires CutSoFar(Message(id.num, id.htype, a, front))
    ensures Carried(wire[i].payload, [Message(id.num, id.htype, b, full)])
  {
    var msgs := [Message(id.num, id.htype, b, full)];
    if i < |front| - 1 {
      assert FragmentAt(wire, 0, id, a, front, i);
      assert front[i] == full[i] && front[i + 1] == full[i + 1];
      assert i + 1 < |front| - 1 ==> InOrder(front, i + 1, |front| - 1);
      SameFragment(id.htype, a, b, id.num, front[i], front[i + 1] - front[i], front[|front| - 1]);
      assert IsFragment(wire[i].payload, msgs, 0, i);
    } else {
      var j := i - (|front| - 1);
      assert FragmentAt(wire, |front| - 1, id, b, full, j);
      assert IsFragment(wire[i].payload, msgs, 0, j);
    }
  }

  lemma OnlySecondOK(s: Sys, epoch: word64, a: Step, b: Step, front: seq<nat>, full: seq<nat>)
    requires a.Send? && b.Send? && BothOnWire(s, epoch, a, b, front, full) && front <= full
    requires a.htype == b.htype && |a.body| == |b.body|
    requires var at := front[|front| - 1]; at <= |a.body| && a.body[..at] == b.body[..at]
    ensures Inv(OnlySecond(s, b, full)) && SysOK(OnlySecond(s, b, full))
  {
    var s' := OnlySecond(s, b, full);
    assert CutSoFar(s.msgs[0]) && CutSoFar(s.msgs[1]);
    forall i | 0 <= i < |s'.tx.link.wire|
      ensures Carried(s'.tx.link.wire[i].payload, s'.msgs)
    {
      AllOfSecond(s.tx.link.wire, Id(epoch, s.start, b.htype), a.body, b.body, front, full, i);
    }
  }

  /** The front of the first message is that of the second: all runs are runs of the second message alone. */
  lemma SameFrontSafe(s: Sys, epoch: word64, a: Step, b: Step, front: seq<nat>, full: seq<nat>, steps: seq<Step>)
    requires a.Send? && b.Send? && BothOnWire(s, epoch, a, b, front, full) && front <= full
    requires |full| - 1 <= MAX_SAFE_FRAGMENTS && a.htype == b.htype && |a.body| == |b.body|
    requires var at := front[|front| - 1]; at <= |a.body| && a.body[..at] == b.body[..at]
    requires EnabledRun(s, steps) && OnlyDeliveries(steps)
    ensures NothingElse(Reach(s, steps).rx.log, Sent(s, b))
  {
    var s' := OnlySecond(s, b, full);
    OnlySecondOK(s, epoch, a, b, front, full);
    DeliveriesEnabled(s, steps);
    SameDeliveries(s, steps, s', steps);
    DeliveriesSafe(s', steps);
    OnlyOneSent(Reach(s', steps).rx.log, s'.msgs, s.start, 0);
  }

  lemma {:induction false} DeliveriesEnabled(s: Sys, steps: seq<Step>)
    requires SysOK(s) && EnabledRun(s, steps) && OnlyDeliveries(steps)
    ensures forall i :: 0 <= i < |steps| ==> steps[i].k < |s.tx.link.wire|
    decreases |steps|
  {
    if steps != [] {
      var s1 := DeliverIs(s, steps[0]);
      DeliveriesEnabled(s1, steps[1..]);
      assert forall i :: 1 <= i < |steps| ==> steps[i] == steps[1..][i - 1];
    }
  }

  /** The receiver can tell the two apart, and the first never gets complete. */
  lemma ToldApartSafe(s: Sys, a: Message, b: Step, full: seq<nat>, steps: seq<Step>)
    requires b.Send? && s.start < 0x1_0000 && Inv(s) && SysOK(s) && AllShort(s.msgs)
    requires s.msgs == [a, Message(s.start, b.htype, b.body, full)] && !Whole(a)
    requires EnabledRun(s, steps) && OnlyDeliveries(steps)
    ensures NothingElse(Reach(s, steps).rx.log, Sent(s, b))
  {
    DeliveriesSafe(s, steps);
    OnlyOneSent(Reach(s, steps).rx.log, s.msgs, s.start, 1);
  }

  // ---------- pairs that are not ----------

  /** The records at the places in pick carry the message, in order. */
  ghost predicate Picks(wire: seq<T.Emitted>, pick: seq<nat>, id: Id, body: seq<byte>, cuts: seq<nat>)
    requires id.htype < NO_SHAKE && id.num < 0x1_0000
  {
    && cuts != [] && |pick| == |cuts| - 1 && Rising(pick) && (forall i :: 0 <= i < |pick| ==> pick[i] < |wire|)
    && forall i: nat :: i < |pick| ==> CarriesFragment(wire[pick[i]], id, body, cuts, i)
  }

  /** The state in which nothing but the picked records was ever sent. */
  function OnlyPicked(s: Sys, pick: seq<nat>, id: Id, body: seq<byte>, cuts: seq<nat>): Sys
    requires id.htype < NO_SHAKE && id.num < 0x1_0000 && forall i :: 0 <= i < |pick| ==> pick[i] < |s.tx.link.wire|
  {
    var wire := seq(|pick|, i requires 0 <= i < |pick| => s.tx.link.wire[pick[i]]);
    s.(tx := s.tx.(recs := [], link := s.tx.link.(wire := wire)), msgs := [Message(id.num, id.htype, body, cuts)])
  }

  lemma PickedOK(s: Sys, pick: seq<nat>, id: Id, body: seq<byte>, cuts: seq<nat>)
    requires id.htype < NO_SHAKE && id.num == s.start && id.num + 1 < 0x1_0000 && |body| < 0x1_0000
    requires SysOK(s) && s.tx.frag == T.Idle && s.rx == R.Rx(s.start, true, [], s.start, [])
    requires Cut(cuts, |body|) && Picks(s.tx.link.wire, pick, id, body, cuts)
    ensures var s' := OnlyPicked(s, pick, id, body, cuts); SysOK(s') && OnWire(s', id, body, cuts)
  {
    var s' := OnlyPicked(s, pick, id, body, cuts);
    PickedCarried(s.tx.link.wire, s'.tx.link.wire, pick, id, body, cuts);
    PickedNumbers(s.tx.link, s.tx.recs, pick, s'.tx.link.wire);
    assert CutSoFar(s'.msgs[0]);
  }

  lemma PickedCarried(wire: seq<T.Emitted>, picked: seq<T.Emitted>, pick: seq<nat>, id: Id, body: seq<byte>,
                      cuts: seq<nat>)
    requires id.htype < NO_SHAKE && id.num < 0x1_0000 && Picks(wire, pick, id, body, cuts) && |picked| == |pick|
    requires forall i :: 0 <= i < |pick| ==> picked[i] == wire[pick[i]]
    ensures forall i :: 0 <= i < |picked| ==> Carried(picked[i].payload, [Message(id.num, id.htype, body, cuts)])
    ensures FragmentsAt(picked, 0, id, body, cuts)
  {
    forall i: nat | i < |picked|
      ensures Carried(picked[i].payload, [Message(id.num, id.htype, body, cuts)])
      ensures FragmentAt(picked, 0, id, body, cuts, i)
    {
      assert CarriesFragment(wire[pick[i]], id, body, cuts, i);
      assert IsFragment(picked[i].payload, [Message(id.num, id.htype, body, cuts)], 0, i);
    }
  }

  lemma PickedNumbers(l: T.Link, recs: seq<Rec>, pick: seq<nat>, wire: seq<T.Emitted>)
    requires TP.NumbersOK(l, recs) && Rising(pick) && |wire| == |pick|
    requires forall i :: 0 <= i < |pick| ==> pick[i] < |l.wire| && wire[i] == l.wire[pick[i]]
    ensures TP.NumbersOK(l.(wire := wire), [])
  {
    var l' := l.(wire := wire);
    assert forall rn :: TP.Used(l', rn) <==> TP.Used(l, rn);
    forall i, j | 0 <= i < j < |wire| && !l.wrapped
      ensures wire[i].rn != wire[j].rn
    {
      assert InOrder(pick, i, j);
    }
  }

  /** Each fragment arrives once, in order. */
  function InTurn(n: nat, junk: Junk): seq<Arrival>
  {
    seq(n, i requires 0 <= i < n => Arrival(i, true, junk))
  }

  lemma InTurnCounted(id: Id, body: seq<byte>, cuts: seq<nat>, junk: Junk)
    requires Cut(cuts, |body|) && |cuts| - 1 <= MAX_SAFE_FRAGMENTS && |body| < 0x1_0000
    requires id.htype < NO_SHAKE && id.num + 1 < 0x1_0000
    ensures Arriving(id, body, cuts, InTurn(|cuts| - 1, junk))
    ensures RxAfter(id, body, cuts, InTurn(|cuts| - 1, junk)).log == [R.Accepted(id.num, id.htype, body)]
  {
    var arrivals := InTurn(|cuts| - 1, junk);
    ShortCutReady(id, body, cuts, arrivals);
    forall f: nat | f + 1 < |cuts|
      ensures Arrived(arrivals, f)
    {
      assert arrivals[f].index == f;
    }
  }

  /** A message that can be read off the wire, in whatever records, can be made the one the receiver counts. */
  lemma PickedCounted(s: Sys, pick: seq<nat>, id: Id, body: seq<byte>, cuts: seq<nat>, junk: Junk)
    returns (steps: seq<Step>)
    requires id.htype < NO_SHAKE && id.num == s.start && id.num + 1 < 0x1_0000 && |body| < 0x1_0000
    requires SysOK(s) && s.tx.frag == T.Idle && s.rx == R.Rx(s.start, true, [], s.start, [])
    requires Cut(cuts, |body|) && |cuts| - 1 <= MAX_SAFE_FRAGMENTS && Picks(s.tx.link.wire, pick, id, body, cuts)
    ensures EnabledRun(s, steps) && OnlyDeliveries(steps)
    ensures Reach(s, steps).rx.log == [R.Accepted(id.num, id.htype, body)]
  {
    var s', arrivals := OnlyPicked(s, pick, id, body, cuts), InTurn(|pick|, junk);
    PickedOK(s, pick, id, body, cuts);
    InTurnCounted(id, body, cuts, junk);
    ArrivalsAreARun(s', id, body, cuts, arrivals);
    steps := PickedSteps(s.tx.link.wire, s'.tx.link.wire, pick, arrivals);
    SameDeliveries(s', Deliveries(arrivals), s, steps);
  }

  lemma PickedSteps(wire: seq<T.Emitted>, picked: seq<T.Emitted>, pick: seq<nat>, arrivals: seq<Arrival>)
    returns (steps: seq<Step>)
    requires |arrivals| == |pick| == |picked| && forall i :: 0 <= i < |pick| ==> arrivals[i].index == i
    requires forall i :: 0 <= i < |pick| ==> pick[i] < |wire| && picked[i] == wire[pick[i]]
    ensures Alike(picked, Deliveries(arrivals), wire, steps) && OnlyDeliveries(steps)
  {
    steps := seq(|pick|, i requires 0 <= i < |pick| => Step.Deliver(pick[i], Willing(arrivals[i])));
  }

  /** The front of one message and the rest of another. */
  function Mixed(a: seq<byte>, b: seq<byte>, at: nat): seq<byte>
    requires at <= |a| == |b|
  {
    a[..at] + b[at..]
  }

  lemma SameRest(htype: byte, a: seq<byte>, b: seq<byte>, num: word16, off: nat, len: nat, at: nat)
    requires at <= off && off + len <= |a| == |b|
    ensures T.FragmentBytes(htype, b, num, off, len) == T.FragmentBytes(htype, Mixed(a, b, at), num, off, len)
  {
    assert b[off..off + len] == Mixed(a, b, at)[off..off + len];
  }

  /** The records of the first message, and those of the second that lie behind them. */
  function MixedPick(n: nat, m: nat): seq<nat>
    requires n <= m
  {
    seq(m, i requires 0 <= i < m => if i < n then i else n + i)
  }

  lemma MixedPicked(wire: seq<T.Emitted>, id: Id, a: seq<byte>, b: seq<byte>, front: seq<nat>, full: seq<nat>, i: nat)
    requires id.htype < NO_SHAKE && id.num < 0x1_0000 && 2 <= |front| && front <= full && Cut(full, |b|)
    requires |wire| == |front| - 1 + |full| - 1 && |a| == |b|
    requires FragmentsAt(wire, 0, id, a, front) && FragmentsAt(wire, |front| - 1, id, b, full)
    requires i < |full| - 1 && front[|front| - 1] <= |a|
    ensures
      var at := front[|front| - 1];
      CarriesFragment(wire[MixedPick(|front| - 1, |full| - 1)[i]], id, Mixed(a, b, at), full, i)
  {
    var at := front[|front| - 1];
    CutRises(full, |b|);
    assert at == full[|front| - 1];
    if i < |front| - 1 {
      assert FragmentAt(wire, 0, id, a, front, i);
      assert front[i] == full[i] && front[i + 1] == full[i + 1] <= at;
      FrontCarried(wire[i], id, a, b, full, i, at);
    } else {
      assert FragmentAt(wire, |front| - 1, id, b, full, i);
      assert at <= full[i];
      RestCarried(wire[|front| - 1 + i], id, a, b, full, i, at);
    }
  }

  lemma FrontCarried(e: T.Emitted, id: Id, a: seq<byte>, b: seq<byte>, cuts: seq<nat>, i: nat, at: nat)
    requires id.htype < NO_SHAKE && id.num < 0x1_0000 && i + 1 < |cuts| && cuts[i + 1] <= at <= |a| == |b|
    requires CarriesFragment(e, id, a, cuts, i)
    ensures CarriesFragment(e, id, Mixed(a, b, at), cuts, i)
  {
    assert Mixed(a, b, at)[..at] == a[..at];
    SameFragment(id.htype, a, Mixed(a, b, at), id.num, cuts[i], cuts[i + 1] - cuts[i], at);
  }

  lemma RestCarried(e: T.Emitted, id: Id, a: seq<byte>, b: seq<byte>, cuts: seq<nat>, i: nat, at: nat)
    requires id.htype < NO_SHAKE && id.num < 0x1_0000 && i + 1 < |cuts| && at <= cuts[i] && |a| == |b|
    requires CarriesFragment(e, id, b, cuts, i)
    ensures CarriesFragment(e, id, Mixed(a, b, at), cuts, i)
  {
    SameRest(id.htype, a, b, id.num, cuts[i], cuts[i + 1] - cuts[i], at);
  }

  lemma MixedPicks(wire: seq<T.Emitted>, id: Id, a: seq<byte>, b: seq<byte>, front: seq<nat>, full: seq<nat>)
    requires id.htype < NO_SHAKE && id.num < 0x1_0000 && 2 <= |front| && front <= full && Cut(full, |b|)
    requires |wire| == |front| - 1 + |full| - 1 && |a| == |b| && front[|front| - 1] <= |a|
    requires FragmentsAt(wire, 0, id, a, front) && FragmentsAt(wire, |front| - 1, id, b, full)
    ensures Picks(wire, MixedPick(|front| - 1, |full| - 1), id, Mixed(a, b, front[|front| - 1]), full)
  {
    var pick := MixedPick(|front| - 1, |full| - 1);
    forall i, j | 0 <= i < j < |pick|
      ensures InOrder(pick, i, j)
    {
    }
    forall i: nat | i < |pick|
      ensures CarriesFragment(wire[pick[i]], id, Mixed(a, b, front[|front| - 1]), full, i)
    {
      MixedPicked(wire, id, a, b, front, full, i);
    }
  }

  lemma FirstPicks(wire: seq<T.Emitted>, id: Id, a: seq<byte>, front: seq<nat>)
    requires id.htype < NO_SHAKE && id.num < 0x1_0000 && 2 <= |front| && |front| - 1 <= |wire|
    requires FragmentsAt(wire, 0, id, a, front)
    ensures Picks(wire, MixedPick(|front| - 1, |front| - 1), id, a, front)
  {
    var pick := MixedPick(|front| - 1, |front| - 1);
    forall i, j | 0 <= i < j < |pick|
      ensures InOrder(pick, i, j)
    {
    }
    forall i: nat | i < |pick|
      ensures CarriesFragment(wire[pick[i]], id, a, front, i)
    {
      assert FragmentAt(wire, 0, id, a, front, i);
    }
  }

  /** What the receiver can be made to count instead of the second message. */
  function Wrong(a: Step, b: Step, at: nat): seq<byte>
    requires a.Send? && b.Send? && at <= |a.body|
  {
    if a.htype == b.htype && |a.body| == |b.body| then Mixed(a.body, b.body, at) else a.body
  }

  lemma WrongDiffers(a: Step, b: Step, at: nat)
    requires a.Send? && b.Send? && at <= |a.body| && !Harmless(a, b, at)
    ensures a.htype != b.htype || Wrong(a, b, at) != b.body
  {
    if a.htype == b.htype && |a.body| == |b.body| {
      assert Mixed(a.body, b.body, at)[..at] == a.body[..at];
    }
  }

  // ---------- the exact condition ----------

  /** A run that sends the two messages and then only delivers. */
  ghost predicate TwoMessageRun(s: Sys, a: Step, b: Step, steps: seq<Step>)
    requires SysOK(s)
  {
    |steps| >= 2 && steps[0] == a && steps[1] == b && EnabledRun(s, steps) && OnlyDeliveries(steps[2..])
  }

  lemma AfterBoth(s: Sys, a: Step, b: Step, steps: seq<Step>, s1: Sys, s2: Sys)
    requires SysOK(s) && TwoMessageRun(s, a, b, steps)
    requires s1 == Apply(s, a) && SysOK(s1) && Enabled(s1, b) && s2 == Apply(s1, b) && SysOK(s2)
    ensures EnabledRun(s2, steps[2..]) && Reach(s2, steps[2..]) == Reach(s, steps)
  {
    assert steps[1..][0] == b && steps[1..][1..] == steps[2..];
    assert EnabledRun(s1, steps[1..]);
  }

  /** Everything the proofs need to know about the two messages on the wire. */
  lemma BothSent(s: Sys, a: Step, b: Step) returns (s1: Sys, s2: Sys, front: seq<nat>, full: seq<nat>)
    requires LeavesBehind(s, a) && SendsNext(s, a, b) && BothShort(a, b)
    ensures s1 == Apply(s, a) && SysOK(s1) && s2 == Apply(s1, b) && BothOnWire(s2, s.tx.top, a, b, front, full)
    ensures s2.start == s.start && s1.start == s.start && s1.tx.num == s.start
    ensures s1.msgs == [Message(s.start, a.htype, a.body, front)]
    ensures front[|front| - 1] == LeftAt(s, a) <= |a.body| && |full| - 1 <= MAX_SAFE_FRAGMENTS
    ensures if LeftAt(s, a) < |a.body| then |front| <= MAX_SAFE_FRAGMENTS else |front| - 1 <= MAX_SAFE_FRAGMENTS
    ensures a.htype == b.htype && |a.body| == |b.body| ==> front <= full
    ensures Cut(full, |b.body|) && (LeftAt(s, a) == |a.body| ==> Cut(front, |a.body|))
  {
    s1, front := FirstOnWire(s, a);
    s2, full := SecondOnWire(s, a, b, s1, front);
    BothCuts(s2.msgs, a, b, front, full, s.start);
  }

  lemma BothCuts(msgs: seq<Message>, a: Step, b: Step, front: seq<nat>, full: seq<nat>, num: word16)
    requires a.Send? && b.Send? && a.cidSz == b.cidSz && a.maxFrag == b.maxFrag && AllCut(msgs)
    requires T.FragmentRoom(a.htype, a.cidSz, a.maxFrag) > 0 && T.FragmentRoom(b.htype, b.cidSz, b.maxFrag) > 0
    requires BothShort(a, b) && |front| >= 2 && |full| >= 2 && full[|full| - 1] == |b.body|
    requires msgs == [Message(num, a.htype, a.body, front), Message(num, b.htype, b.body, full)]
    requires front <= FullCut(a.htype, a.body, a.cidSz, a.maxFrag)
    requires full <= FullCut(b.htype, b.body, b.cidSz, b.maxFrag)
    ensures front[|front| - 1] <= |a.body| && |full| - 1 <= MAX_SAFE_FRAGMENTS
    ensures if front[|front| - 1] < |a.body| then |front| <= MAX_SAFE_FRAGMENTS else |front| - 1 <= MAX_SAFE_FRAGMENTS
    ensures a.htype == b.htype && |a.body| == |b.body| ==> front <= full
    ensures Cut(full, |b.body|) && (front[|front| - 1] == |a.body| ==> Cut(front, |a.body|))
  {
    assert CutSoFar(msgs[0]) && CutSoFar(msgs[1]);
    AsCutIsCut(msgs[0]);
    AsCutIsCut(msgs[1]);
    FullCutEnds(a.htype, a.body, a.cidSz, a.maxFrag, front);
    FullCutEnds(b.htype, b.body, b.cidSz, b.maxFrag, full);
    FullCutShort(a.htype, a.body, a.cidSz, a.maxFrag);
    FullCutShort(b.htype, b.body, b.cidSz, b.maxFrag);
  }

  lemma ToldApartInv(s: Sys, a: Step, b: Step, s1: Sys, s2: Sys)
    requires LeavesBehind(s, a) && s1 == Apply(s, a) && SysOK(s1) && b.Send? && Enabled(s1, b) && s2 == Apply(s1, b)
    requires |s1.msgs| == 1 && s1.msgs[0].htype == a.htype && s1.msgs[0].body == a.body
    requires a.htype != b.htype || |a.body| != |b.body|
    ensures Inv(s2)
  {
    InitInv(s);
    StepInv(s, a);
    StepInv(s1, b);
  }

  lemma SafeFrom(s2: Sys, epoch: word64, a: Step, b: Step, front: seq<nat>, full: seq<nat>, steps: seq<Step>)
    requires a.Send? && b.Send? && BothOnWire(s2, epoch, a, b, front, full) && |full| - 1 <= MAX_SAFE_FRAGMENTS
    requires front[|front| - 1] <= |a.body| && Harmless(a, b, front[|front| - 1])
    requires if a.htype == b.htype && |a.body| == |b.body| then front <= full
             else Inv(s2) && |front| <= MAX_SAFE_FRAGMENTS
    requires EnabledRun(s2, steps) && OnlyDeliveries(steps)
    ensures NothingElse(Reach(s2, steps).rx.log, Sent(s2, b))
  {
    if a.htype == b.htype && |a.body| == |b.body| {
      SameFrontSafe(s2, epoch, a, b, front, full, steps);
    } else {
      ToldApartSafe(s2, s2.msgs[0], b, full, steps);
    }
  }

  lemma LeftBehindSafe(s: Sys, a: Step, b: Step, steps: seq<Step>)
    requires LeavesBehind(s, a) && SendsNext(s, a, b) && BothShort(a, b)
    requires LeftAt(s, a) <= |a.body| && Harmless(a, b, LeftAt(s, a)) && TwoMessageRun(s, a, b, steps)
    ensures NothingElse(Reach(s, steps).rx.log, Sent(s, b))
  {
    var s1, s2, front, full := BothSent(s, a, b);
    AfterBoth(s, a, b, steps, s1, s2);
    if a.htype != b.htype || |a.body| != |b.body| {
      ToldApartInv(s, a, b, s1, s2);
    }
    SafeFrom(s2, s.tx.top, a, b, front, full, steps[2..]);
  }

  lemma BreaksFrom(s2: Sys, epoch: word64, a: Step, b: Step, front: seq<nat>, full: seq<nat>, junk: Junk)
    returns (steps: seq<Step>)
    requires a.Send? && b.Send? && BothOnWire(s2, epoch, a, b, front, full) && |full| - 1 <= MAX_SAFE_FRAGMENTS
    requires |a.body| < 0x1_0000 && front[|front| - 1] <= |a.body| && !Harmless(a, b, front[|front| - 1])
    requires a.htype == b.htype && |a.body| == |b.body| ==> front <= full
    requires Cut(full, |b.body|)
    requires front[|front| - 1] == |a.body| ==> Cut(front, |a.body|) && |front| - 1 <= MAX_SAFE_FRAGMENTS
    ensures EnabledRun(s2, steps) && OnlyDeliveries(steps)
    ensures Reach(s2, steps).rx.log == [R.Accepted(s2.start, a.htype, Wrong(a, b, front[|front| - 1]))]
  {
    var id := Id(epoch, s2.start, a.htype);
    if a.htype == b.htype && |a.body| == |b.body| {
      MixedPicks(s2.tx.link.wire, id, a.body, b.body, front, full);
      steps := PickedCounted(s2, MixedPick(|front| - 1, |full| - 1), id,
                             Mixed(a.body, b.body, front[|front| - 1]), full, junk);
    } else {
      FirstPicks(s2.tx.link.wire, id, a.body, front);
      steps := PickedCounted(s2, MixedPick(|front| - 1, |front| - 1), id, a.body, front, junk);
    }
  }

  /**
   Some run makes the receiver count something else under the number of the second message: the front of the first
   one with the rest of the second, or all of the first.
   */
  lemma LeftBehindBreaks(s: Sys, a: Step, b: Step, junk: Junk) returns (steps: seq<Step>)
    requires LeavesBehind(s, a) && SendsNext(s, a, b) && BothShort(a, b)
    requires LeftAt(s, a) <= |a.body| && !Harmless(a, b, LeftAt(s, a))
    ensures TwoMessageRun(s, a, b, steps)
    ensures Reach(s, steps).rx.log == [R.Accepted(s.start, a.htype, Wrong(a, b, LeftAt(s, a)))]
    ensures Wrong(a, b, LeftAt(s, a)) != b.body || a.htype != b.htype
  {
    var s1, s2, front, full := BothSent(s, a, b);
    var tail := BreaksFrom(s2, s.tx.top, a, b, front, full, junk);
    RunFrom(s1, b, tail, Reach(s2, tail));
    RunFrom(s, a, [b] + tail, Reach(s2, tail));
    steps := [a] + ([b] + tail);
    assert steps[2..] == tail;
    WrongDiffers(a, b, LeftAt(s, a));
  }

  /**
   From the start, a message is left behind, and the next one, which gets the same number, is sent without trouble.
   In every run that then delivers their records in whatever way, the receiver counts nothing or the second message,
   if and only if: they have the same type and length, and the part of the first that came into records is the front
   of the second; or they differ in type or length, and the first did not come into records completely.
   */
  lemma NextMessageIffHarmless(s: Sys, a: Step, b: Step)
    requires LeavesBehind(s, a) && SendsNext(s, a, b) && BothShort(a, b)
    ensures LeftAt(s, a) <= |a.body|
    ensures
      (forall steps: seq<Step> :: TwoMessageRun(s, a, b, steps) ==> NothingElse(Reach(s, steps).rx.log, Sent(s, b)))
      <==> Harmless(a, b, LeftAt(s, a))
  {
    var s1, s2, front, full := BothSent(s, a, b);
    if Harmless(a, b, LeftAt(s, a)) {
      forall steps: seq<Step> | TwoMessageRun(s, a, b, steps)
        ensures NothingElse(Reach(s, steps).rx.log, Sent(s, b))
      {
        LeftBehindSafe(s, a, b, steps);
      }
    } else {
      var steps := LeftBehindBreaks(s, a, b, i => 0);
      assert !NothingElse(Reach(s, steps).rx.log, Sent(s, b));
    }
  }

  // ---------- how messages are left behind ----------

  /** What one call of the send function in the start state is given. */
  ghost predicate FirstSend(s: Sys, a: Step)
  {
    && Init(s) && SysOK(s) && a.Send? && Enabled(s, a) && a.bufferAlloc && a.htype < NO_SHAKE && NoneHeld(a.outs)
    && s.tx.top in s.tx.link.next && s.tx.link.next[s.tx.top] != TWO64 - 1
  }

  lemma OneSpanLeft(s: Sys, a: Step, t1: T.Tx, len: nat)
    requires FirstSend(s, a) && len <= |a.body|
    requires t1 == T.HandshakeSend(s.tx, a.htype, a.body, a.cidSz, a.maxFrag, true, a.outs).0
    requires t1.frag == T.Idle && t1.num == s.tx.num
    requires F.Emits(s.tx.link, t1.link, SM.Message(s.tx, a.htype, a.body), [F.Span(0, len)])
    ensures LeavesBehind(s, a) && LeftAt(s, a) == len
  {
    var t2, cuts := SentOnWire(s.tx, a.htype, a.body, a.cidSz, a.maxFrag, true, a.outs, s.msgs);
    assert |cuts| == 2 && FragmentAt(t1.link.wire, 0, Id(s.tx.top, s.start, a.htype), a.body, cuts, 0);
    assert F.Carries(t1.link.wire[0].payload, SM.Message(s.tx, a.htype, a.body), F.Span(0, len));
    assert Apply(s, a).msgs == [Message(s.start, a.htype, a.body, cuts)];
  }

  /** A blocked flush behind the first fragment: the caller is told WANT_WRITE, and the message is left there. */
  lemma GivenUpIsLeft(s: Sys, a: Step)
    requires FirstSend(s, a) && T.FragmentRoom(a.htype, a.cidSz, a.maxFrag) < |a.body|
    requires T.OutAt(a.outs, 0).room == T.Free && T.OutAt(a.outs, 0).alloc && T.OutAt(a.outs, 0).res == T.Sent
    requires T.OutAt(a.outs, 1).room == T.FlushBlocked
    ensures T.IsWantWrite(T.HandshakeSend(s.tx, a.htype, a.body, a.cidSz, a.maxFrag, true, a.outs).1)
    ensures LeavesBehind(s, a) && LeftAt(s, a) == T.FragmentRoom(a.htype, a.cidSz, a.maxFrag)
  {
    SM.WantWriteGivesUp(s.tx, a.htype, a.body, a.cidSz, a.maxFrag, a.outs);
    var t1 := T.HandshakeSend(s.tx, a.htype, a.body, a.cidSz, a.maxFrag, true, a.outs).0;
    OneSpanLeft(s, a, t1, T.FragmentRoom(a.htype, a.cidSz, a.maxFrag));
  }

  /** Sending fails with the only record in the output buffer: the caller is told so, and all of the message is left. */
  lemma FailedIsLeft(s: Sys, a: Step)
    requires FirstSend(s, a) && T.FitsWhole(a.htype, a.body, a.cidSz, a.maxFrag)
    requires T.OutAt(a.outs, 0).alloc && T.OutAt(a.outs, 0).res == T.FailedLate
    ensures T.HandshakeSend(s.tx, a.htype, a.body, a.cidSz, a.maxFrag, true, a.outs).1 == T.LateError
    ensures LeavesBehind(s, a) && LeftAt(s, a) == |a.body|
  {
    var t1 := SM.FailedGoesOut(s.tx, a.htype, a.body, a.cidSz, a.maxFrag, a.outs);
    OneSpanLeft(s, a, t1, |a.body|);
  }

  /** Behind a message that was reported as failed but went out, only the same message again is safe. */
  lemma FailedNextIffSame(s: Sys, a: Step, b: Step)
    requires LeavesBehind(s, a) && LeftAt(s, a) == |a.body| && SendsNext(s, a, b) && BothShort(a, b)
    ensures
      (forall steps: seq<Step> :: TwoMessageRun(s, a, b, steps) ==> NothingElse(Reach(s, steps).rx.log, Sent(s, b)))
      <==> a.htype == b.htype && a.body == b.body
  {
    NextMessageIffHarmless(s, a, b);
    assert a.body[..|a.body|] == a.body && b.body[..|b.body|] == b.body;
  }
}
