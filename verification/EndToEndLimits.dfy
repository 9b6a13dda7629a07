/**
 One message through the whole system: what the receiver counts is what the fragment store makes of the order of
 arrival.  So the end-to-end result is right for every order exactly for messages in at most four fragments.
 */
module EndToEndLimits {
  import opened Bytes
  import opened HandshakeHeader
  import opened Reassembly
  import opened FragmentCuts
  import opened EndToEnd
  import opened EndToEndSender
  import opened EndToEndReceiver
  import opened EndToEndAcks
  import T = SendPath
  import F = FragmenterProofs
  import SM = SendMessageProofs
  import R = Receiver

  // ---------- deliveries of one message ----------

  /** A receiver that has memory for entries, accepts fragments and whose handlers answer 0. */
  function Willing(a: Arrival): R.Env
  {
    R.Env(true, true, false, R.Accept, false, true, true, a.alloc, a.junk, [R.Done])
  }

  function Deliveries(arrivals: seq<Arrival>): seq<Step>
  {
    seq(|arrivals|, i requires 0 <= i < |arrivals| => Step.Deliver(arrivals[i].index, Willing(arrivals[i])))
  }

  /** Fragments of a message arrive, and memory does not run out. */
  ghost predicate Arriving(id: Id, body: seq<byte>, cuts: seq<nat>, arrivals: seq<Arrival>)
  {
    && Cut(cuts, |body|) && |body| < 0x1_0000
    && id.htype < NO_SHAKE && id.num + 1 < 0x1_0000
    && Arrivals(arrivals, cuts) && AllAllocated(arrivals)
  }

  /** The receiver after the arrivals: still with the stored message, or with its bytes counted. */
  ghost function RxAfter(id: Id, body: seq<byte>, cuts: seq<nat>, arrivals: seq<Arrival>): R.Rx
    requires Arriving(id, body, cuts, arrivals)
  {
    var m := FragmentCuts.Deliver(id, body, cuts, arrivals);
    if m.Ready() then R.Rx(id.num + 1, true, [], id.num, [R.Accepted(id.num, id.htype, m.full.value)])
    else R.Rx(id.num, true, if arrivals == [] then [] else [m], id.num, [])
  }

  lemma ArrivingBefore(id: Id, body: seq<byte>, cuts: seq<nat>, arrivals: seq<Arrival>)
    requires Arriving(id, body, cuts, arrivals) && arrivals != []
    ensures Arriving(id, body, cuts, arrivals[..|arrivals| - 1])
  {
  }

  /** Once something has arrived the stored message has its identity. */
  lemma Identified(id: Id, body: seq<byte>, cuts: seq<nat>, arrivals: seq<Arrival>)
    requires Arriving(id, body, cuts, arrivals) && arrivals != []
    ensures
      var m := FragmentCuts.Deliver(id, body, cuts, arrivals);
      m.epoch == id.epoch && m.num == id.num && m.htype == id.htype
  {
    var k := |arrivals| - 1;
    if k > 0 {
      ArrivingBefore(id, body, cuts, arrivals);
      Identified(id, body, cuts, arrivals[..k]);
    }
    var m := FragmentCuts.Deliver(id, body, cuts, arrivals[..k]);
    CutBounds(cuts, |body|, arrivals[k].index);
    assert FragmentCuts.Deliver(id, body, cuts, arrivals) == Arrive(m, id, body, cuts, arrivals[k]);
  }

  /** The header of fragment i. */
  function FragmentHeader(id: Id, body: seq<byte>, cuts: seq<nat>, i: nat): Header
    requires i + 1 < |cuts| && cuts[i] <= cuts[i + 1] && id.htype < NO_SHAKE && id.num < 0x1_0000
  {
    Header(id.htype, |body|, id.num, cuts[i], cuts[i + 1] - cuts[i])
  }

  /** The list after a fragment of the message was stored in it. */
  lemma StoredArrival(id: Id, body: seq<byte>, cuts: seq<nat>, arrivals: seq<Arrival>, h: Header, data: seq<byte>)
    requires Arriving(id, body, cuts, arrivals) && arrivals != []
    requires var k := |arrivals| - 1;
      !FragmentCuts.Deliver(id, body, cuts, arrivals[..k]).Ready()
        && cuts[arrivals[k].index] <= cuts[arrivals[k].index + 1] <= |body|
      && h == FragmentHeader(id, body, cuts, arrivals[k].index) && data == Fragment(body, cuts, arrivals[k].index)
    requires Arriving(id, body, cuts, arrivals[..|arrivals| - 1])
    ensures
      var k := |arrivals| - 1;
      var list := RxAfter(id, body, cuts, arrivals[..k]).list;
      R.ListOK(list) && |list| <= 1 &&
      R.Store(list, id.epoch, h, data, Willing(arrivals[k])) == [FragmentCuts.Deliver(id, body, cuts, arrivals)]
  {
    var k := |arrivals| - 1;
    var m := FragmentCuts.Deliver(id, body, cuts, arrivals[..k]);
    Identified(id, body, cuts, arrivals);
    if k > 0 {
      Identified(id, body, cuts, arrivals[..k]);
    } else {
      assert arrivals[..k] == [];
    }
  }

  /** The loop over the buffer, when it holds one entry with the expected number. */
  lemma ThenCounted(rx: R.Rx, m: Msg, env: R.Env)
    requires rx.list == [m] && m.num == rx.expected && rx.stateful && R.OutcomeAt(env, 0) == R.Done
    ensures R.ProcessBuffered(rx, env, 0).0 ==
      if m.Ready() then R.WasProcessed(rx, m.num, m.htype, m.full.value).(list := []) else rx
  {
    if m.Ready() {
      var rx1 := R.WasProcessed(rx, m.num, m.htype, m.full.value).(list := []);
      assert rx.list[1..] == [];
      assert R.ProcessBuffered(rx1, env, 1) == (rx1, R.Success);
    }
  }

  /** A part of the expected message, when the list then holds just the entry m. */
  lemma PartProcessed(rx: R.Rx, epoch: nat, h: Header, data: seq<byte>, env: R.Env, m: Msg)
    requires R.ListOK(rx.list) && |rx.list| <= 1 && rx.stateful && h.num == rx.expected == m.num
    requires !(h.off == 0 && h.fragLen == h.length) && env.fragments == R.Accept && R.OutcomeAt(env, 0) == R.Done
    requires R.Store(rx.list, epoch, h, data, env) == [m]
    ensures R.RecvInOrder(rx, epoch, h, data, env).0 ==
      if m.Ready() then R.WasProcessed(rx, m.num, m.htype, m.full.value).(list := []) else rx.(list := [m])
  {
    ThenCounted(rx.(list := [m]), m, env);
  }

  /** What is parsed out of a fragment. */
  lemma FragmentParsed(h: Header, body: seq<byte>) returns (p: seq<byte>)
    requires h.off + h.fragLen <= h.length == |body| < 0x1_0000
    ensures p == T.FragmentBytes(h.htype, body, h.num, h.off, h.fragLen)
    ensures |p| == HEADER_SZ + h.fragLen && GetHeader(p) == Parsed(h)
    ensures p[HEADER_SZ..HEADER_SZ + h.fragLen] == body[h.off..h.off + h.fragLen]
  {
    var data := body[h.off..h.off + h.fragLen];
    p := PutHeader(h) + data;
    GetPutHeader(h, data);
  }

  /** The receive step on the bytes of a fragment is the one on its header and data. */
  lemma FragmentReceived(rx: R.Rx, epoch: nat, body: seq<byte>, h: Header, env: R.Env, rx': R.Rx)
    requires R.ListOK(rx.list) && h.off + h.fragLen <= h.length == |body| < 0x1_0000
    requires h.htype < NO_SHAKE && env.sane && env.epochOk && !env.awaitHello
    requires R.RecvInOrder(rx, epoch, h, body[h.off..h.off + h.fragLen], env).0 == rx'
    ensures R.Recv(rx, epoch, T.FragmentBytes(h.htype, body, h.num, h.off, h.fragLen), env).0 == rx'
  {
    var p := FragmentParsed(h, body);
    ParsedReceived(rx, epoch, p, h, body[h.off..h.off + h.fragLen], env);
  }

  lemma ParsedReceived(rx: R.Rx, epoch: nat, p: seq<byte>, h: Header, data: seq<byte>, env: R.Env)
    requires R.ListOK(rx.list) && h.off + h.fragLen <= h.length && |p| == HEADER_SZ + h.fragLen
    requires h.htype < NO_SHAKE && env.sane && env.epochOk && !env.awaitHello
    requires GetHeader(p) == Parsed(h) && p[HEADER_SZ..HEADER_SZ + h.fragLen] == data
    ensures R.Recv(rx, epoch, p, env) == R.RecvInOrder(rx, epoch, h, data, env)
  {
  }

  lemma PartArrival(id: Id, body: seq<byte>, cuts: seq<nat>, arrivals: seq<Arrival>, h: Header, data: seq<byte>,
                    rx: R.Rx)
    requires Arriving(id, body, cuts, arrivals) && arrivals != [] && |cuts| >= 3
    requires Arriving(id, body, cuts, arrivals[..|arrivals| - 1])
    requires !FragmentCuts.Deliver(id, body, cuts, arrivals[..|arrivals| - 1]).Ready()
    requires rx == RxAfter(id, body, cuts, arrivals[..|arrivals| - 1])
    requires var a := arrivals[|arrivals| - 1];
      && cuts[a.index] <= cuts[a.index + 1] <= |body|
      && h == FragmentHeader(id, body, cuts, a.index) && data == Fragment(body, cuts, a.index)
    ensures R.ListOK(rx.list)
    ensures R.RecvInOrder(rx, id.epoch, h, data, Willing(arrivals[|arrivals| - 1])).0 ==
            RxAfter(id, body, cuts, arrivals)
  {
    var k := |arrivals| - 1;
    StoredArrival(id, body, cuts, arrivals, h, data);
    Partial(id, body, cuts, arrivals[k].index);
    Identified(id, body, cuts, arrivals);
    var m := FragmentCuts.Deliver(id, body, cuts, arrivals);
    PartProcessed(rx, id.epoch, h, data, Willing(arrivals[k]), m);
    CountedOrKept(id, body, cuts, arrivals, rx, m);
  }

  /** The receive step for the last arrival, behind the parser. */
  lemma ArrivalProcessed(id: Id, body: seq<byte>, cuts: seq<nat>, arrivals: seq<Arrival>, h: Header, data: seq<byte>,
                         rx: R.Rx)
    requires Arriving(id, body, cuts, arrivals) && arrivals != []
    requires Arriving(id, body, cuts, arrivals[..|arrivals| - 1])
    requires rx == RxAfter(id, body, cuts, arrivals[..|arrivals| - 1])
    requires var a := arrivals[|arrivals| - 1];
      && cuts[a.index] <= cuts[a.index + 1] <= |body|
      && h == FragmentHeader(id, body, cuts, a.index) && data == Fragment(body, cuts, a.index)
    ensures R.ListOK(rx.list)
    ensures R.RecvInOrder(rx, id.epoch, h, data, Willing(arrivals[|arrivals| - 1])).0 ==
            RxAfter(id, body, cuts, arrivals)
  {
    var k := |arrivals| - 1;
    if FragmentCuts.Deliver(id, body, cuts, arrivals[..k]).Ready() {
      ReadyStays(id, body, cuts, arrivals);
      assert h.num < rx.expected;
    } else if |cuts| == 2 {
      OnlyArrival(id, body, cuts, arrivals, h, data, rx);
    } else {
      PartArrival(id, body, cuts, arrivals, h, data, rx);
    }
  }

  /** A message in one fragment is ready as soon as that has arrived. */
  lemma OneIsAll(id: Id, body: seq<byte>, cuts: seq<nat>, arrivals: seq<Arrival>)
    requires Arriving(id, body, cuts, arrivals) && arrivals != [] && |cuts| == 2
    ensures
      var m := FragmentCuts.Deliver(id, body, cuts, arrivals);
      m.Ready() && m.full.value == body
  {
    ShortCutReady(id, body, cuts, arrivals);
    assert arrivals[0].index == 0;
    assert Arrived(arrivals, 0);
  }

  /** A whole message that is expected is processed at once. */
  lemma DirectProcessed(rx: R.Rx, epoch: nat, h: Header, data: seq<byte>, env: R.Env)
    requires rx.list == [] && rx.stateful && h.num == rx.expected && h.off == 0 && h.fragLen == h.length
    requires !env.async && R.OutcomeAt(env, 0) == R.Done
    ensures R.RecvInOrder(rx, epoch, h, data, env).0 == R.WasProcessed(rx, h.num, h.htype, data)
  {
    var rx1 := R.WasProcessed(rx, h.num, h.htype, data);
    assert R.ProcessBuffered(rx1, env, 1) == (rx1, R.Success);
  }

  lemma OnlyArrival(id: Id, body: seq<byte>, cuts: seq<nat>, arrivals: seq<Arrival>, h: Header, data: seq<byte>,
                    rx: R.Rx)
    requires Arriving(id, body, cuts, arrivals) && arrivals != [] && |cuts| == 2
    requires Arriving(id, body, cuts, arrivals[..|arrivals| - 1])
    requires !FragmentCuts.Deliver(id, body, cuts, arrivals[..|arrivals| - 1]).Ready()
    requires rx == RxAfter(id, body, cuts, arrivals[..|arrivals| - 1])
    requires h == FragmentHeader(id, body, cuts, 0) && data == Fragment(body, cuts, 0)
    ensures R.ListOK(rx.list)
    ensures R.RecvInOrder(rx, id.epoch, h, data, Willing(arrivals[|arrivals| - 1])).0 ==
            RxAfter(id, body, cuts, arrivals)
  {
    var before := arrivals[..|arrivals| - 1];
    if before != [] {
      OneIsAll(id, body, cuts, before);
    }
    OneIsAll(id, body, cuts, arrivals);
    assert data == body;
    DirectProcessed(rx, id.epoch, h, data, Willing(arrivals[|arrivals| - 1]));
  }

  lemma CountedOrKept(id: Id, body: seq<byte>, cuts: seq<nat>, arrivals: seq<Arrival>, rx: R.Rx, m: Msg)
    requires Arriving(id, body, cuts, arrivals) && arrivals != [] && m == FragmentCuts.Deliver(id, body, cuts, arrivals)
    requires rx.expected == rx.base == id.num && rx.stateful && rx.log == [] && m.htype == id.htype && m.num == id.num
    ensures RxAfter(id, body, cuts, arrivals) ==
      if m.Ready() then R.WasProcessed(rx, m.num, m.htype, m.full.value).(list := []) else rx.(list := [m])
  {
  }

  lemma ReadyStays(id: Id, body: seq<byte>, cuts: seq<nat>, arrivals: seq<Arrival>)
    requires Arriving(id, body, cuts, arrivals) && arrivals != []
    requires Arriving(id, body, cuts, arrivals[..|arrivals| - 1])
    requires FragmentCuts.Deliver(id, body, cuts, arrivals[..|arrivals| - 1]).Ready()
    ensures FragmentCuts.Deliver(id, body, cuts, arrivals) ==
            FragmentCuts.Deliver(id, body, cuts, arrivals[..|arrivals| - 1])
    ensures RxAfter(id, body, cuts, arrivals) == RxAfter(id, body, cuts, arrivals[..|arrivals| - 1])
  {
    var k := |arrivals| - 1;
    var m := FragmentCuts.Deliver(id, body, cuts, arrivals[..k]);
    CutBounds(cuts, |body|, arrivals[k].index);
    assert FragmentCuts.Deliver(id, body, cuts, arrivals) == Arrive(m, id, body, cuts, arrivals[k]);
  }

  /** A fragment of a message in at least two is not the whole message. */
  lemma Partial(id: Id, body: seq<byte>, cuts: seq<nat>, i: nat)
    requires Cut(cuts, |body|) && |cuts| >= 3 && i + 1 < |cuts| && id.htype < NO_SHAKE && id.num < 0x1_0000
    requires cuts[i] <= cuts[i + 1]
    ensures var h := FragmentHeader(id, body, cuts, i); !(h.off == 0 && h.fragLen == h.length)
  {
    CutRises(cuts, |body|);
    assert cuts[0] < cuts[1] < cuts[2];
    assert i + 1 < |cuts| - 1 ==> cuts[i + 1] < cuts[|cuts| - 1];
    assert i > 0 ==> cuts[0] < cuts[i];
  }

  /** The receive step on the bytes of the last arrival. */
  lemma ArrivalReceived(id: Id, body: seq<byte>, cuts: seq<nat>, arrivals: seq<Arrival>, rx: R.Rx)
    requires Arriving(id, body, cuts, arrivals) && arrivals != []
    requires Arriving(id, body, cuts, arrivals[..|arrivals| - 1])
    requires rx == RxAfter(id, body, cuts, arrivals[..|arrivals| - 1])
    requires var a := arrivals[|arrivals| - 1]; cuts[a.index] <= cuts[a.index + 1] <= |body|
    ensures
      var a := arrivals[|arrivals| - 1];
      var p := T.FragmentBytes(id.htype, body, id.num, cuts[a.index], cuts[a.index + 1] - cuts[a.index]);
      R.ListOK(rx.list) && R.Recv(rx, id.epoch, p, Willing(a)).0 == RxAfter(id, body, cuts, arrivals)
  {
    var a := arrivals[|arrivals| - 1];
    var h, data := FragmentHeader(id, body, cuts, a.index), Fragment(body, cuts, a.index);
    ArrivalProcessed(id, body, cuts, arrivals, h, data, rx);
    assert data == body[h.off..h.off + h.fragLen];
    FragmentReceived(rx, id.epoch, body, h, Willing(a), RxAfter(id, body, cuts, arrivals));
  }

  // ---------- runs of the system ----------

  /** The steps are a run of the system from s to r. */
  ghost predicate RunsTo(s: Sys, steps: seq<Step>, r: Sys)
  {
    SysOK(s) && EnabledRun(s, steps) && Reach(s, steps) == r
  }

  lemma {:induction false} OneMoreStep(s: Sys, steps: seq<Step>, r: Sys, step: Step)
    requires RunsTo(s, steps, r) && Enabled(r, step)
    ensures SysOK(r) && RunsTo(s, steps + [step], Apply(r, step))
    decreases |steps|
  {
    var all := steps + [step];
    StepKeepsSys(r, step);
    if steps == [] {
      assert all[1..] == [];
      assert EnabledRun(Apply(s, step), all[1..]);
    } else {
      StepKeepsSys(s, steps[0]);
      assert all[1..] == steps[1..] + [step];
      OneMoreStep(Apply(s, steps[0]), steps[1..], r, step);
    }
  }

  /** The record carries fragment i of the body. */
  ghost predicate CarriesFragment(p: T.Emitted, id: Id, body: seq<byte>, cuts: seq<nat>, i: nat)
    requires i + 1 < |cuts| && id.htype < NO_SHAKE && id.num < 0x1_0000
  {
    && p.rn.epoch == id.epoch && cuts[i] <= cuts[i + 1] <= |body|
    && p.payload == T.FragmentBytes(id.htype, body, id.num, cuts[i], cuts[i + 1] - cuts[i])
  }

  /** The fragments of the body are in the records from number at on, in order. */
  ghost predicate FragmentsAt(wire: seq<T.Emitted>, at: nat, id: Id, body: seq<byte>, cuts: seq<nat>)
    requires id.htype < NO_SHAKE && id.num < 0x1_0000 && cuts != [] && at + |cuts| - 1 <= |wire|
  {
    forall i: nat :: i + 1 < |cuts| ==> FragmentAt(wire, at, id, body, cuts, i)
  }

  ghost predicate FragmentAt(wire: seq<T.Emitted>, at: nat, id: Id, body: seq<byte>, cuts: seq<nat>, i: nat)
    requires id.htype < NO_SHAKE && id.num < 0x1_0000 && i + 1 < |cuts| && at + |cuts| - 1 <= |wire|
  {
    CarriesFragment(wire[at + i], id, body, cuts, i)
  }

  /** The whole message, and nothing else, is on the wire, and the receiver has seen nothing yet. */
  ghost predicate OnWire(s: Sys, id: Id, body: seq<byte>, cuts: seq<nat>)
  {
    && id.htype < NO_SHAKE && id.num < 0x1_0000 && id.num == s.start
    && s.msgs == [Message(id.num, id.htype, body, cuts)] && s.rx == R.Rx(s.start, true, [], s.start, [])
    && cuts != [] && |s.tx.link.wire| == |cuts| - 1 && FragmentsAt(s.tx.link.wire, 0, id, body, cuts)
  }

  lemma RecordReceived(e: T.Emitted, id: Id, body: seq<byte>, cuts: seq<nat>, arrivals: seq<Arrival>, rx: R.Rx)
    requires Arriving(id, body, cuts, arrivals) && arrivals != []
    requires Arriving(id, body, cuts, arrivals[..|arrivals| - 1])
    requires rx == RxAfter(id, body, cuts, arrivals[..|arrivals| - 1])
    requires CarriesFragment(e, id, body, cuts, arrivals[|arrivals| - 1].index)
    ensures R.ListOK(rx.list)
    ensures R.Recv(rx, e.rn.epoch, e.payload, Willing(arrivals[|arrivals| - 1])).0 == RxAfter(id, body, cuts, arrivals)
  {
    ArrivalReceived(id, body, cuts, arrivals, rx);
  }

  /** A delivery changes nothing but the receiver. */
  lemma DeliverIs(s: Sys, step: Step) returns (s1: Sys)
    requires SysOK(s) && step.Deliver? && Enabled(s, step)
    ensures s1 == Apply(s, step) && SysOK(s1)
    ensures s1 == s.(rx := R.Recv(s.rx, s.tx.link.wire[step.k].rn.epoch, s.tx.link.wire[step.k].payload, step.env).0)
  {
    StepKeepsSys(s, step);
    s1 := Apply(s, step);
  }

  lemma DeliverApplied(s: Sys, k: nat, env: R.Env, rx: R.Rx)
    requires SysOK(s) && k < |s.tx.link.wire| && !env.awaitHello
    requires var e := s.tx.link.wire[k]; rx == R.Recv(s.rx, e.rn.epoch, e.payload, env).0
    ensures Enabled(s, Step.Deliver(k, env)) && Apply(s, Step.Deliver(k, env)) == s.(rx := rx)
  {
  }

  /** Every order of arrival is a run of the system, and the receiver ends up with what the store made of it. */
  lemma {:induction false} ArrivalsAreARun(s: Sys, id: Id, body: seq<byte>, cuts: seq<nat>, arrivals: seq<Arrival>)
    requires SysOK(s) && OnWire(s, id, body, cuts) && Arriving(id, body, cuts, arrivals)
    ensures RunsTo(s, Deliveries(arrivals), s.(rx := RxAfter(id, body, cuts, arrivals)))
    decreases |arrivals|
  {
    if arrivals == [] {
      assert s.(rx := RxAfter(id, body, cuts, arrivals)) == s;
    } else {
      var before := arrivals[..|arrivals| - 1];
      ArrivingBefore(id, body, cuts, arrivals);
      ArrivalsAreARun(s, id, body, cuts, before);
      OneMoreArrival(s, id, body, cuts, arrivals, RxAfter(id, body, cuts, before));
    }
  }

  lemma LastDelivery(arrivals: seq<Arrival>)
    requires arrivals != []
    ensures
      var a := arrivals[|arrivals| - 1];
      Deliveries(arrivals) == Deliveries(arrivals[..|arrivals| - 1]) + [Step.Deliver(a.index, Willing(a))]
  {
  }

  lemma OneMoreArrival(s: Sys, id: Id, body: seq<byte>, cuts: seq<nat>, arrivals: seq<Arrival>, rx: R.Rx)
    requires OnWire(s, id, body, cuts) && Arriving(id, body, cuts, arrivals) && arrivals != []
    requires Arriving(id, body, cuts, arrivals[..|arrivals| - 1])
    requires rx == RxAfter(id, body, cuts, arrivals[..|arrivals| - 1])
    requires RunsTo(s, Deliveries(arrivals[..|arrivals| - 1]), s.(rx := rx))
    ensures RunsTo(s, Deliveries(arrivals), s.(rx := RxAfter(id, body, cuts, arrivals)))
  {
    var k := |arrivals| - 1;
    var a := arrivals[k];
    assert FragmentAt(s.tx.link.wire, 0, id, body, cuts, a.index);
    RecordReceived(s.tx.link.wire[a.index], id, body, cuts, arrivals, rx);
    DeliverApplied(s.(rx := rx), a.index, Willing(a), RxAfter(id, body, cuts, arrivals));
    OneMoreStep(s, Deliveries(arrivals[..k]), s.(rx := rx), Step.Deliver(a.index, Willing(a)));
    LastDelivery(arrivals);
  }

  // ---------- one message is sent ----------

  function Ends(ps: seq<F.Span>): seq<nat>
  {
    seq(|ps|, i requires 0 <= i < |ps| => ps[i].End())
  }

  lemma EndsOfSum(x: F.Span, ps: seq<F.Span>, cuts: seq<nat>)
    ensures cuts + Ends([x] + ps) == cuts + [x.End()] + Ends(ps) && Ends([x]) == [x.End()] && Ends([]) == []
  {
    assert Ends([x] + ps) == [x.End()] + Ends(ps);
  }

  /** The places where a call cuts are the ends of the fragments it puts into records. */
  lemma {:induction false} CutsAreEnds(t: T.Tx, room: nat, outs: seq<T.Out>, k: nat, cuts: seq<nat>)
    returns (ps: seq<F.Span>)
    requires T.TxOK(t) && t.frag.Sending? && t.frag.off <= |t.frag.body| && room > 0
    ensures ps == F.BuiltBy(F.TriesFrom(t, room, outs, k)) && CutsAfter(t, room, outs, k, cuts) == cuts + Ends(ps)
    decreases |t.frag.body| - t.frag.off
  {
    if t.frag.off == |t.frag.body| {
      return [];
    }
    var t1, ret, x := F.OneFragmentDid(t, room, T.OutAt(outs, k));
    F.OneTry(x);
    CutsStep(t, room, outs, k, cuts, t1, ret, x.span.End());
    if ret != T.Done {
      F.TriesEnd(t, room, outs, k);
      EndsOfSum(x.span, [], cuts);
      return if x.Built() then [x.span] else [];
    }
    var rest := CutsAreEnds(t1, room, outs, k + 1, cuts + [x.span.End()]);
    F.TriesStep(t, room, outs, k, t1);
    F.TriesConcat([x], F.TriesFrom(t1, room, outs, k + 1));
    EndsOfSum(x.span, rest, cuts);
    ps := [x.span] + rest;
  }

  /** What a first call starts with. */
  ghost predicate Starts(t: T.Tx, htype: byte, body: seq<byte>, cidSz: nat, maxFrag: nat, bufferAlloc: bool)
  {
    && T.TxOK(t) && t.frag == T.Idle && T.FragmentRoom(htype, cidSz, maxFrag) > 0
    && SM.Begins(t, htype, body, cidSz, maxFrag, bufferAlloc)
  }

  /** The messages after a first call, by the fragments it puts into records. */
  lemma SentCuts(t: T.Tx, htype: byte, body: seq<byte>, cidSz: nat, maxFrag: nat, bufferAlloc: bool, outs: seq<T.Out>,
                 msgs: seq<Message>) returns (ps: seq<F.Span>)
    requires Starts(t, htype, body, cidSz, maxFrag, bufferAlloc)
    ensures ps == F.BuiltBy(SM.FirstTries(t, htype, body, cidSz, maxFrag, outs))
    ensures SentMessages(t, htype, body, cidSz, maxFrag, bufferAlloc, outs, msgs) ==
      if ps == [] then msgs else msgs + [Message(t.num, htype, body, [0] + Ends(ps))]
  {
    var t1 := WithTopEpoch(t);
    if T.FitsWhole(htype, body, cidSz, maxFrag) {
      var t', ret, ts := SM.WholeDoes(t1, htype, body, T.OutAt(outs, 0), |body|);
      F.OneTry(ts[0]);
      ps := F.BuiltBy(ts);
      assert [0] + Ends([F.Span(0, |body|)]) == [0, |body|];
    } else {
      var room := T.FragmentRoom(htype, cidSz, maxFrag);
      ps := CutsAreEnds(SM.Started(t, htype, body), room, outs, 0, [0]);
    }
  }

  lemma CutEnds(body: seq<byte>, ps: seq<F.Span>, room: nat, i: nat)
    requires SM.Cover(body, ps, room) && i < |ps|
    ensures var cuts := [0] + Ends(ps); cuts[i] == ps[i].off && cuts[i + 1] == ps[i].End() <= |body|
  {
    assert body != [] ==> F.TileAt(ps, i, 0, |body|, room);
    assert i > 0 && body != [] ==> F.TileAt(ps, i - 1, 0, |body|, room);
  }

  lemma CutIsOnWire(l: T.Link, l': T.Link, id: Id, body: seq<byte>, ps: seq<F.Span>, room: nat)
    requires id.htype < NO_SHAKE && id.num < 0x1_0000 && id.epoch < TWO64 && SM.Cover(body, ps, room)
    requires F.Emits(l, l', F.Outgoing(id.htype, body, id.num, id.epoch), ps)
    ensures
      var cuts := [0] + Ends(ps);
      |l'.wire| == |l.wire| + |cuts| - 1 && FragmentsAt(l'.wire, |l.wire|, id, body, cuts)
  {
    var cuts := [0] + Ends(ps);
    forall i: nat | i + 1 < |cuts|
      ensures FragmentAt(l'.wire, |l.wire|, id, body, cuts, i)
    {
      F.EmitsAt(l, l', F.Outgoing(id.htype, body, id.num, id.epoch), ps, i);
      CutEnds(body, ps, room, i);
    }
  }

  /** The try number j is what the outcome number j makes of a fragment. */
  lemma FirstTryIs(t: T.Tx, htype: byte, body: seq<byte>, cidSz: nat, maxFrag: nat, outs: seq<T.Out>, ts: seq<F.Try>,
                   j: nat)
    requires T.TxOK(t) && t.top in t.link.next && T.FragmentRoom(htype, cidSz, maxFrag) > 0
    requires ts == SM.FirstTries(t, htype, body, cidSz, maxFrag, outs) && j < |ts|
    ensures ts[j].held <==> T.OutAt(outs, j).res == T.Held
  {
    if !T.FitsWhole(htype, body, cidSz, maxFrag) {
      F.TriesAre(htype, |body|, 0, t.link.next[t.top], T.FragmentRoom(htype, cidSz, maxFrag), outs, 0, j);
    }
  }

  /** No record is held back by a flush that blocked before it. */
  ghost predicate NoneHeld(outs: seq<T.Out>)
  {
    forall i :: 0 <= i < |outs| ==> outs[i].res != T.Held
  }

  /** What a first call puts into records is on the wire, behind what was there, unless a flush holds it back. */
  lemma SentOnWire(t: T.Tx, htype: byte, body: seq<byte>, cidSz: nat, maxFrag: nat, bufferAlloc: bool, outs: seq<T.Out>,
                   msgs: seq<Message>) returns (t': T.Tx, cuts: seq<nat>)
    requires Starts(t, htype, body, cidSz, maxFrag, bufferAlloc) && htype < NO_SHAKE && NoneHeld(outs)
    ensures cuts == [0] + Ends(F.BuiltBy(SM.FirstTries(t, htype, body, cidSz, maxFrag, outs)))
    ensures t' == T.HandshakeSend(t, htype, body, cidSz, maxFrag, bufferAlloc, outs).0 && t'.top == t.top
    ensures cuts != [] && |t'.link.wire| == |t.link.wire| + |cuts| - 1
    ensures SentMessages(t, htype, body, cidSz, maxFrag, bufferAlloc, outs, msgs) ==
      if |cuts| == 1 then msgs else msgs + [Message(t.num, htype, body, cuts)]
    ensures FragmentsAt(t'.link.wire, |t.link.wire|, Id(t.top, t.num, htype), body, cuts)
    ensures forall i :: 0 <= i < |t.link.wire| ==> t'.link.wire[i] == t.link.wire[i]
  {
    var room := T.FragmentRoom(htype, cidSz, maxFrag);
    var ret, ts;
    t', ret, ts := SM.FirstDoes(t, htype, body, cidSz, maxFrag, bufferAlloc, outs, room);
    forall j | 0 <= j < |ts|
      ensures !ts[j].held
    {
      FirstTryIs(t, htype, body, cidSz, maxFrag, outs, ts, j);
    }
    F.NothingHeld(ts);
    var ps := SentCuts(t, htype, body, cidSz, maxFrag, bufferAlloc, outs, msgs);
    cuts := [0] + Ends(ps);
    CutIsOnWire(t.link, t'.link, Id(t.top, t.num, htype), body, ps, room);
  }

  /** The transport takes the first n records at once, and memory is there. */
  ghost predicate Smooth(outs: seq<T.Out>, n: nat)
  {
    forall i :: 0 <= i < n ==> var out := T.OutAt(outs, i); out.room == T.Free && out.alloc && out.res == T.Sent
  }

  lemma TimesRoom(j: nat, room: nat)
    requires room > 0
    ensures j <= j * room
  {
  }

  /** No more records than this are needed for a message. */
  function MostRecords(body: seq<byte>): nat { if body == [] then 1 else |body| }

  /** The number of a record behind number is not the last one for any of n records. */
  predicate FarFromWrap(htype: byte, number: word64, n: nat)
  {
    T.TypeIsEncrypted(htype) || number + n < TWO64
  }

  /** Every fragment of the message is sent at once. */
  ghost predicate GoesSmoothly(t: T.Tx, htype: byte, body: seq<byte>, outs: seq<T.Out>)
    requires t.top in t.link.next
  {
    Smooth(outs, MostRecords(body)) && FarFromWrap(htype, t.link.next[t.top], MostRecords(body))
  }

  lemma SmoothTry(t: T.Tx, htype: byte, body: seq<byte>, cidSz: nat, maxFrag: nat, outs: seq<T.Out>, ts: seq<F.Try>,
                  j: nat)
    requires Starts(t, htype, body, cidSz, maxFrag, true) && t.top in t.link.next && GoesSmoothly(t, htype, body, outs)
    requires ts == SM.FirstTries(t, htype, body, cidSz, maxFrag, outs) && j < |ts|
    ensures ts[j].answer == T.Done
    ensures
      var room := T.FragmentRoom(htype, cidSz, maxFrag);
      && (j > 0 ==> j * room < |body|) && (j + 1 == |ts| ==> |body| <= j * room + room)
  {
    if !T.FitsWhole(htype, body, cidSz, maxFrag) {
      var room := T.FragmentRoom(htype, cidSz, maxFrag);
      F.TriesAre(htype, |body|, 0, t.link.next[t.top], room, outs, 0, j);
      F.ByteAtIs(0, room, j);
      TimesRoom(j, room);
    }
  }

  /** A message that is sent without trouble is out, in as many fragments as its length asks for. */
  lemma SmoothSend(t: T.Tx, htype: byte, body: seq<byte>, cidSz: nat, maxFrag: nat, outs: seq<T.Out>,
                   msgs: seq<Message>) returns (t': T.Tx, cuts: seq<nat>)
    requires Starts(t, htype, body, cidSz, maxFrag, true) && t.top in t.link.next && GoesSmoothly(t, htype, body, outs)
    requires htype < NO_SHAKE && NoneHeld(outs)
    ensures (t', T.Done) == T.HandshakeSend(t, htype, body, cidSz, maxFrag, true, outs)
    ensures t'.frag == T.Idle && t'.num == (t.num + 1) % 0x1_0000 && t'.top == t.top
    ensures |cuts| >= 2 && cuts[|cuts| - 1] == |body|
    ensures |t'.link.wire| == |t.link.wire| + |cuts| - 1
    ensures SentMessages(t, htype, body, cidSz, maxFrag, true, outs, msgs) ==
            msgs + [Message(t.num, htype, body, cuts)]
    ensures FragmentsAt(t'.link.wire, |t.link.wire|, Id(t.top, t.num, htype), body, cuts)
    ensures forall i :: 0 <= i < |t.link.wire| ==> t'.link.wire[i] == t.link.wire[i]
    ensures |cuts| - 1 <= MAX_SAFE_FRAGMENTS <==>
            |body| <= MAX_SAFE_FRAGMENTS * T.FragmentRoom(htype, cidSz, maxFrag)
  {
    var ps := SmoothSpans(t, htype, body, cidSz, maxFrag, outs);
    t', cuts := SentOnWire(t, htype, body, cidSz, maxFrag, true, outs, msgs);
  }

  /** The fragments of a message that is sent without trouble. */
  lemma SmoothSpans(t: T.Tx, htype: byte, body: seq<byte>, cidSz: nat, maxFrag: nat, outs: seq<T.Out>)
    returns (ps: seq<F.Span>)
    requires Starts(t, htype, body, cidSz, maxFrag, true) && t.top in t.link.next && GoesSmoothly(t, htype, body, outs)
    ensures
      var (t', ret) := T.HandshakeSend(t, htype, body, cidSz, maxFrag, true, outs);
      ret == T.Done && SM.IsOut(t, t', body, ps)
    ensures ps == F.BuiltBy(SM.FirstTries(t, htype, body, cidSz, maxFrag, outs))
    ensures ps != [] && ps[|ps| - 1].End() == |body|
    ensures |ps| <= MAX_SAFE_FRAGMENTS <==> |body| <= MAX_SAFE_FRAGMENTS * T.FragmentRoom(htype, cidSz, maxFrag)
  {
    var room := T.FragmentRoom(htype, cidSz, maxFrag);
    var t', ret, ts := SM.FirstDoes(t, htype, body, cidSz, maxFrag, true, outs, room);
    ps := EachBuilt(t, htype, body, cidSz, maxFrag, outs, ts);
    SmoothCount(t, htype, body, cidSz, maxFrag, outs, ts);
  }

  lemma EachBuilt(t: T.Tx, htype: byte, body: seq<byte>, cidSz: nat, maxFrag: nat, outs: seq<T.Out>, ts: seq<F.Try>)
    returns (ps: seq<F.Span>)
    requires Starts(t, htype, body, cidSz, maxFrag, true) && t.top in t.link.next && GoesSmoothly(t, htype, body, outs)
    requires ts == SM.FirstTries(t, htype, body, cidSz, maxFrag, outs)
    ensures ps == F.BuiltBy(ts) && |ps| == |ts| && forall j :: 0 <= j < |ts| ==> ts[j].answer == T.Done
  {
    forall j | 0 <= j < |ts|
      ensures ts[j].answer == T.Done
    {
      SmoothTry(t, htype, body, cidSz, maxFrag, outs, ts, j);
    }
    F.AllPicked(ts, (x: F.Try) => x.Built());
    ps := F.BuiltBy(ts);
  }

  lemma SmoothCount(t: T.Tx, htype: byte, body: seq<byte>, cidSz: nat, maxFrag: nat, outs: seq<T.Out>, ts: seq<F.Try>)
    requires Starts(t, htype, body, cidSz, maxFrag, true) && t.top in t.link.next && GoesSmoothly(t, htype, body, outs)
    requires ts == SM.FirstTries(t, htype, body, cidSz, maxFrag, outs) && ts != []
    ensures |ts| <= MAX_SAFE_FRAGMENTS <==> |body| <= MAX_SAFE_FRAGMENTS * T.FragmentRoom(htype, cidSz, maxFrag)
  {
    var last := |ts| - 1;
    SmoothTry(t, htype, body, cidSz, maxFrag, outs, ts, last);
    if last >= MAX_SAFE_FRAGMENTS {
      SmoothTry(t, htype, body, cidSz, maxFrag, outs, ts, MAX_SAFE_FRAGMENTS);
    } else {
      assert last * T.FragmentRoom(htype, cidSz, maxFrag) <= 3 * T.FragmentRoom(htype, cidSz, maxFrag);
    }
  }

  /** A message is sent without trouble, behind whatever was sent before. */
  lemma NextOnWire(s1: Sys, b: Step) returns (s2: Sys, full: seq<nat>)
    requires SysOK(s1) && b.Send? && Enabled(s1, b) && b.bufferAlloc && b.htype < NO_SHAKE && NoneHeld(b.outs)
    requires s1.tx.top in s1.tx.link.next && GoesSmoothly(s1.tx, b.htype, b.body, b.outs)
    ensures s2 == Apply(s1, b) && SysOK(s2) && s2.rx == s1.rx && s2.start == s1.start
    ensures s2.msgs == s1.msgs + [Message(s1.tx.num, b.htype, b.body, full)]
    ensures s2.tx.frag == T.Idle && s2.tx.num == s1.tx.num + 1
    ensures |full| >= 2 && full[|full| - 1] == |b.body|
    ensures |s2.tx.link.wire| == |s1.tx.link.wire| + |full| - 1
    ensures forall i :: 0 <= i < |s1.tx.link.wire| ==> s2.tx.link.wire[i] == s1.tx.link.wire[i]
    ensures FragmentsAt(s2.tx.link.wire, |s1.tx.link.wire|, Id(s1.tx.top, s1.tx.num, b.htype), b.body, full)
    ensures |full| - 1 <= MAX_SAFE_FRAGMENTS <==>
            |b.body| <= MAX_SAFE_FRAGMENTS * T.FragmentRoom(b.htype, b.cidSz, b.maxFrag)
  {
    var t2;
    t2, full := SmoothSend(s1.tx, b.htype, b.body, b.cidSz, b.maxFrag, b.outs, s1.msgs);
    s2 := Apply(s1, b);
    StepKeepsSys(s1, b);
  }

  /** From the start, a message is sent without trouble. */
  ghost predicate SendsSmoothly(s: Sys, send: Step)
  {
    && Init(s) && SysOK(s) && send.Send? && Enabled(s, send) && send.bufferAlloc && send.htype < NO_SHAKE
    && s.tx.top in s.tx.link.next && GoesSmoothly(s.tx, send.htype, send.body, send.outs) && NoneHeld(send.outs)
  }

  ghost function SentId(s: Sys, send: Step): Id
    requires SendsSmoothly(s, send)
  {
    Id(s.tx.top, s.start, send.htype)
  }

  /** All of it is then on the wire, in as many fragments as its length asks for. */
  lemma MessageOnWire(s: Sys, send: Step) returns (s1: Sys, cuts: seq<nat>)
    requires SendsSmoothly(s, send)
    ensures s1 == Apply(s, send) && SysOK(s1) && OnWire(s1, SentId(s, send), send.body, cuts) && Cut(cuts, |send.body|)
    ensures |cuts| - 1 <= MAX_SAFE_FRAGMENTS <==>
            |send.body| <= MAX_SAFE_FRAGMENTS * T.FragmentRoom(send.htype, send.cidSz, send.maxFrag)
  {
    var t1;
    t1, cuts := SmoothSend(s.tx, send.htype, send.body, send.cidSz, send.maxFrag, send.outs, s.msgs);
    s1 := Apply(s, send);
    StepKeepsSys(s, send);
    AsCutIsCut(s1.msgs[0]);
  }

  lemma RunFrom(s: Sys, step: Step, steps: seq<Step>, r: Sys)
    requires SysOK(s) && Enabled(s, step) && RunsTo(Apply(s, step), steps, r)
    ensures RunsTo(s, [step] + steps, r)
  {
    var all := [step] + steps;
    assert all[0] == step && all[1..] == steps;
  }

  /** The message is sent and its fragments arrive in any order: a run, with what the store made of that order. */
  lemma SentAndDelivered(s: Sys, send: Step, s1: Sys, cuts: seq<nat>, arrivals: seq<Arrival>)
    requires SendsSmoothly(s, send) && s1 == Apply(s, send) && SysOK(s1)
    requires OnWire(s1, SentId(s, send), send.body, cuts) && Arriving(SentId(s, send), send.body, cuts, arrivals)
    ensures RunsTo(s, [send] + Deliveries(arrivals), s1.(rx := RxAfter(SentId(s, send), send.body, cuts, arrivals)))
  {
    ArrivalsAreARun(s1, SentId(s, send), send.body, cuts, arrivals);
    RunFrom(s, send, Deliveries(arrivals), s1.(rx := RxAfter(SentId(s, send), send.body, cuts, arrivals)));
  }

  // ---------- exactly four fragments ----------

  /** What the receiver should count. */
  function Sent(s: Sys, send: Step): R.Accepted
    requires send.Send?
  {
    R.Accepted(s.start, send.htype, send.body)
  }

  /** Nothing is counted, or just the message. */
  predicate NothingElse(log: seq<R.Accepted>, a: R.Accepted) { log == [] || log == [a] }

  /** When only message k was put into records completely, it is the only one that is counted. */
  lemma OnlyOneSent(log: seq<R.Accepted>, msgs: seq<Message>, start: nat, k: nat)
    requires LogSent(log, msgs, start) && k < |msgs| && msgs[k].num == start
    requires forall i :: 0 <= i < |msgs| && i != k ==> !Whole(msgs[i])
    ensures NothingElse(log, R.Accepted(start, msgs[k].htype, msgs[k].body))
  {
    forall i | 0 <= i < |log|
      ensures i == 0 && log[i] == R.Accepted(start, msgs[k].htype, msgs[k].body)
    {
      assert SentWhole(log[i], msgs, start + i);
    }
    assert log != [] ==> log[|log| - 1].num == start;
  }

  /** A run that sends one message and then only delivers. */
  ghost predicate OneMessageRun(s: Sys, send: Step, steps: seq<Step>)
    requires SysOK(s)
  {
    && steps != [] && steps[0] == send && EnabledRun(s, steps)
    && forall i :: 1 <= i < |steps| ==> steps[i].Deliver?
  }

  /** Deliveries keep every accepted message one that was sent. */
  lemma {:induction false} DeliveriesSafe(s: Sys, steps: seq<Step>)
    requires Inv(s) && SysOK(s) && AllShort(s.msgs) && EnabledRun(s, steps)
    requires forall i :: 0 <= i < |steps| ==> steps[i].Deliver?
    ensures LogSent(Reach(s, steps).rx.log, s.msgs, s.start)
    decreases |steps|
  {
    if steps != [] {
      ShortStepIsGuarded(s, steps[0]);
      StepInv(s, steps[0]);
      var s1 := DeliverIs(s, steps[0]);
      DeliveriesSafe(s1, steps[1..]);
    }
  }

  lemma IsOneMessageRun(s: Sys, send: Step, arrivals: seq<Arrival>, r: Sys)
    requires RunsTo(s, [send] + Deliveries(arrivals), r)
    ensures OneMessageRun(s, send, [send] + Deliveries(arrivals))
  {
  }

  /** Some run that delivers fragments of a long message makes the receiver count a message that was never sent. */
  lemma LongMessageBreaks(s: Sys, send: Step) returns (steps: seq<Step>, r: Sys)
    requires SendsSmoothly(s, send)
    requires |send.body| > MAX_SAFE_FRAGMENTS * T.FragmentRoom(send.htype, send.cidSz, send.maxFrag)
    ensures OneMessageRun(s, send, steps) && RunsTo(s, steps, r)
    ensures |r.rx.log| == 1 && r.rx.log[0].body != send.body
  {
    var s1, cuts := MessageOnWire(s, send);
    var id := SentId(s, send);
    var arrivals := LongCutUnsafe(id, send.body, cuts);
    SentAndDelivered(s, send, s1, cuts, arrivals);
    r := s1.(rx := RxAfter(id, send.body, cuts, arrivals));
    IsOneMessageRun(s, send, arrivals, r);
    steps := [send] + Deliveries(arrivals);
  }

  lemma ShortOnWire(s: Sys, send: Step) returns (s1: Sys)
    requires SendsSmoothly(s, send)
    requires |send.body| <= MAX_SAFE_FRAGMENTS * T.FragmentRoom(send.htype, send.cidSz, send.maxFrag)
    ensures s1 == Apply(s, send) && Inv(s1) && SysOK(s1) && AllShort(s1.msgs)
  {
    var cuts;
    s1, cuts := MessageOnWire(s, send);
    InitInv(s);
    StepInv(s, send);
  }

  lemma ShortMessageSafe(s: Sys, send: Step, steps: seq<Step>)
    requires SendsSmoothly(s, send) && OneMessageRun(s, send, steps)
    requires |send.body| <= MAX_SAFE_FRAGMENTS * T.FragmentRoom(send.htype, send.cidSz, send.maxFrag)
    ensures NothingElse(Reach(s, steps).rx.log, Sent(s, send))
  {
    var s1 := ShortOnWire(s, send);
    DeliveriesSafe(s1, steps[1..]);
    OnlyOneSent(Reach(s, steps).rx.log, s1.msgs, s.start, 0);
  }

  /**
   End to end, over every run that sends a message and then delivers its fragments in whatever way: what is counted
   is what was sent if and only if the message is at most four fragments long.
   */
  lemma EndToEndIffShort(s: Sys, send: Step)
    requires SendsSmoothly(s, send)
    ensures
      (forall steps: seq<Step> :: OneMessageRun(s, send, steps) ==>
         NothingElse(Reach(s, steps).rx.log, Sent(s, send)))
      <==> |send.body| <= MAX_SAFE_FRAGMENTS * T.FragmentRoom(send.htype, send.cidSz, send.maxFrag)
  {
    if |send.body| <= MAX_SAFE_FRAGMENTS * T.FragmentRoom(send.htype, send.cidSz, send.maxFrag) {
      forall steps: seq<Step> | OneMessageRun(s, send, steps)
        ensures NothingElse(Reach(s, steps).rx.log, Sent(s, send))
      {
        ShortMessageSafe(s, send, steps);
      }
    } else {
      var steps, r := LongMessageBreaks(s, send);
      assert !NothingElse(Reach(s, steps).rx.log, Sent(s, send));
    }
  }

  /**
   Nothing is lost either: with memory, the receiver has counted a message of up to four fragments exactly when every
   fragment has arrived.
   */
  lemma ShortMessageArrives(s: Sys, send: Step, arrivals: seq<Arrival>, s1: Sys, cuts: seq<nat>) returns (r: Sys)
    requires SendsSmoothly(s, send) && s1 == Apply(s, send) && SysOK(s1)
    requires OnWire(s1, SentId(s, send), send.body, cuts) && |cuts| - 1 <= MAX_SAFE_FRAGMENTS
    requires Arriving(SentId(s, send), send.body, cuts, arrivals)
    ensures RunsTo(s, [send] + Deliveries(arrivals), r)
    ensures r.rx.log == if AllArrived(cuts, arrivals) then [R.Accepted(s.start, send.htype, send.body)] else []
  {
    SentAndDelivered(s, send, s1, cuts, arrivals);
    ShortCutReady(SentId(s, send), send.body, cuts, arrivals);
    r := s1.(rx := RxAfter(SentId(s, send), send.body, cuts, arrivals));
  }
}
