/**
 The buffer of a receiver that gets messages of one epoch, seen as one slot per message: what storing a fragment and
 processing the buffer do to the slots.
 */
module ReceiverSlots {
  import opened Bytes
  import opened Options
  import opened HandshakeHeader
  import opened Reassembly
  import opened ReassemblyProofs
  import opened Receiver

  type Slot = Option<Msg>

  /** The list with the entries of the slots from p on. */
  function Entries(slots: seq<Slot>, p: nat): seq<Msg>
    requires p <= |slots|
    decreases |slots| - p
  {
    if p == |slots| then []
    else (if slots[p].Some? then [slots[p].value] else []) + Entries(slots, p + 1)
  }

  /** The slot of the message with the given number, if anything of it was stored. */
  ghost predicate SlotOK(slot: Slot, num: nat, epoch: nat)
  {
    slot.Some? ==>
      var m := slot.value;
      MsgOK(m) && m.htype != NO_SHAKE && m.num == num && m.epoch == epoch
  }

  ghost predicate SlotsOK(slots: seq<Slot>, start: nat, epoch: nat)
  {
    start + |slots| < 0x1_0000 && forall i :: 0 <= i < |slots| ==> SlotOK(slots[i], start + i, epoch)
  }

  ghost predicate EntryOK(m: Msg, num: nat, epoch: nat)
  {
    MsgOK(m) && m.htype != NO_SHAKE && m.num >= num && m.epoch == epoch
  }

  lemma {:induction false} EntriesOK(slots: seq<Slot>, start: nat, epoch: nat, p: nat)
    requires SlotsOK(slots, start, epoch) && p <= |slots|
    ensures |Entries(slots, p)| <= |slots| - p && ListOK(Entries(slots, p))
    ensures forall k :: 0 <= k < |Entries(slots, p)| ==> EntryOK(Entries(slots, p)[k], start + p, epoch)
    decreases |slots| - p
  {
    if p < |slots| {
      EntriesOK(slots, start, epoch, p + 1);
      var rest := Entries(slots, p + 1);
      assert forall k :: 0 <= k < |rest| ==> EntryOK(rest[k], start + p + 1, epoch);
      assert SlotOK(slots[p], start + p, epoch);
    }
  }

  lemma {:induction false} EntriesSame(slots: seq<Slot>, slots': seq<Slot>, p: nat)
    requires |slots'| == |slots| && p <= |slots| && forall i :: p <= i < |slots| ==> slots'[i] == slots[i]
    ensures Entries(slots', p) == Entries(slots, p)
    decreases |slots| - p
  {
    if p < |slots| {
      EntriesSame(slots, slots', p + 1);
    }
  }

  // ---------- processing the buffer ----------

  predicate Full(slot: Slot) { slot.Some? && slot.value.Ready() }

  /** The first slot from p on that does not hold a complete message. */
  function NextGap(slots: seq<Slot>, p: nat): (q: nat)
    requires p <= |slots|
    ensures p <= q <= |slots| && (q < |slots| ==> !Full(slots[q]))
    ensures forall i :: p <= i < q ==> Full(slots[i])
    decreases |slots| - p
  {
    if p == |slots| || !Full(slots[p]) then p else NextGap(slots, p + 1)
  }

  /** The receiver has counted the first p of all messages, and holds the entries of the other slots. */
  function Holding(slots: seq<Slot>, start: nat, all: seq<Accepted>, p: nat): Rx
    requires p <= |slots| == |all| && start + |slots| < 0x1_0000
  {
    Rx(start + p, true, Entries(slots, p), start, all[..p])
  }

  /** A complete message in a slot is the one of all messages at its place. */
  ghost predicate Fits(slots: seq<Slot>, all: seq<Accepted>)
  {
    && |slots| == |all|
    && forall i :: 0 <= i < |slots| && Full(slots[i]) ==> all[i] == AcceptedOf(slots[i].value)
  }

  function AcceptedOf(m: Msg): Accepted
    requires m.Ready()
  {
    Accepted(m.num, m.htype, m.full.value)
  }

  /** The handlers answer 0 to as many messages. */
  ghost predicate AllDone(env: Env, k: nat, n: nat)
  {
    forall x :: k <= x < k + n ==> OutcomeAt(env, x) == Done
  }

  lemma NothingNext(slots: seq<Slot>, start: nat, epoch: nat, p: nat)
    requires SlotsOK(slots, start, epoch) && p <= |slots| && (p < |slots| ==> !Full(slots[p]))
    ensures !NextComplete(Entries(slots, p), start + p)
  {
    if p < |slots| {
      EntriesOK(slots, start, epoch, p + 1);
      var rest := Entries(slots, p + 1);
      assert rest != [] ==> EntryOK(rest[0], start + p + 1, epoch);
    }
  }

  lemma HeadNext(slots: seq<Slot>, start: nat, epoch: nat, all: seq<Accepted>, p: nat)
    requires SlotsOK(slots, start, epoch) && Fits(slots, all) && p < |slots| && Full(slots[p])
    ensures
      var s := Holding(slots, start, all, p);
      && NextComplete(s.list, s.expected) && s.list[0] == slots[p].value
      && WasProcessed(s, s.list[0].num, s.list[0].htype, s.list[0].full.value).(list := s.list[1..]) ==
         Holding(slots, start, all, p + 1)
  {
    var s := Holding(slots, start, all, p);
    assert SlotOK(slots[p], start + p, epoch);
    assert s.list == [slots[p].value] + Entries(slots, p + 1);
    assert all[..p + 1] == all[..p] + [all[p]];
  }

  /** The loop over the buffer counts messages up to the first slot that is not complete. */
  lemma {:induction false} BufferProcessed(slots: seq<Slot>, start: nat, epoch: nat, all: seq<Accepted>, p: nat,
                                           env: Env, k: nat)
    requires SlotsOK(slots, start, epoch) && Fits(slots, all) && p <= |slots| && AllDone(env, k, |slots| - p)
    ensures ProcessBuffered(Holding(slots, start, all, p), env, k) ==
            (Holding(slots, start, all, NextGap(slots, p)), Success)
    decreases |slots| - p
  {
    if p < |slots| && Full(slots[p]) {
      HeadNext(slots, start, epoch, all, p);
      BufferProcessed(slots, start, epoch, all, p + 1, env, k + 1);
    } else {
      NothingNext(slots, start, epoch, p);
    }
  }

  // ---------- storing a fragment ----------

  /** What is in a slot when a fragment is offered to it. */
  function Offered(slot: Slot, epoch: nat, h: Header, data: seq<byte>, env: Env): (Msg, Status)
    requires slot.Some? ==> Sorted(slot.value.buckets)
  {
    MsgAfterSet(if slot.Some? then slot.value else NewMsg(h.length), epoch, h.num, h.htype, h.length, h.off, data,
                env.alloc, env.junk)
  }

  lemma FindBehind(x: Msg, rest: seq<Msg>, epoch: nat, num: nat)
    requires !(x.epoch == epoch && x.num == num)
    ensures FindIndex([x] + rest, epoch, num) == 1 + FindIndex(rest, epoch, num)
  {
    assert ([x] + rest)[1..] == rest;
  }

  lemma InsertBehind(x: Msg, rest: seq<Msg>, m: Msg)
    requires !Before(m, x)
    ensures InsertIndex([x] + rest, m) == 1 + InsertIndex(rest, m)
  {
    assert ([x] + rest)[1..] == rest;
  }

  lemma {:induction false} FindNone(list: seq<Msg>, epoch: nat, num: nat)
    requires forall k :: 0 <= k < |list| ==> list[k].num != num
    ensures FindIndex(list, epoch, num) == |list|
  {
    if list != [] {
      FindNone(list[1..], epoch, num);
    }
  }

  lemma SpliceBehind<X>(x: X, rest: seq<X>, m: X, i: nat)
    requires i <= |rest|
    ensures ([x] + rest)[..i + 1] + [m] + ([x] + rest)[i + 1..] == [x] + (rest[..i] + [m] + rest[i..])
  {
  }

  /** An entry with a smaller number stays in front. */
  lemma StoreBehind(x: Msg, rest: seq<Msg>, epoch: nat, h: Header, data: seq<byte>, env: Env)
    requires ListOK([x] + rest) && ListOK(rest) && x.num < h.num && h.htype != NO_SHAKE
    ensures Store([x] + rest, epoch, h, data, env) == [x] + Store(rest, epoch, h, data, env)
  {
    var list, k := [x] + rest, FindIndex(rest, epoch, h.num);
    FindBehind(x, rest, epoch, h.num);
    if k < |rest| {
      assert list[k + 1] == rest[k];
    } else {
      var (m, st) := MsgAfterSet(NewMsg(h.length), epoch, h.num, h.htype, h.length, h.off, data, env.alloc, env.junk);
      if st == Ok {
        NewIdentity(epoch, h, data, env);
        InsertBehind(x, rest, m);
        SpliceBehind(x, rest, m, InsertIndex(rest, m));
      }
    }
  }

  lemma NewIdentity(epoch: nat, h: Header, data: seq<byte>, env: Env)
    requires h.htype != NO_SHAKE
    ensures
      var (m, st) := MsgAfterSet(NewMsg(h.length), epoch, h.num, h.htype, h.length, h.off, data, env.alloc, env.junk);
      st == Ok ==> m.num == h.num && m.epoch == epoch
  {
  }

  /** The slot with the number of the fragment is the first one of the list. */
  lemma StoreHere(slots: seq<Slot>, start: nat, epoch: nat, i: nat, h: Header, data: seq<byte>, env: Env)
    requires SlotsOK(slots, start, epoch) && i < |slots| && h.num == start + i && h.htype != NO_SHAKE
    requires slots[i].None? ==> env.allocMsg && Offered(slots[i], epoch, h, data, env).1 == Ok
    ensures ListOK(Entries(slots, i))
    ensures Store(Entries(slots, i), epoch, h, data, env) ==
            [Offered(slots[i], epoch, h, data, env).0] + Entries(slots, i + 1)
  {
    EntriesOK(slots, start, epoch, i);
    EntriesOK(slots, start, epoch, i + 1);
    var rest := Entries(slots, i + 1);
    assert forall k :: 0 <= k < |rest| ==> EntryOK(rest[k], start + i + 1, epoch);
    assert SlotOK(slots[i], start + i, epoch);
    EntriesStep(slots, i);
    if slots[i].Some? {
      StoreFound(slots[i].value, rest, epoch, h, data, env);
    } else {
      StoreFirst(rest, epoch, h, data, env);
    }
  }

  lemma EntriesStep(slots: seq<Slot>, p: nat)
    requires p < |slots|
    ensures Entries(slots, p) ==
            if slots[p].Some? then [slots[p].value] + Entries(slots, p + 1) else Entries(slots, p + 1)
  {
  }

  lemma StoreFound(x: Msg, rest: seq<Msg>, epoch: nat, h: Header, data: seq<byte>, env: Env)
    requires ListOK([x] + rest) && x.num == h.num && x.epoch == epoch && Sorted(x.buckets)
    ensures Store([x] + rest, epoch, h, data, env) == [Offered(Some(x), epoch, h, data, env).0] + rest
  {
    var list := [x] + rest;
    assert FindIndex(list, epoch, h.num) == 0;
  }

  lemma StoreFirst(rest: seq<Msg>, epoch: nat, h: Header, data: seq<byte>, env: Env)
    requires ListOK(rest) && (forall k :: 0 <= k < |rest| ==> EntryOK(rest[k], h.num + 1, epoch))
    requires h.htype != NO_SHAKE && env.allocMsg && Offered(None, epoch, h, data, env).1 == Ok
    ensures Store(rest, epoch, h, data, env) == [Offered(None, epoch, h, data, env).0] + rest
  {
    var m := Offered(None, epoch, h, data, env).0;
    FindNone(rest, epoch, h.num);
    NewIdentity(epoch, h, data, env);
    assert rest != [] ==> EntryOK(rest[0], h.num + 1, epoch) && Before(m, rest[0]);
    assert rest[..0] + [m] + rest[0..] == [m] + rest;
  }

  /** Storing a fragment changes its slot. */
  lemma {:induction false} StoreInSlot(slots: seq<Slot>, start: nat, epoch: nat, p: nat, i: nat, h: Header,
                                       data: seq<byte>, env: Env)
    requires SlotsOK(slots, start, epoch) && p <= i < |slots| && h.num == start + i && h.htype != NO_SHAKE
    requires slots[i].None? ==> env.allocMsg && Offered(slots[i], epoch, h, data, env).1 == Ok
    ensures ListOK(Entries(slots, p))
    ensures Store(Entries(slots, p), epoch, h, data, env) ==
            Entries(slots[i := Some(Offered(slots[i], epoch, h, data, env).0)], p)
    decreases i - p
  {
    var slots' := slots[i := Some(Offered(slots[i], epoch, h, data, env).0)];
    EntriesOK(slots, start, epoch, p);
    if p == i {
      StoreHere(slots, start, epoch, i, h, data, env);
      EntriesSame(slots, slots', i + 1);
    } else {
      StoreInSlot(slots, start, epoch, p + 1, i, h, data, env);
      StoreFurther(slots, slots', start, epoch, p, h, data, env);
    }
  }

  lemma StoreFurther(slots: seq<Slot>, slots': seq<Slot>, start: nat, epoch: nat, p: nat, h: Header, data: seq<byte>,
                     env: Env)
    requires SlotsOK(slots, start, epoch) && p < |slots| == |slots'| && slots'[p] == slots[p]
    requires start + p < h.num && h.htype != NO_SHAKE && ListOK(Entries(slots, p + 1))
    requires Store(Entries(slots, p + 1), epoch, h, data, env) == Entries(slots', p + 1)
    ensures ListOK(Entries(slots, p)) && Store(Entries(slots, p), epoch, h, data, env) == Entries(slots', p)
  {
    assert SlotOK(slots[p], start + p, epoch);
    EntriesOK(slots, start, epoch, p);
    EntriesStep(slots, p);
    EntriesStep(slots', p);
    if slots[p].Some? {
      StoreBehind(slots[p].value, Entries(slots, p + 1), epoch, h, data, env);
    }
  }

  // ---------- a receive step ----------

  /** The first p messages were counted, and the next one is not complete. */
  ghost predicate Waiting(slots: seq<Slot>, p: nat)
  {
    p <= |slots| && (forall x :: 0 <= x < p ==> Full(slots[x])) && (p < |slots| ==> !Full(slots[p]))
  }

  /** There is memory, fragments are accepted, and the handlers answer 0 to n messages. */
  ghost predicate Generous(env: Env, n: nat)
  {
    && env.sane && env.epochOk && !env.awaitHello && env.fragments == Accept && !env.async
    && env.alloc && env.allocMsg && AllDone(env, 0, n)
  }

  /** A fragment is stored, and the buffer is processed. */
  lemma PartStored(slots: seq<Slot>, slots': seq<Slot>, start: nat, epoch: nat, all: seq<Accepted>, p: nat, i: nat,
                   h: Header, data: seq<byte>, env: Env)
    requires SlotsOK(slots, start, epoch) && SlotsOK(slots', start, epoch) && Fits(slots', all) && Waiting(slots, p)
    requires p <= i < |slots| && h.num == start + i && h.htype != NO_SHAKE && Generous(env, |slots|)
    requires slots' == slots[i := Some(Offered(slots[i], epoch, h, data, env).0)]
    requires slots[i].None? ==> Offered(slots[i], epoch, h, data, env).1 == Ok
    requires !(h.off == 0 && h.fragLen == h.length && i == p) && |Entries(slots, p)| < POOL_SZ
    ensures ListOK(Entries(slots, p))
    ensures RecvInOrder(Holding(slots, start, all, p), epoch, h, data, env) ==
            (Holding(slots', start, all, NextGap(slots', p)), Success)
  {
    StoreInSlot(slots, start, epoch, p, i, h, data, env);
    BufferProcessed(slots', start, epoch, all, p, env, 0);
    var s := Holding(slots, start, all, p);
    assert s.(list := Entries(slots', p)) == Holding(slots', start, all, p);
  }

  /** A whole copy of the expected message is counted at once; nothing of it was stored. */
  lemma WholeTaken(slots: seq<Slot>, slots': seq<Slot>, start: nat, epoch: nat, all: seq<Accepted>, p: nat, h: Header,
                   data: seq<byte>, env: Env)
    requires SlotsOK(slots, start, epoch) && SlotsOK(slots', start, epoch) && Fits(slots', all)
    requires p < |slots| == |slots'| && slots[p].None? && Full(slots'[p]) && h.num == start + p
    requires forall x :: p < x < |slots| ==> slots'[x] == slots[x]
    requires all[p] == Accepted(h.num, h.htype, data) && Generous(env, |slots|)
    requires h.off == 0 && h.fragLen == h.length
    ensures ListOK(Entries(slots, p))
    ensures RecvInOrder(Holding(slots, start, all, p), epoch, h, data, env) ==
            (Holding(slots', start, all, NextGap(slots', p)), Success)
  {
    EntriesOK(slots, start, epoch, p);
    var s, s' := Holding(slots, start, all, p), Holding(slots', start, all, p + 1);
    WholeCounted(slots, slots', start, all, p);
    BufferProcessed(slots', start, epoch, all, p + 1, env, 1);
    assert OutcomeAt(env, 0) == Done;
    TakenAtOnce(s, s', epoch, h, data, env);
  }

  lemma TakenAtOnce(s: Rx, s': Rx, epoch: nat, h: Header, data: seq<byte>, env: Env)
    requires ListOK(s.list) && h.num == s.expected && s.stateful && s.expected + 1 < 0x1_0000
    requires h.off == 0 && h.fragLen == h.length && !env.async && OutcomeAt(env, 0) == Done
    requires s' == s.(expected := s.expected + 1, log := s.log + [Accepted(h.num, h.htype, data)])
    ensures RecvInOrder(s, epoch, h, data, env) == ProcessBuffered(s', env, 1)
  {
  }

  lemma WholeCounted(slots: seq<Slot>, slots': seq<Slot>, start: nat, all: seq<Accepted>, p: nat)
    requires p < |slots| == |slots'| == |all| && slots[p].None? && start + |slots| < 0x1_0000
    requires forall x :: p < x < |slots| ==> slots'[x] == slots[x]
    ensures
      var s, s' := Holding(slots, start, all, p), Holding(slots', start, all, p + 1);
      s'.list == s.list && s'.expected == s.expected + 1 && s'.log == s.log + [all[p]] && s'.base == s.base
  {
    EntriesStep(slots, p);
    EntriesSame(slots, slots', p + 1);
    assert all[..p + 1] == all[..p] + [all[p]];
  }

  /** A fragment of a message that was counted is discarded. */
  lemma OldDiscarded(slots: seq<Slot>, start: nat, epoch: nat, all: seq<Accepted>, p: nat, h: Header, data: seq<byte>,
                     env: Env)
    requires SlotsOK(slots, start, epoch) && p <= |slots| == |all| && h.num < start + p && Waiting(slots, p)
    ensures ListOK(Entries(slots, p))
    ensures RecvInOrder(Holding(slots, start, all, p), epoch, h, data, env) ==
            (Holding(slots, start, all, NextGap(slots, p)), Success)
  {
    EntriesOK(slots, start, epoch, p);
  }
}
