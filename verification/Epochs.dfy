/**
 The table of key epochs: Dtls13GetEpoch, Dtls13NewEpochSlot, Dtls13NewEpoch, Dtls13SetOlderEpochSide and the
 lookup of Dtls13SetEpochKeys.  Keys themselves are not modelled.
 */
module Epochs {
  import opened Bytes
  import opened Options

  datatype Side = NoSide | EncryptOnly | DecryptOnly | Both

  datatype Slot = Slot(number: word64, isValid: bool, side: Side, nextSeq: word64, nextPeerSeq: word64)

  const BLANK := Slot(0, false, NoSide, 0, 0)

  // ---------- the table as a value ----------

  /** The first valid slot with the number, or the length of the table. */
  function Find(slots: seq<Slot>, n: word64): (i: nat)
    ensures i <= |slots|
    ensures i < |slots| ==> slots[i].isValid && slots[i].number == n
    ensures forall j :: 0 <= j < i ==> !(slots[j].isValid && slots[j].number == n)
  {
    if slots == [] then 0
    else if slots[0].isValid && slots[0].number == n then 0
    else 1 + Find(slots[1..], n)
  }

  predicate Eligible(s: Slot, epoch: word64, peer: word64)
  {
    s.number != epoch && s.number != peer && s.number < 0xFFFF_FFFF_FFFF_FFFF
  }

  /** The loop of Dtls13NewEpochSlot from slot k on, with the candidate found so far. */
  function SlotFrom(slots: seq<Slot>, k: nat, epoch: word64, peer: word64, candidate: int): int
    decreases |slots| - k
  {
    if k >= |slots| then candidate
    else if !slots[k].isValid then k
    else SlotFrom(slots, k + 1, epoch, peer, if Eligible(slots[k], epoch, peer) then k else candidate)
  }

  function SlotFor(slots: seq<Slot>, epoch: word64, peer: word64): int { SlotFrom(slots, 0, epoch, peer, -1) }

  function WithSide(s: Slot, side: Side): Slot
  {
    if !s.isValid then s else if s.side != side then s.(side := Both) else s
  }

  /** Dtls13SetOlderEpochSide */
  function SetOlder(slots: seq<Slot>, n: word64, side: Side): (r: seq<Slot>)
    ensures |r| == |slots|
    ensures forall i :: 0 <= i < |slots| ==>
      r[i] == if slots[i].isValid && slots[i].number < n then slots[i].(side := side) else slots[i]
  {
    seq(|slots|, i requires 0 <= i < |slots| =>
      if slots[i].isValid && slots[i].number < n then slots[i].(side := side) else slots[i])
  }

  /** w64Decrement */
  function Before(n: word64): word64 { if n == 0 then 0xFFFF_FFFF_FFFF_FFFF else n - 1 }

  predicate CanDecrypt(side: Side) { side == Both || side == DecryptOnly }

  /** The slot that Dtls13NewEpoch fills or updates; negative when there is none. */
  function Place(slots: seq<Slot>, epoch: word64, peer: word64, n: word64): (i: int)
  {
    if Find(slots, n) < |slots| then Find(slots, n) else SlotFor(slots, epoch, peer)
  }

  function Filled(s: Slot, n: word64, side: Side, known: bool): Slot
  {
    if known then WithSide(s, side) else BLANK.(number := n, isValid := true, side := side)
  }

  /** The table after slot i was filled or updated, and older epochs sealed. */
  function Installed(slots: seq<Slot>, done: bool, n: word64, side: Side, i: nat): (r: seq<Slot>)
    requires i < |slots|
    ensures |r| == |slots|
    ensures forall j :: 0 <= j < |slots| && j != i ==>
      && r[j].isValid == slots[j].isValid && r[j].number == slots[j].number && r[j].nextSeq == slots[j].nextSeq
  {
    var s := Filled(slots[i], n, side, Find(slots, n) < |slots|);
    if done && CanDecrypt(s.side) then SetOlder(slots[i := s], Before(n), EncryptOnly) else slots[i := s]
  }

  /** Dtls13NewEpoch; None is BAD_STATE_E. */
  function NewEpoch(slots: seq<Slot>, epoch: word64, peer: word64, done: bool, n: word64, side: Side): Option<seq<Slot>>
  {
    var i := Place(slots, epoch, peer, n);
    if 0 <= i < |slots| then Some(Installed(slots, done, n, side, i)) else None
  }

  /** The slot Dtls13SetEpochKeys selects; None is BAD_STATE_E. */
  function Select(slots: seq<Slot>, n: word64, side: Side): Option<nat>
  {
    var i := Find(slots, n);
    if i == |slots| || !(slots[i].side == Both || slots[i].side == side) then None else Some(i)
  }

  // ---------- what every step keeps ----------

  ghost predicate Same(slots: seq<Slot>, i: int, j: int)
    requires 0 <= i < |slots| && 0 <= j < |slots|
  {
    slots[i].isValid && slots[j].isValid && slots[i].number == slots[j].number
  }

  /** Valid slots have distinct numbers. */
  ghost predicate TableOK(slots: seq<Slot>)
  {
    forall i, j :: 0 <= i < j < |slots| ==> !Same(slots, i, j)
  }

  /** The result of the loop of Dtls13NewEpochSlot. */
  lemma {:induction false} SlotFromIs(slots: seq<Slot>, k: nat, epoch: word64, peer: word64, candidate: int)
    requires k <= |slots|
    ensures
      var r := SlotFrom(slots, k, epoch, peer, candidate);
      || (k <= r < |slots| && !slots[r].isValid && forall j :: k <= j < r ==> slots[j].isValid)
      || ((forall j :: k <= j < |slots| ==> slots[j].isValid) &&
          (|| (k <= r < |slots| && Eligible(slots[r], epoch, peer) &&
               forall j :: r < j < |slots| ==> !Eligible(slots[j], epoch, peer))
           || (r == candidate && forall j :: k <= j < |slots| ==> !Eligible(slots[j], epoch, peer))))
    decreases |slots| - k
  {
    if k < |slots| && slots[k].isValid {
      SlotFromIs(slots, k + 1, epoch, peer, if Eligible(slots[k], epoch, peer) then k else candidate);
    }
  }

  /** With four slots, three numbers cannot block all of them. */
  lemma SlotAvailable(slots: seq<Slot>, epoch: word64, peer: word64)
    requires TableOK(slots) && |slots| >= 4
    ensures 0 <= SlotFor(slots, epoch, peer) < |slots|
  {
    SlotFromIs(slots, 0, epoch, peer, -1);
    assert !Same(slots, 0, 1) && !Same(slots, 0, 2) && !Same(slots, 0, 3);
    assert !Same(slots, 1, 2) && !Same(slots, 1, 3) && !Same(slots, 2, 3);
  }

  /** Slot i loses its epoch when number n is installed. */
  ghost predicate Evicts(slots: seq<Slot>, epoch: word64, peer: word64, n: word64, i: nat)
    requires i < |slots|
  {
    && Find(slots, n) == |slots| && (forall j :: 0 <= j < |slots| ==> slots[j].isValid)
    && Eligible(slots[i], epoch, peer) && forall j :: i < j < |slots| ==> !Eligible(slots[j], epoch, peer)
  }

  lemma PlaceFound(slots: seq<Slot>, epoch: word64, peer: word64, n: word64)
    requires TableOK(slots) && |slots| >= 4
    ensures
      var p := Place(slots, epoch, peer, n);
      && 0 <= p < |slots|
      && (forall i :: 0 <= i < |slots| && slots[i].isValid && (i != p || slots[i].number == n) ==>
            !Evicts(slots, epoch, peer, n, i))
      && (slots[p].isValid && slots[p].number != n ==> Evicts(slots, epoch, peer, n, p))
      && (Find(slots, n) < |slots| ==> slots[p].isValid && slots[p].number == n)
  {
    SlotAvailable(slots, epoch, peer);
    SlotFromIs(slots, 0, epoch, peer, -1);
  }

  lemma InstalledTable(slots: seq<Slot>, done: bool, n: word64, side: Side, p: nat)
    requires TableOK(slots) && p < |slots|
    requires Find(slots, n) < |slots| ==> p == Find(slots, n)
    ensures
      var r := Installed(slots, done, n, side, p);
      && TableOK(r) && r[p].isValid && r[p].number == n
      && (slots[p].isValid && slots[p].number == n ==> r[p].nextSeq == slots[p].nextSeq)
  {
    var r := Installed(slots, done, n, side, p);
    forall j, k | 0 <= j < k < |r|
      ensures !Same(r, j, k)
    {
      assert !Same(slots, j, k);
    }
  }

  /** Installing an epoch always succeeds, and takes exactly the slot of the last eligible epoch of a full table. */
  lemma NewEpochSucceeds(slots: seq<Slot>, epoch: word64, peer: word64, done: bool, n: word64, side: Side)
    requires TableOK(slots) && |slots| >= 4
    ensures
      var r := NewEpoch(slots, epoch, peer, done, n, side);
      && r.Some? && |r.value| == |slots| && TableOK(r.value)
      && (exists i :: 0 <= i < |slots| && r.value[i].isValid && r.value[i].number == n)
      && forall i :: 0 <= i < |slots| && slots[i].isValid ==>
           if Evicts(slots, epoch, peer, n, i) then r.value[i].number == n != slots[i].number
           else r.value[i].isValid && r.value[i].number == slots[i].number && r.value[i].nextSeq == slots[i].nextSeq
  {
    PlaceFound(slots, epoch, peer, n);
    var p := Place(slots, epoch, peer, n);
    InstalledTable(slots, done, n, side, p);
    var r := NewEpoch(slots, epoch, peer, done, n, side).value;
    assert r[p].isValid && r[p].number == n;
  }

  /** The current send and peer epochs, and their counters, survive. */
  lemma CurrentEpochsStay(slots: seq<Slot>, epoch: word64, peer: word64, done: bool, n: word64, side: Side, m: word64)
    requires TableOK(slots) && |slots| >= 4 && (m == epoch || m == peer) && Find(slots, m) < |slots|
    ensures
      var r := NewEpoch(slots, epoch, peer, done, n, side);
      && r.Some? && Find(r.value, m) == Find(slots, m)
      && r.value[Find(slots, m)].nextSeq == slots[Find(slots, m)].nextSeq
  {
    NewEpochSucceeds(slots, epoch, peer, done, n, side);
    var r := NewEpoch(slots, epoch, peer, done, n, side).value;
    FindIs(r, m, Find(slots, m));
  }

  lemma FindIs(slots: seq<Slot>, n: word64, i: nat)
    requires TableOK(slots) && i < |slots| && slots[i].isValid && slots[i].number == n
    ensures Find(slots, n) == i
  {
    var j := Find(slots, n);
    assert j < i ==> !Same(slots, j, i);
  }

  // ---------- decryption after the handshake ----------

  /** No epoch below newest - 1 can be selected to decrypt. */
  ghost predicate OldSealed(slots: seq<Slot>, newest: int)
  {
    forall i :: 0 <= i < |slots| && slots[i].isValid && slots[i].number < newest - 1 ==> slots[i].side == EncryptOnly
  }

  lemma SealedSelect(slots: seq<Slot>, newest: int, n: word64)
    requires OldSealed(slots, newest) && n < newest - 1
    ensures Select(slots, n, DecryptOnly) == None
  {
  }

  function Newest(newest: nat, n: word64, side: Side): nat { if CanDecrypt(side) then n else newest }

  lemma NewEpochSeals(slots: seq<Slot>, epoch: word64, peer: word64, n: word64, side: Side, newest: nat)
    requires TableOK(slots) && |slots| >= 4 && OldSealed(slots, newest) && side != NoSide
    requires CanDecrypt(side) ==> n > newest
    ensures
      var r := NewEpoch(slots, epoch, peer, true, n, side);
      r.Some? && OldSealed(r.value, Newest(newest, n, side))
  {
    SlotAvailable(slots, epoch, peer);
  }

  lemma InstalledSides(slots: seq<Slot>, peer: word64, side: Side, p: nat, j: nat)
    requires CanDecrypt(side) && peer < 0xFFFF_FFFF_FFFF_FFFF && p < |slots| && j < |slots| && j != p
    requires slots[j].isValid && slots[j].number == peer
    ensures
      var r := Installed(slots, true, peer + 1, side, p);
      r[j].side == slots[j].side && (r[p].isValid && r[p].number == peer + 1 ==> CanDecrypt(r[p].side))
  {
  }

  /** A decrypting epoch that follows the peer epoch is usable, and so is the peer epoch it follows. */
  lemma PreviousStaysUsable(slots: seq<Slot>, epoch: word64, peer: word64, side: Side)
    requires TableOK(slots) && |slots| >= 4 && CanDecrypt(side) && peer < 0xFFFF_FFFF_FFFF_FFFF
    requires Select(slots, peer, DecryptOnly).Some?
    ensures
      var r := NewEpoch(slots, epoch, peer, true, peer + 1, side);
      r.Some? && Select(r.value, peer, DecryptOnly).Some? && Select(r.value, peer + 1, DecryptOnly).Some?
  {
    var p, j := Place(slots, epoch, peer, peer + 1), Find(slots, peer);
    PlaceFound(slots, epoch, peer, peer + 1);
    var r := Installed(slots, true, peer + 1, side, p);
    InstalledTable(slots, true, peer + 1, side, p);
    assert j != p;
    InstalledSides(slots, peer, side, p, j);
    FindIs(r, peer, j);
    FindIs(r, peer + 1, p);
  }

  /** Installing an epoch while the send and peer epochs are as given. */
  datatype Install = Install(epoch: word64, peer: word64, n: word64, side: Side)

  /** Epochs to decrypt with come in increasing order. */
  predicate Increasing(installs: seq<Install>, newest: nat)
  {
    installs == [] ||
    (&& installs[0].side != NoSide && (CanDecrypt(installs[0].side) ==> installs[0].n > newest)
     && Increasing(installs[1..], Newest(newest, installs[0].n, installs[0].side)))
  }

  function Run(slots: seq<Slot>, installs: seq<Install>): Option<seq<Slot>>
    decreases |installs|
  {
    if installs == [] then Some(slots)
    else
      var r := NewEpoch(slots, installs[0].epoch, installs[0].peer, true, installs[0].n, installs[0].side);
      if r.None? then None else Run(r.value, installs[1..])
  }

  function NewestAfter(newest: nat, installs: seq<Install>): nat
    decreases |installs|
  {
    if installs == [] then newest else NewestAfter(Newest(newest, installs[0].n, installs[0].side), installs[1..])
  }

  /**
   From the end of the handshake on: no installation fails, and what is older than the previous epoch stays sealed.
   */
  lemma {:induction false} OldEpochsStaySealed(slots: seq<Slot>, installs: seq<Install>, newest: nat, n: word64)
    requires TableOK(slots) && |slots| >= 4 && OldSealed(slots, newest) && Increasing(installs, newest)
    ensures Run(slots, installs).Some? && TableOK(Run(slots, installs).value)
    ensures n < NewestAfter(newest, installs) - 1 ==> Select(Run(slots, installs).value, n, DecryptOnly) == None
    decreases |installs|
  {
    if installs == [] {
      if n < newest - 1 {
        SealedSelect(slots, newest, n);
      }
    } else {
      var x := installs[0];
      NewEpochSucceeds(slots, x.epoch, x.peer, true, x.n, x.side);
      NewEpochSeals(slots, x.epoch, x.peer, x.n, x.side, newest);
      var r := NewEpoch(slots, x.epoch, x.peer, true, x.n, x.side).value;
      OldEpochsStaySealed(r, installs[1..], Newest(newest, x.n, x.side), n);
    }
  }
}
