/** The epoch table in memory, with its loops, proved against module Epochs. */
module EpochTable {
  import opened Bytes
  import opened Epochs
  import opened Options

  const DTLS13_EPOCH_SIZE := 4

  class Table {
    const slots: array<Slot>
    /** dtls13Epoch, dtls13PeerEpoch, options.handShakeDone. */
    var epoch: word64
    var peer: word64
    var handShakeDone: bool
    /** dtls13EncryptEpoch and dtls13DecryptEpoch: slots of the table. */
    var encryptAt: nat
    var decryptAt: nat

    ghost predicate Valid()
      reads this, slots
    {
      && slots.Length == DTLS13_EPOCH_SIZE && TableOK(slots[..])
      && encryptAt < slots.Length && decryptAt < slots.Length
      && slots[encryptAt].isValid && slots[decryptAt].isValid
      && forall i :: 0 <= i < slots.Length && !slots[i].isValid ==> slots[i] == BLANK
    }

    /** The unprotected epoch 0 is there from the start. */
    constructor ()
      ensures Valid() && fresh(slots)
      ensures slots[..] == [BLANK.(isValid := true, side := Both), BLANK, BLANK, BLANK]
      ensures epoch == 0 && peer == 0 && !handShakeDone && encryptAt == 0 && decryptAt == 0
    {
      slots := new Slot[DTLS13_EPOCH_SIZE];
      epoch, peer, handShakeDone, encryptAt, decryptAt := 0, 0, false, 0, 0;
      new;
      slots[0], slots[1], slots[2], slots[3] := BLANK.(isValid := true, side := Both), BLANK, BLANK, BLANK;
    }

    /** Dtls13GetEpoch: the slot, or the length of the table when there is none. */
    method GetEpoch(n: word64) returns (i: nat)
      requires Valid()
      ensures i == Find(slots[..], n)
    {
      i := 0;
      while i < slots.Length
        invariant i <= slots.Length
        invariant forall j :: 0 <= j < i ==> !(slots[j].isValid && slots[j].number == n)
      {
        if slots[i].number == n && slots[i].isValid {
          return;
        }
        i := i + 1;
      }
    }

    /** Dtls13SetOlderEpochSide */
    method SetOlderEpochSide(n: word64, side: Side)
      modifies slots
      ensures slots[..] == SetOlder(old(slots[..]), n, side)
    {
      var i := 0;
      while i < slots.Length
        invariant i <= slots.Length
        invariant forall j :: i <= j < slots.Length ==> slots[j] == old(slots[j])
        invariant forall j :: 0 <= j < i ==> slots[j] == SetOlder(old(slots[..]), n, side)[j]
      {
        if slots[i].isValid && slots[i].number < n {
          slots[i] := slots[i].(side := side);
        }
        i := i + 1;
      }
    }

    /** Dtls13NewEpochSlot: oldestNumber stays at its first value, so the last candidate wins. */
    method NewEpochSlot() returns (r: int)
      requires Valid()
      modifies slots
      ensures r == SlotFor(old(slots[..]), epoch, peer)
      ensures slots[..] ==
        if 0 <= r < |old(slots[..])| && old(slots[..])[r].isValid then old(slots[..])[r := BLANK] else old(slots[..])
    {
      var oldestNumber := 0xFFFF_FFFF_FFFF_FFFF;
      var oldest := -1;
      var i := 0;
      while i < slots.Length
        invariant i <= slots.Length && -1 <= oldest < i
        invariant SlotFor(slots[..], epoch, peer) == SlotFrom(slots[..], i, epoch, peer, oldest)
        invariant oldest >= 0 ==> slots[oldest].isValid
      {
        if !slots[i].isValid {
          return i;
        }
        if slots[i].number != epoch && slots[i].number != peer && slots[i].number < oldestNumber {
          oldest := i;
        }
        i := i + 1;
      }
      if oldest >= 0 {
        slots[oldest] := BLANK;
      }
      r := oldest;
    }

    /** Dtls13NewEpoch: with four slots it never reports BAD_STATE_E. */
    method AddEpoch(n: word64, side: Side) returns (ok: bool)
      requires Valid() && side != NoSide
      modifies slots
      ensures ok && NewEpoch(old(slots[..]), epoch, peer, handShakeDone, n, side) == Some(slots[..])
      ensures Valid()
    {
      ghost var was := slots[..];
      PlaceFound(was, epoch, peer, n);
      ghost var p := Place(was, epoch, peer, n);
      InstalledTable(was, handShakeDone, n, side, p);
      var found := GetEpoch(n);
      var e: int := found;
      if e == slots.Length {
        e := NewEpochSlot();
        if e < 0 {
          return false;
        }
      }
      var s := slots[e];
      s := if !s.isValid then s.(number := n, isValid := true, side := side) else WithSide(s, side);
      slots[e] := s;
      assert slots[..] == was[p := Filled(was[p], n, side, found < |was|)];
      if handShakeDone && CanDecrypt(s.side) {
        SetOlderEpochSide(Before(n), EncryptOnly);
      }
      ok := true;
    }

    /** Dtls13SetEpochKeys: which slot the record layer uses from now on. */
    method SetEpochKeys(n: word64, side: Side) returns (ok: bool)
      requires Valid() && side != NoSide
      modifies `encryptAt, `decryptAt
      ensures Valid() && (ok <==> Select(slots[..], n, side).Some?)
      ensures encryptAt == if ok && side != DecryptOnly then Find(slots[..], n) else old(encryptAt)
      ensures decryptAt == if ok && side != EncryptOnly then Find(slots[..], n) else old(decryptAt)
    {
      var e := GetEpoch(n);
      if e == slots.Length {
        return false;
      }
      if slots[e].side != Both && slots[e].side != side {
        return false;
      }
      if side != DecryptOnly {
        encryptAt := e;
      }
      if side != EncryptOnly {
        decryptAt := e;
      }
      ok := true;
    }

    /** Dtls13GetSeq for an outgoing record: on wrap it reports an error but the counter stays at 0. */
    method GetSeq() returns (seqNumber: word64, ok: bool)
      requires Valid()
      modifies slots
      ensures Valid() && seqNumber == old(slots[encryptAt].nextSeq)
      ensures slots[..] == old(slots[..])[encryptAt := old(slots[encryptAt]).(nextSeq := (seqNumber + 1) % TWO64)]
      ensures ok <==> seqNumber != TWO64 - 1
    {
      var s := slots[encryptAt];
      seqNumber := s.nextSeq;
      slots[encryptAt] := s.(nextSeq := (seqNumber + 1) % TWO64);
      ok := slots[encryptAt].nextSeq != 0;
      ghost var was := old(slots[..]);
      forall j, k | 0 <= j < k < |was|
        ensures !Same(slots[..], j, k)
      {
        assert !Same(was, j, k);
      }
    }
  }
}
