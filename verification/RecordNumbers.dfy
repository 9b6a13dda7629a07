/**
 Recovering the full record number: Dtls13ReconstructSeqNumber, Dtls13ReconstructEpochNumber, and the way of a
 number from the sender's header to the receiver (section 4.2.2 of RFC 9147).
 */
module RecordNumbers {
  import opened Bytes
  import opened Epochs
  import opened Options
  import opened UnifiedHeader

  // ---------- sequence numbers ----------

  /** The arithmetic of Dtls13ReconstructSeqNumber for a field of the given range. */
  function Nearest(expected: word64, low: nat, shift: nat): word64
    requires (shift == 0x100 || shift == 0x1_0000) && low < shift
  {
    var expectedLow := expected % shift;
    var guess: int := expected - expectedLow + low;
    if low >= expectedLow then
      if low - expectedLow > shift / 2 && guess >= shift then guess - shift else guess
    else if expectedLow - low > shift / 2 && guess + shift < 0x1_0000_0000_0000_0000 then guess + shift
    else guess
  }

  /** Dtls13ReconstructSeqNumber */
  function ReconstructSeq(expected: word64, info: Info): word64
  {
    if info.hiPresent then Nearest(expected, (info.hi as int) * 0x100 + info.lo, 0x1_0000)
    else Nearest(expected, info.lo, 0x100)
  }

  function Gap(a: int, b: int): nat { if a >= b then a - b else b - a }

  lemma Congruent(a: int, b: int)
    ensures a % 0x100 == b % 0x100 && a != b ==> Gap(a, b) >= 0x100
    ensures a % 0x1_0000 == b % 0x1_0000 && a != b ==> Gap(a, b) >= 0x1_0000
  {
  }

  lemma NearestLow(expected: word64, low: nat, shift: nat)
    requires (shift == 0x100 || shift == 0x1_0000) && low < shift
    ensures Nearest(expected, low, shift) % shift == low
  {
    if shift == 0x100 {
      LowOf(expected / 0x100, low);
    } else {
      LowOf16(expected / 0x1_0000, low);
    }
  }

  lemma LowOf(q: nat, low: nat)
    requires low < 0x100
    ensures (q * 0x100 + low) % 0x100 == low
    ensures ((q + 1) * 0x100 + low) % 0x100 == low
    ensures ((q - 1) * 0x100 + low) % 0x100 == low
  {
  }

  lemma LowOf16(q: nat, low: nat)
    requires low < 0x1_0000
    ensures (q * 0x1_0000 + low) % 0x1_0000 == low
    ensures ((q + 1) * 0x1_0000 + low) % 0x1_0000 == low
    ensures ((q - 1) * 0x1_0000 + low) % 0x1_0000 == low
  {
  }

  /** The result has the received low bits, and no 64-bit number with those bits is nearer to the expected one. */
  lemma NoneNearer(expected: word64, low: nat, shift: nat, v: word64)
    requires (shift == 0x100 || shift == 0x1_0000) && low < shift && v % shift == low
    ensures Nearest(expected, low, shift) % shift == low
    ensures Gap(Nearest(expected, low, shift), expected) <= Gap(v, expected)
  {
    var r := Nearest(expected, low, shift);
    NearestLow(expected, low, shift);
    Congruent(r, v);
  }

  /** Whether the low bits of a number suffice to recover it. */
  predicate Recoverable(expected: word64, seqNumber: word64, shift: nat)
    requires shift == 0x100 || shift == 0x1_0000
  {
    || Gap(seqNumber, expected) < shift / 2
    || (&& seqNumber / shift == expected / shift
        && (|| Gap(seqNumber, expected) == shift / 2
            || (seqNumber > expected && seqNumber < shift)
            || (seqNumber < expected && seqNumber >= 0x1_0000_0000_0000_0000 - shift)))
  }

  lemma Split(n: nat)
    ensures n == n / 0x100 * 0x100 + n % 0x100 && n == n / 0x1_0000 * 0x1_0000 + n % 0x1_0000
  {
  }

  /** Exactly the numbers that come back from their low bits, near 0 and near 2^64 included. */
  lemma RecoveredIff(expected: word64, seqNumber: word64, shift: nat)
    requires shift == 0x100 || shift == 0x1_0000
    ensures Nearest(expected, seqNumber % shift, shift) == seqNumber <==> Recoverable(expected, seqNumber, shift)
  {
    Split(expected);
    Split(seqNumber);
    if shift == 0x100 {
      RecoveredIff8(expected, seqNumber);
    } else {
      RecoveredIff16(expected, seqNumber);
    }
  }

  lemma RecoveredIff8(expected: word64, seqNumber: word64)
    ensures Nearest(expected, seqNumber % 0x100, 0x100) == seqNumber <==> Recoverable(expected, seqNumber, 0x100)
  {
    var low, expectedLow, q, p := seqNumber % 0x100, expected % 0x100, seqNumber / 0x100, expected / 0x100;
    assert Nearest(expected, low, 0x100) ==
      if low - expectedLow > 0x80 && p > 0 then (p - 1) * 0x100 + low
      else if expectedLow - low > 0x80 && p < 0xFF_FFFF_FFFF_FFFF then (p + 1) * 0x100 + low
      else p * 0x100 + low;
  }

  lemma RecoveredIff16(expected: word64, seqNumber: word64)
    ensures Nearest(expected, seqNumber % 0x1_0000, 0x1_0000) == seqNumber <==>
            Recoverable(expected, seqNumber, 0x1_0000)
  {
    var low, expectedLow, q, p := seqNumber % 0x1_0000, expected % 0x1_0000, seqNumber / 0x1_0000, expected / 0x1_0000;
    assert Nearest(expected, low, 0x1_0000) ==
      if low - expectedLow > 0x8000 && p > 0 then (p - 1) * 0x1_0000 + low
      else if expectedLow - low > 0x8000 && p < 0xFFFF_FFFF_FFFF then (p + 1) * 0x1_0000 + low
      else p * 0x1_0000 + low;
  }

  // ---------- epochs ----------

  predicate Candidate(s: Slot, bits: byte)
  {
    s.isValid && EpochBits(s.number) == bits
  }

  /** The highest valid nonzero epoch with the bits, or 0. */
  function Highest(slots: seq<Slot>, bits: byte): (h: word64)
    ensures forall i :: 0 <= i < |slots| && Candidate(slots[i], bits) ==> slots[i].number <= h
    ensures h != 0 ==> exists i :: 0 <= i < |slots| && Candidate(slots[i], bits) && slots[i].number == h
  {
    if slots == [] then 0
    else
      var last := slots[|slots| - 1];
      var h := Highest(slots[..|slots| - 1], bits);
      if Candidate(last, bits) && last.number > h then last.number else h
  }

  /** Dtls13ReconstructEpochNumber; None is SEQUENCE_ERROR. */
  function ReconstructEpoch(slots: seq<Slot>, peer: word64, bits: byte): Option<word64>
  {
    if EpochBits(peer) == bits then Some(peer)
    else if Highest(slots, bits) == 0 then None
    else Some(Highest(slots, bits))
  }

  ghost predicate EpochKnown(slots: seq<Slot>, peer: word64, epoch: word64)
  {
    || epoch == peer
    || (&& EpochBits(peer) != EpochBits(epoch) && epoch != 0
        && (exists i :: 0 <= i < |slots| && slots[i].isValid && slots[i].number == epoch)
        && forall i :: 0 <= i < |slots| && Candidate(slots[i], EpochBits(epoch)) ==> slots[i].number <= epoch)
  }

  /** The two bits recover the sender's epoch exactly when it is the peer epoch, or the highest one with those bits. */
  lemma EpochRecoveredIff(slots: seq<Slot>, peer: word64, epoch: word64)
    ensures ReconstructEpoch(slots, peer, EpochBits(epoch)) == Some(epoch) <==> EpochKnown(slots, peer, epoch)
  {
    var h := Highest(slots, EpochBits(epoch));
    if EpochKnown(slots, peer, epoch) && epoch != peer {
      var i :| 0 <= i < |slots| && slots[i].isValid && slots[i].number == epoch;
      assert Candidate(slots[i], EpochBits(epoch));
    }
  }

  // ---------- from sender to receiver ----------

  /** The slot whose keys are used: the current one if it has the epoch, else the one Dtls13SetEpochKeys selects. */
  function SlotUsed(slots: seq<Slot>, decryptAt: nat, epoch: word64): (r: Option<nat>)
    requires decryptAt < |slots|
    ensures r.Some? ==> r.value < |slots|
  {
    if slots[decryptAt].number == epoch then Some(decryptAt) else Select(slots, epoch, DecryptOnly)
  }

  /** Dtls13GetUnifiedHeaderSize */
  function HeaderSize(flags: byte, cidSz: nat): nat
  {
    2 + cidSz + (if HasSeq16(flags) then 1 else 0) + if HasLength(flags) then 2 else 0
  }

  function RxCidSize(rx: RxCid): nat { if rx.NotEnabled? then 0 else |rx.id| }

  /** GetDtls13RecordHeader: the epoch and number a record is taken to have, or None when it is dropped. */
  function Received(input: seq<byte>, rx: RxCid, nullCipher: bool, masks: word64 -> Mask, slots: seq<Slot>,
                    peer: word64, decryptAt: nat): Option<(word64, word64)>
    requires decryptAt < |slots|
  {
    if |input| < 2 then None
    else
      var epoch := ReconstructEpoch(slots, peer, input[0] % 4);
      if epoch.None? || epoch.value == 0 then None
      else
        var at := SlotUsed(slots, decryptAt, epoch.value);
        if at.None? || |input| < HeaderSize(input[0], RxCidSize(rx)) + RN_MASK_SIZE then None
        else
          var parsed := Parse(input, rx, nullCipher, masks(epoch.value));
          if parsed.Read? then Some((epoch.value, ReconstructSeq(slots[at.value].nextPeerSeq, parsed.info))) else None
  }

  /** What decides about a record whose header was parsed to info. */
  lemma Decided(input: seq<byte>, rx: RxCid, nullCipher: bool, masks: word64 -> Mask, slots: seq<Slot>, peer: word64,
                decryptAt: nat, epoch: word64, seqNumber: word64, info: Info)
    requires decryptAt < |slots| && |input| >= 2 && input[0] % 4 == EpochBits(epoch)
    requires Parse(input, rx, nullCipher, masks(epoch)).Read? && Parse(input, rx, nullCipher, masks(epoch)).info == info
    requires info.hiPresent && (info.hi as int) * 0x100 + info.lo == seqNumber % 0x1_0000
    ensures
      var at := SlotUsed(slots, decryptAt, epoch);
      Received(input, rx, nullCipher, masks, slots, peer, decryptAt) == Some((epoch, seqNumber)) <==>
        && epoch != 0 && EpochKnown(slots, peer, epoch) && at.Some?
        && Recoverable(slots[at.value].nextPeerSeq, seqNumber, 0x1_0000)
        && |input| >= HeaderSize(input[0], RxCidSize(rx)) + RN_MASK_SIZE
  {
    EpochRecoveredIff(slots, peer, epoch);
    var at := SlotUsed(slots, decryptAt, epoch);
    if at.Some? {
      RecoveredIff(slots[at.value].nextPeerSeq, seqNumber, 0x1_0000);
    }
  }

  /**
   Sent with matching connection ids and the same mask, a record is given its sender's epoch and full 64-bit
   number exactly when the epoch is known from its two bits and open for decryption, the number from its low
   16 bits, and there are 16 bytes of ciphertext.
   */
  lemma RecordNumberRoundTrip(epoch: word64, seqNumber: word64, cid: seq<byte>, body: seq<byte>, rx: RxCid,
                              nullCipher: bool, masks: word64 -> Mask, slots: seq<Slot>, peer: word64, decryptAt: nat)
    requires |body| < 0x1_0000 && (nullCipher || |body| >= RN_MASK_SIZE) && CidMatches(cid, rx) && decryptAt < |slots|
    ensures
      var sent := EncryptNumber(Plain(epoch, seqNumber, cid, body), |cid|, nullCipher, masks(epoch));
      var at := SlotUsed(slots, decryptAt, epoch);
      && sent.Record?
      && (Received(sent.bytes, rx, nullCipher, masks, slots, peer, decryptAt) == Some((epoch, seqNumber)) <==>
          && epoch != 0 && EpochKnown(slots, peer, epoch) && at.Some?
          && Recoverable(slots[at.value].nextPeerSeq, seqNumber, 0x1_0000)
          && |body| >= RN_MASK_SIZE)
  {
    var plain := Plain(epoch, seqNumber, cid, body);
    HeaderRoundTrip(epoch, seqNumber, cid, body, rx, nullCipher, masks(epoch));
    PlainParts(epoch, seqNumber, cid, body);
    NumberRead(seqNumber);
    var sent := EncryptNumber(plain, |cid|, nullCipher, masks(epoch)).bytes;
    assert sent[0] == plain[0] && |sent| == |plain|;
    var info := Info(EpochBits(epoch), |body|, true, NumberBytes(seqNumber)[0], NumberBytes(seqNumber)[1]);
    Decided(sent, rx, nullCipher, masks, slots, peer, decryptAt, epoch, seqNumber, info);
  }

  lemma NumberRead(seqNumber: word64)
    ensures (NumberBytes(seqNumber)[0] as int) * 0x100 + NumberBytes(seqNumber)[1] == seqNumber % 0x1_0000
  {
  }

  /** A gap below 2^15 is always enough. */
  lemma SmallGapRecovers(expected: word64, seqNumber: word64)
    requires Gap(seqNumber, expected) < 0x8000
    ensures Nearest(expected, seqNumber % 0x1_0000, 0x1_0000) == seqNumber
  {
    RecoveredIff(expected, seqNumber, 0x1_0000);
  }
}
