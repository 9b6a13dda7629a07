/** The unified header written, masked and parsed in the record buffer itself, and the search over the epoch table. */
module HeaderBuffers {
  import opened Buffers
  import opened Bytes
  import opened Epochs
  import opened Options
  import opened RecordNumbers
  import opened UnifiedHeader

  /** Dtls13RlAddCiphertextHeader */
  method AddCiphertextHeader(out: array<byte>, epoch: word64, nextSeqNumber: word64, cid: seq<byte>, length: word16)
    requires 5 + |cid| <= out.Length
    modifies out
    ensures out[..5 + |cid|] == Header(epoch, nextSeqNumber, cid, length)
    ensures forall i :: 5 + |cid| <= i < out.Length ==> out[i] == old(out[i])
  {
    var flags: byte := 0x20 + EpochBits(epoch);
    var idx := 1;
    if cid != [] {
      flags := flags + 0x10;
      WriteBytes(out, idx, cid);
      idx := idx + |cid|;
    }
    out[0] := flags + 0x08 + 0x04;
    WriteBytes(out, idx, Put16(nextSeqNumber % 0x1_0000));
    WriteBytes(out, idx + 2, Put16(length));
    ghost var h := Header(epoch, nextSeqNumber, cid, length);
    forall i | 0 <= i < 5 + |cid|
      ensures out[i] == h[i]
    {
      assert idx <= i < idx + 2 ==> out[i] == Put16(nextSeqNumber % 0x1_0000)[i - idx];
    }
  }

  /** xorbuf */
  method XorBuffer(a: array<byte>, at: nat, n: nat, m: (byte, byte))
    requires at + n <= a.Length && 1 <= n <= 2
    modifies a
    ensures a[..] == XorAt(old(a[..]), at, n, m)
  {
    a[at] := Xor(a[at], m.0);
    if n == 2 {
      a[at + 1] := Xor(a[at + 1], m.1);
    }
  }

  /** Dtls13EncryptRecordNumber over a buffer that holds exactly the record. */
  method EncryptRecordNumber(rec: array<byte>, cidSz: nat, nullCipher: bool, mask: Mask) returns (ok: bool)
    modifies rec
    ensures ok == EncryptNumber(old(rec[..]), cidSz, nullCipher, mask).Record?
    ensures rec[..] == if ok then EncryptNumber(old(rec[..]), cidSz, nullCipher, mask).bytes else old(rec[..])
  {
    if nullCipher {
      return true;
    }
    if rec.Length < 5 + cidSz + RN_MASK_SIZE {
      return false;
    }
    var seqLength := if HasLength(rec[0]) then 2 else 1;
    var hdrLength := 1 + seqLength + cidSz;
    if HasLength(rec[0]) {
      hdrLength := hdrLength + 2;
    }
    var m := mask(rec[hdrLength..hdrLength + RN_MASK_SIZE]);
    assert rec[..][hdrLength..hdrLength + RN_MASK_SIZE] == rec[hdrLength..hdrLength + RN_MASK_SIZE];
    XorBuffer(rec, 1 + cidSz, seqLength, m);
    ok := true;
  }

  /** Dtls13ParseUnifiedRecordLayer: on success the record number in the buffer is unmasked. */
  method ParseUnifiedRecordLayer(input: array<byte>, rx: RxCid, nullCipher: bool, mask: Mask) returns (res: Parsed)
    modifies input
    ensures res == Parse(old(input[..]), rx, nullCipher, mask)
    ensures input[..] == if res.Read? then res.input else old(input[..])
  {
    if input.Length < 1 {
      return BadArgument;
    }
    var whole := input[..];
    var at := AfterCid(whole, rx);
    if at == 0 {
      return CidError;
    }
    var flags := whole[0];
    var idx := at + if HasSeq16(flags) then 2 else 1;
    if input.Length < idx {
      return BufferError;
    }
    var recordLength: nat;
    var lenAt := idx;
    if HasLength(flags) {
      if input.Length < idx + 2 {
        return BufferError;
      }
      recordLength := Get16(whole[idx..idx + 2]);
      idx := idx + 2;
    } else {
      recordLength := input.Length - idx;
    }
    if !nullCipher {
      if recordLength < RN_MASK_SIZE {
        return LengthError;
      }
      if input.Length < idx + RN_MASK_SIZE {
        return BufferError;
      }
      XorBuffer(input, at, lenAt - at, mask(whole[idx..idx + RN_MASK_SIZE]));
    }
    res := Read(InfoOf(flags, recordLength, input[..][at..lenAt]), input[..]);
  }

  /** Dtls13ReconstructEpochNumber */
  method ReconstructEpochNumber(slots: array<Slot>, peer: word64, bits: byte) returns (epoch: Option<word64>)
    ensures epoch == ReconstructEpoch(slots[..], peer, bits)
  {
    if EpochBits(peer) == bits {
      return Some(peer);
    }
    var h: word64 := 0;
    var found := false;
    var i := 0;
    while i < slots.Length
      invariant i <= slots.Length && h == Highest(slots[..i], bits) && (found <==> h != 0)
    {
      assert slots[..i + 1][..i] == slots[..i];
      var e := slots[i];
      if e.isValid && EpochBits(e.number) == bits && e.number > h {
        found, h := true, e.number;
      }
      i := i + 1;
    }
    assert slots[..i] == slots[..];
    epoch := if found then Some(h) else None;
  }
}
