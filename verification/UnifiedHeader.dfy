/**
 The compressed record header of DTLS 1.3 (section 4 of RFC 9147) and the masking of the record number in it
 (section 4.2.3): Dtls13RlAddCiphertextHeader, Dtls13EncryptRecordNumber, Dtls13ParseUnifiedRecordLayer and
 Dtls13IsUnifiedHeader.  The mask is an uninterpreted function of the first 16 ciphertext bytes; only its
 first two bytes are used.
 */
module UnifiedHeader {
  import opened Bytes

  const RN_MASK_SIZE := 16

  type Mask = seq<byte> -> (byte, byte)

  // ---------- the first byte ----------

  predicate HasCid(flags: byte) { flags / 0x10 % 2 == 1 }

  predicate HasSeq16(flags: byte) { flags / 0x08 % 2 == 1 }

  predicate HasLength(flags: byte) { flags / 0x04 % 2 == 1 }

  /** Dtls13GetEpochBits */
  function EpochBits(n: word64): byte { n % 4 }

  /** The first byte as the code writes it: a 16-bit number and a length, always. */
  function Flags(bits: byte, cid: bool): (flags: byte)
    requires bits < 4
    ensures HasCid(flags) == cid && HasSeq16(flags) && HasLength(flags) && flags % 4 == bits && flags / 0x20 == 1
  {
    0x20 + (if cid then 0x10 else 0) + 0x08 + 0x04 + bits
  }

  /** Dtls13IsUnifiedHeader, with the mask 0x111 << 5 and the three types that are never compressed. */
  predicate IsUnifiedHeader(b: byte)
  {
    b != 21 && b != 22 && b != 26 && ((b as bv16) & 0x2220) == 0x0020
  }

  /** The mask leaves one bit of a byte: the two bits above it are not looked at. */
  lemma OneBitTested(b: byte)
    ensures IsUnifiedHeader(b) <==> b / 0x20 % 2 == 1
  {
    var v := b as bv16;
    assert (v & 0x2220) == 0x20 <==> (v / 32) % 2 == 1 || v >= 0x200 by {
      assert v < 0x100;
    }
  }

  /** The test agrees with the three fixed bits 001 of section 4 of RFC 9147 unless one of the upper two is set too. */
  lemma FixedBitsExact(b: byte)
    ensures (IsUnifiedHeader(b) <==> b / 0x20 == 1) <==> b < 0x40 || b / 0x20 % 2 == 0
  {
    OneBitTested(b);
  }

  lemma FixedBitsMissed()
    ensures IsUnifiedHeader(0x60) && 0x60 / 0x20 != 1
  {
    OneBitTested(0x60);
  }

  // ---------- exclusive or ----------

  /** Bitwise exclusive or of the k low bits. */
  function XorBits(a: nat, b: nat, k: nat): nat
  {
    if k == 0 then 0 else 2 * XorBits(a / 2, b / 2, k - 1) + (a + b) % 2
  }

  function Pow2(k: nat): nat { if k == 0 then 1 else 2 * Pow2(k - 1) }

  lemma {:induction false} XorBitsTwice(a: nat, b: nat, k: nat)
    requires a < Pow2(k)
    ensures XorBits(a, b, k) < Pow2(k) && XorBits(XorBits(a, b, k), b, k) == a
  {
    if k > 0 {
      var q, d := XorBits(a / 2, b / 2, k - 1), (a + b) % 2;
      XorBitsTwice(a / 2, b / 2, k - 1);
      Halves(q, d);
      Parity(a, b, 2 * q + d);
      assert XorBits(2 * q + d, b, k) == 2 * XorBits(q, b / 2, k - 1) + (2 * q + d + b) % 2;
    }
  }

  lemma Halves(q: nat, d: nat)
    requires d < 2
    ensures (2 * q + d) / 2 == q && (2 * q + d) % 2 == d
  {
  }

  lemma Parity(a: nat, b: nat, r: nat)
    requires r % 2 == (a + b) % 2
    ensures (r + b) % 2 == a % 2
  {
  }

  lemma ByteBits()
    ensures Pow2(8) == 0x100
  {
    assert Pow2(4) == 16;
  }

  function Xor(a: byte, b: byte): byte
  {
    ByteBits();
    XorBitsTwice(a, b, 8);
    XorBits(a, b, 8)
  }

  lemma XorTwice(a: byte, b: byte)
    ensures Xor(Xor(a, b), b) == a
  {
    ByteBits();
    XorBitsTwice(a, b, 8);
  }

  /** xorbuf over the n bytes of a record number. */
  function XorAt(s: seq<byte>, at: nat, n: nat, m: (byte, byte)): (r: seq<byte>)
    requires at + n <= |s| && 1 <= n <= 2
    ensures |r| == |s| && forall i :: 0 <= i < |s| && !(at <= i < at + n) ==> r[i] == s[i]
  {
    var r := s[at := Xor(s[at], m.0)];
    if n == 2 then r[at + 1 := Xor(s[at + 1], m.1)] else r
  }

  lemma XorAtTwice(s: seq<byte>, at: nat, n: nat, m: (byte, byte))
    requires at + n <= |s| && 1 <= n <= 2
    ensures XorAt(XorAt(s, at, n, m), at, n, m) == s
  {
    XorTwice(s[at], m.0);
    if n == 2 {
      XorTwice(s[at + 1], m.1);
    }
  }

  // ---------- writing ----------

  /** Dtls13RlAddCiphertextHeader; cid is empty when none is negotiated. */
  function Header(epoch: word64, seqNumber: word64, cid: seq<byte>, length: word16): (s: seq<byte>)
    ensures |s| == 5 + |cid|
  {
    [Flags(EpochBits(epoch), cid != [])] + cid + Put16(seqNumber % 0x1_0000) + Put16(length)
  }

  datatype Masked = Record(bytes: seq<byte>) | TooShort

  /** Dtls13EncryptRecordNumber: the width of the number is taken from the length bit. */
  function EncryptNumber(record: seq<byte>, cidSz: nat, nullCipher: bool, mask: Mask): Masked
  {
    if nullCipher then Record(record)
    else if |record| < 5 + cidSz + RN_MASK_SIZE then TooShort
    else
      var seqLength := if HasLength(record[0]) then 2 else 1;
      var at := 1 + cidSz;
      var body := at + seqLength + if HasLength(record[0]) then 2 else 0;
      Record(XorAt(record, at, seqLength, mask(record[body..body + RN_MASK_SIZE])))
  }

  // ---------- parsing ----------

  datatype RxCid = NotEnabled | Enabled(id: seq<byte>)

  datatype Info = Info(epochBits: byte, recordLength: nat, hiPresent: bool, hi: byte, lo: byte)

  datatype Parsed =
    | Read(info: Info, input: seq<byte>)
    | BadArgument
    | CidError
    | BufferError
    | LengthError

  /** Dtls13UnifiedHeaderParseCID: where the record number starts, or 0 for an error. */
  function AfterCid(input: seq<byte>, rx: RxCid): (at: nat)
    requires |input| >= 1
    ensures at <= |input|
  {
    if HasCid(input[0]) then
      if rx.NotEnabled? || rx.id == [] || |input| - 1 < |rx.id| || input[1..1 + |rx.id|] != rx.id then 0
      else 1 + |rx.id|
    else if rx.Enabled? && rx.id != [] then 0
    else 1
  }

  function InfoOf(flags: byte, recordLength: nat, number: seq<byte>): Info
    requires |number| == if HasSeq16(flags) then 2 else 1
  {
    if HasSeq16(flags) then Info(flags % 4, recordLength, true, number[0], number[1])
    else Info(flags % 4, recordLength, false, 0, number[0])
  }

  /** Dtls13ParseUnifiedRecordLayer: the header, and the input with the record number unmasked in place. */
  function Parse(input: seq<byte>, rx: RxCid, nullCipher: bool, mask: Mask): Parsed
  {
    if |input| < 1 then BadArgument
    else
      var at := AfterCid(input, rx);
      var flags := input[0];
      var seqLen := if HasSeq16(flags) then 2 else 1;
      var lenAt := at + seqLen;
      if at == 0 then CidError
      else if |input| < lenAt || (HasLength(flags) && |input| < lenAt + 2) then BufferError
      else
        var body := if HasLength(flags) then lenAt + 2 else lenAt;
        var recordLength: int := if HasLength(flags) then Get16(input[lenAt..body]) else |input| - lenAt;
        if nullCipher then Read(InfoOf(flags, recordLength, input[at..lenAt]), input)
        else if recordLength < RN_MASK_SIZE then LengthError
        else if |input| < body + RN_MASK_SIZE then BufferError
        else
          var plain := XorAt(input, at, seqLen, mask(input[body..body + RN_MASK_SIZE]));
          Read(InfoOf(flags, recordLength, plain[at..lenAt]), plain)
  }

  predicate CidMatches(cid: seq<byte>, rx: RxCid)
  {
    if cid == [] then rx.NotEnabled? || rx.id == [] else rx.Enabled? && rx.id == cid
  }

  /** The record a sender builds before masking. */
  function Plain(epoch: word64, seqNumber: word64, cid: seq<byte>, body: seq<byte>): (s: seq<byte>)
    requires |body| < 0x1_0000
    ensures |s| == 5 + |cid| + |body|
  {
    Header(epoch, seqNumber, cid, |body|) + body
  }

  lemma PlainParts(epoch: word64, seqNumber: word64, cid: seq<byte>, body: seq<byte>)
    requires |body| < 0x1_0000
    ensures
      var p, c := Plain(epoch, seqNumber, cid, body), |cid|;
      && p[0] == Flags(EpochBits(epoch), cid != []) && p[1..1 + c] == cid
      && p[1 + c..3 + c] == Put16(seqNumber % 0x1_0000)
      && p[3 + c..5 + c] == Put16(|body|) && p[5 + c..] == body
  {
    var h := Header(epoch, seqNumber, cid, |body|);
    var p, c := Plain(epoch, seqNumber, cid, body), |cid|;
    assert p[..5 + c] == h && h[1..1 + c] == cid;
    assert h[1 + c..3 + c] == Put16(seqNumber % 0x1_0000) && h[3 + c..5 + c] == Put16(|body|);
    assert p[1..1 + c] == p[..5 + c][1..1 + c] && p[1 + c..3 + c] == p[..5 + c][1 + c..3 + c];
    assert p[3 + c..5 + c] == p[..5 + c][3 + c..5 + c];
  }

  function NumberBytes(seqNumber: word64): (s: seq<byte>)
    ensures |s| == 2
  {
    Put16(seqNumber % 0x1_0000)
  }

  /**
   Written, masked, parsed: the receiver gets the epoch bits, the length and the low 16 bits of the number, and
   the header it keeps (which the record protection covers) is the unmasked one of the sender.
   */
  lemma HeaderRoundTrip(epoch: word64, seqNumber: word64, cid: seq<byte>, body: seq<byte>, rx: RxCid, nullCipher: bool,
                        mask: Mask)
    requires |body| < 0x1_0000 && (nullCipher || |body| >= RN_MASK_SIZE) && CidMatches(cid, rx)
    ensures
      var plain := Plain(epoch, seqNumber, cid, body);
      var sent := EncryptNumber(plain, |cid|, nullCipher, mask);
      && sent.Record?
      && Parse(sent.bytes, rx, nullCipher, mask) ==
         Read(Info(EpochBits(epoch), |body|, true, NumberBytes(seqNumber)[0], NumberBytes(seqNumber)[1]), plain)
  {
    var plain, c := Plain(epoch, seqNumber, cid, body), |cid|;
    PlainParts(epoch, seqNumber, cid, body);
    var sent := EncryptNumber(plain, c, nullCipher, mask).bytes;
    if nullCipher {
      ParsePlain(sent, plain, cid, |body|, rx, nullCipher, mask);
    } else {
      var m := mask(plain[5 + c..5 + c + RN_MASK_SIZE]);
      assert sent == XorAt(plain, 1 + c, 2, m);
      XorAtTwice(plain, 1 + c, 2, m);
      assert sent[5 + c..5 + c + RN_MASK_SIZE] == plain[5 + c..5 + c + RN_MASK_SIZE];
      assert sent[1..1 + c] == plain[1..1 + c] && sent[3 + c..5 + c] == plain[3 + c..5 + c];
      ParsePlain(sent, plain, cid, |body|, rx, nullCipher, mask);
    }
  }

  /** Parsing a record whose header has a matching connection id, a 16-bit number and a length. */
  lemma ParsePlain(sent: seq<byte>, plain: seq<byte>, cid: seq<byte>, length: word16, rx: RxCid, nullCipher: bool,
                   mask: Mask)
    requires |sent| == |plain| == 5 + |cid| + length && (nullCipher || length >= RN_MASK_SIZE) && CidMatches(cid, rx)
    requires HasSeq16(sent[0]) && HasLength(sent[0]) && (HasCid(sent[0]) <==> cid != [])
    requires sent[1..1 + |cid|] == cid && sent[3 + |cid|..5 + |cid|] == Put16(length)
    requires if nullCipher then sent == plain
             else XorAt(sent, 1 + |cid|, 2, mask(sent[5 + |cid|..5 + |cid| + RN_MASK_SIZE])) == plain
    ensures Parse(sent, rx, nullCipher, mask) ==
      Read(Info(sent[0] % 4, length, true, plain[1 + |cid|], plain[2 + |cid|]), plain)
  {
    assert AfterCid(sent, rx) == 1 + |cid|;
    assert Get16(Put16(length)) == length;
    assert plain[1 + |cid|..3 + |cid|][0] == plain[1 + |cid|] && plain[1 + |cid|..3 + |cid|][1] == plain[2 + |cid|];
  }
}
