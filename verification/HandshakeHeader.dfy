/** The 12-byte DTLS handshake header: Dtls13HandshakeAddHeaderFrag and GetDtlsHandShakeHeader. */
module HandshakeHeader {
  import opened Bytes

  const HEADER_SZ := 12

  datatype Header = Header(htype: byte, length: nat, num: word16, off: nat, fragLen: nat)

  datatype Parsed = TooShort | Parsed(h: Header)

  /** Dtls13HandshakeAddHeaderFrag */
  function PutHeader(h: Header): (s: seq<byte>)
    ensures |s| == HEADER_SZ
  {
    [h.htype] + Put24(h.length) + Put16(h.num) + Put24(h.off) + Put24(h.fragLen)
  }

  /** GetDtlsHandShakeHeader */
  function GetHeader(input: seq<byte>): Parsed
  {
    if |input| < HEADER_SZ then TooShort
    else Parsed(Header(input[0], Get24(input[1..4]), Get16(input[4..6]), Get24(input[6..9]), Get24(input[9..12])))
  }

  /** Lengths and offsets below 2^24 survive the header. */
  lemma GetPutHeader(h: Header, rest: seq<byte>)
    requires h.length < 0x100_0000 && h.off < 0x100_0000 && h.fragLen < 0x100_0000
    ensures GetHeader(PutHeader(h) + rest) == Parsed(h)
  {
    var s := PutHeader(h) + rest;
    assert s[1..4] == Put24(h.length);
    assert s[4..6] == Put16(h.num);
    assert s[6..9] == Put24(h.off);
    assert s[9..12] == Put24(h.fragLen);
    GetPut24(h.length);
    GetPut24(h.off);
    GetPut24(h.fragLen);
  }
}
