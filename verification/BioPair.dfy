/** The ends of a BIO pair as objects that share their ring buffers, proved against module RingBuffer. */
module BioPair {
  import opened Bytes
  import RB = RingBuffer

  const BIO_SIZE := 17000

  /** Copies n bytes between two different buffers. */
  method Copy(dst: array<byte>, to: nat, src: array<byte>, from: nat, n: nat)
    requires dst != src && to + n <= dst.Length && from + n <= src.Length
    modifies dst
    ensures dst[..] == RB.Overwrite(old(dst[..]), to, src[from..from + n])
  {
    var i := 0;
    while i < n
      invariant i <= n
      invariant forall j :: 0 <= j < dst.Length ==>
        dst[j] == if to <= j < to + i then src[from + (j - to)] else old(dst[j])
    {
      dst[to + i] := src[from + i];
      i := i + 1;
    }
  }

  method CopyIn(dst: array<byte>, to: nat, data: seq<byte>)
    requires to + |data| <= dst.Length
    modifies dst
    ensures dst[..] == RB.Overwrite(old(dst[..]), to, data)
  {
    var i := 0;
    while i < |data|
      invariant i <= |data|
      invariant forall j :: 0 <= j < dst.Length ==> dst[j] == if to <= j < to + i then data[j - to] else old(dst[j])
    {
      dst[to + i] := data[i];
      i := i + 1;
    }
  }

  /** The bytes are at the start of the caller's buffer, the rest of it is as it was. */
  ghost predicate Put(was: seq<byte>, now: seq<byte>, bytes: seq<byte>)
  {
    && |bytes| <= |was| == |now| && (forall i :: 0 <= i < |bytes| ==> now[i] == bytes[i])
    && forall i :: |bytes| <= i < |was| ==> now[i] == was[i]
  }

  lemma PutTwice(was: seq<byte>, mid: seq<byte>, now: seq<byte>, first: seq<byte>, bytes: seq<byte>)
    requires Put(was, mid, first) && Put(mid, now, bytes) && |first| <= |bytes|
    ensures Put(was, now, bytes)
  {
  }

  /** A WOLFSSL_BIO of type WOLFSSL_BIO_BIO; wrSz is the length of buf. */
  class Bio {
    var buf: array?<byte>
    var wrIdx: nat
    var rdIdx: nat
    var pair: Bio?
    /** WOLFSSL_BIO_FLAG_READ, _WRITE and _RETRY. */
    var flagRead: bool
    var flagWrite: bool
    var flagRetry: bool

    constructor ()
      ensures buf == null && pair == null && wrIdx == 0 && rdIdx == 0
    {
      buf, wrIdx, rdIdx, pair := null, 0, 0, null;
      flagRead, flagWrite, flagRetry := false, false, false;
    }

    /** What this end has written and its pair reads. */
    ghost function Ring(): RB.Ring
      requires buf != null
      reads this, buf
    {
      RB.Ring(buf[..], wrIdx, rdIdx)
    }

    ghost predicate HasRing()
      reads this, buf
    {
      buf != null && RB.RingOK(Ring())
    }

    ghost function Peer(): Bio
      reads this
    {
      if pair == null then this else pair
    }

    /** wolfSSL_BIO_set_write_buf_size */
    method SetWriteBufSize(size: nat, memory: bool) returns (ok: bool)
      modifies `buf, `wrIdx, `rdIdx
      ensures ok <==> size < 0x8000_0000 && old(pair) == null && memory
      ensures ok ==> HasRing() && fresh(buf) && buf.Length == size && RB.Content(Ring()) == []
      ensures !ok && (size >= 0x8000_0000 || pair != null) ==>
        buf == old(buf) && wrIdx == old(wrIdx) && rdIdx == old(rdIdx)
    {
      if size >= 0x8000_0000 || pair != null {
        return false;
      }
      buf, wrIdx, rdIdx := null, 0, 0;
      if !memory {
        return false;
      }
      buf := new byte[size];
      ok := true;
    }

    /** wolfSSL_BIO_nread0: how much can be read at once, and where it is in the pair's buffer. */
    method NRead0() returns (sz: int, at: nat)
      requires pair != null ==> pair.HasRing()
      ensures pair == null ==> sz == RB.UNSET
      ensures pair != null ==> sz == RB.NRead0(pair.Ring()) && at == pair.rdIdx
    {
      if pair == null {
        return RB.UNSET, 0;
      }
      at := pair.rdIdx;
      if pair.wrIdx > 0 && pair.rdIdx >= pair.wrIdx {
        return pair.buf.Length - pair.rdIdx, at;
      }
      sz := pair.wrIdx - pair.rdIdx;
    }

    /** wolfSSL_BIO_nread */
    method NRead(num: nat) returns (sz: int, at: nat)
      requires pair != null ==> pair.HasRing()
      modifies Peer()`wrIdx, Peer()`rdIdx
      ensures pair == old(pair) && (pair == null ==> sz == RB.UNSET)
      ensures pair != null ==>
        && pair.HasRing() && pair.buf == old(pair.buf)
        && (sz, pair.Ring()) == RB.NRead(old(pair.Ring()), num) && at == old(pair.rdIdx)
    {
      if pair == null {
        return RB.UNSET, 0;
      }
      if num == 0 {
        return 0, pair.rdIdx;
      }
      sz, at := NRead0();
      if sz < 0 {
        return RB.ERROR, at;
      }
      if num < sz {
        sz := num;
      }
      pair.rdIdx := pair.rdIdx + sz;
      if pair.rdIdx == pair.buf.Length {
        pair.rdIdx := 0;
        if pair.wrIdx == pair.buf.Length {
          pair.wrIdx := 0;
        }
      }
      if pair.rdIdx == pair.wrIdx {
        pair.rdIdx, pair.wrIdx := 0, 0;
      }
    }

    /** wolfSSL_BIO_nwrite: the write index moves before the caller copies its bytes. */
    method NWrite(num: nat) returns (sz: int, at: nat)
      requires pair != null ==> HasRing()
      modifies `wrIdx
      ensures pair == null ==> sz == RB.UNSET && wrIdx == old(wrIdx)
      ensures pair != null ==> HasRing() && (sz, at, Ring()) == RB.NWrite(old(Ring()), num)
    {
      at := wrIdx;
      if pair == null {
        return RB.UNSET, at;
      }
      if num == 0 {
        return 0, at;
      }
      if wrIdx < rdIdx {
        sz := rdIdx - wrIdx;
      } else if rdIdx > 0 && wrIdx == rdIdx {
        return RB.ERROR, at;
      } else {
        sz := buf.Length - wrIdx;
        if sz <= 0 {
          if rdIdx == 0 {
            return RB.ERROR, at;
          }
          wrIdx := 0;
          sz := rdIdx;
        }
      }
      if num < sz {
        sz := num;
      }
      at := wrIdx;
      wrIdx := wrIdx + sz;
      if wrIdx == buf.Length && rdIdx > 0 {
        wrIdx := 0;
      }
    }

    /** wolfSSL_BIO_BIO_read into the first len bytes of out. */
    method Read(out: array<byte>, len: nat) returns (ret: int)
      requires len <= out.Length && (pair != null ==> pair.HasRing() && out != pair.buf)
      modifies `flagRead, `flagRetry, Peer()`wrIdx, Peer()`rdIdx, out
      ensures pair == old(pair)
      ensures pair == null ==> ret == (if len == 0 then 0 else RB.UNSET) && out[..] == old(out[..])
      ensures pair != null ==>
        var res := RB.Read(old(pair.Ring()), len);
        && pair.HasRing() && pair.buf == old(pair.buf)
        && ret == res.ret && pair.Ring() == res.ring && (len > 0 ==> flagRetry == flagRead == res.retry)
        && Put(old(out[..]), out[..], res.bytes)
    {
      if len == 0 {
        return 0;
      }
      flagRead, flagRetry := false, false;
      if pair == null {
        return RB.UNSET;
      }
      ret := Attempts(out, len);
      if ret == 0 {
        flagRead, flagRetry := true, true;
        ret := RB.ERROR;
      }
    }

    method Attempts(out: array<byte>, len: nat) returns (ret: int)
      requires 0 < len <= out.Length && pair != null && pair.HasRing() && out != pair.buf
      modifies Peer()`wrIdx, Peer()`rdIdx, out
      ensures pair.HasRing() && pair.buf == old(pair.buf)
      ensures
        var res := RB.Attempts(old(pair.Ring()), len);
        ret == res.ret && pair.Ring() == res.ring && Put(old(out[..]), out[..], res.bytes)
    {
      ghost var ring, was := pair.Ring(), out[..];
      ret := FirstAttempt(out, len);
      if 0 < ret < len {
        ghost var mid, first := out[..], out[..ret];
        ghost var x := RB.ReadMore(pair.Ring(), first, len - ret);
        assert RB.Attempts(ring, len) == x;
        ret := ReadRest(out, len, ret);
        PutTwice(was, mid, out[..], first, x.bytes);
      }
    }

    /** The first attempt of wolfSSL_BIO_BIO_read. */
    method FirstAttempt(out: array<byte>, len: nat) returns (sz: int)
      requires 0 < len <= out.Length && pair != null && pair.HasRing() && out != pair.buf
      modifies Peer()`wrIdx, Peer()`rdIdx, out
      ensures pair.HasRing() && pair.buf == old(pair.buf)
      ensures (sz, pair.Ring()) == RB.NRead(old(pair.Ring()), len)
      ensures sz <= 0 ==> out[..] == old(out[..])
      ensures sz > 0 ==>
        var first := old(pair.Ring()).buf[old(pair.rdIdx)..old(pair.rdIdx) + sz];
        out[..sz] == first && Put(old(out[..]), out[..], first)
    {
      var at;
      sz, at := NRead(len);
      if sz > 0 {
        Copy(out, 0, pair.buf, at, sz);
      }
    }

    /** The second attempt of wolfSSL_BIO_BIO_read. */
    method ReadRest(out: array<byte>, len: nat, sz1: nat) returns (ret: int)
      requires pair != null && pair.HasRing() && out != pair.buf && 0 < sz1 < len <= out.Length
      modifies Peer()`wrIdx, Peer()`rdIdx, out
      ensures pair.HasRing() && pair.buf == old(pair.buf)
      ensures
        var res := RB.ReadMore(old(pair.Ring()), old(out[..sz1]), len - sz1);
        ret == res.ret && pair.Ring() == res.ring && Put(old(out[..]), out[..], res.bytes)
    {
      ret := sz1;
      var sz2, at := NRead(len - sz1);
      if sz2 > 0 {
        Copy(out, sz1, pair.buf, at, sz2);
        ret := sz1 + sz2;
      }
    }

    /** wolfSSL_BIO_BIO_write */
    method Write(data: seq<byte>) returns (ret: int)
      requires pair != null ==> HasRing()
      modifies `wrIdx, `flagWrite, `flagRetry, buf
      ensures pair == null ==> ret == (if data == [] then 0 else RB.UNSET) && wrIdx == old(wrIdx)
      ensures pair != null ==>
        var res := RB.Write(old(Ring()), data);
        && HasRing() && ret == res.ret && Ring() == res.ring
        && (data != [] ==> flagRetry == flagWrite == res.retry)
    {
      if data == [] {
        return 0;
      }
      flagWrite, flagRetry := false, false;
      var at;
      ret, at := NWrite(|data|);
      if ret == 0 {
        flagWrite, flagRetry := true, true;
        return RB.ERROR;
      }
      if ret < 0 {
        return;
      }
      CopyIn(buf, at, data[..ret]);
      if ret < |data| {
        ret := WriteRest(data, ret);
      }
    }

    /** The second attempt of wolfSSL_BIO_BIO_write. */
    method WriteRest(data: seq<byte>, sz1: nat) returns (ret: int)
      requires pair != null && HasRing() && sz1 < |data| && !flagWrite && !flagRetry
      modifies `wrIdx, `flagWrite, `flagRetry, buf
      ensures
        var res := RB.WriteMore(old(Ring()), data, sz1);
        HasRing() && ret == res.ret && Ring() == res.ring && flagRetry == flagWrite == res.retry
    {
      ret := sz1;
      var sz2, at := NWrite(|data| - sz1);
      if sz2 > 0 {
        CopyIn(buf, at, data[sz1..sz1 + sz2]);
        ret := sz1 + sz2;
        if |data| - sz1 > sz2 {
          flagWrite, flagRetry := true, true;
        }
      }
    }

    /** wolfSSL_BIO_ctrl_pending */
    method CtrlPending() returns (n: word64)
      requires pair != null ==> pair.HasRing()
      ensures n == if pair == null then 0 else RB.CtrlPending(pair.Ring())
    {
      if pair == null {
        return 0;
      }
      if pair.wrIdx > 0 && pair.wrIdx <= pair.rdIdx {
        return pair.buf.Length - pair.rdIdx + pair.wrIdx;
      }
      n := (pair.wrIdx - pair.rdIdx) % TWO64;
    }
  }

  /** wolfSSL_BIO_make_bio_pair: memory1 and memory2 say whether the default buffers can be had. */
  method MakeBioPair(b1: Bio, b2: Bio, memory1: bool, memory2: bool) returns (ok: bool)
    requires (b1.buf != null ==> b1.HasRing()) && (b2.buf != null ==> b2.HasRing())
    requires b1.buf != null && b1.buf == b2.buf ==> b1 == b2
    modifies b1, b2
    ensures ok ==> b1.pair == b2 && b2.pair == b1 && b1.HasRing() && b2.HasRing() && (b1.buf == b2.buf ==> b1 == b2)
    ensures ok ==> old(b1.pair) == null == old(b2.pair)
    ensures ok && old(b1.buf) == null ==> RB.Content(b1.Ring()) == [] && b1.buf.Length == BIO_SIZE
    ensures ok && old(b2.buf) == null ==> RB.Content(b2.Ring()) == [] && b2.buf.Length == BIO_SIZE
    ensures !ok ==> b1.pair == old(b1.pair) && b2.pair == old(b2.pair)
  {
    if b1.pair != null || b2.pair != null {
      return false;
    }
    if b1.buf == null {
      ok := b1.SetWriteBufSize(BIO_SIZE, memory1);
      if !ok {
        return;
      }
    }
    if b2.buf == null {
      ok := b2.SetWriteBufSize(BIO_SIZE, memory2);
      if !ok {
        return;
      }
    }
    b1.pair := b2;
    b2.pair := b1;
    ok := true;
  }
}
