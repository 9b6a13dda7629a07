/** The writable memory BIO over its growing and shrinking buffer, proved against module MemoryFifo. */
module MemBio {
  import opened Buffers
  import opened Bytes
  import F = MemoryFifo

  /** realloc: a buffer of mx bytes with the old bytes that fit. */
  method Reallocated(data: array<byte>, mx: nat) returns (tmp: array<byte>)
    ensures fresh(tmp) && tmp.Length == mx
    ensures forall i :: 0 <= i < mx && i < data.Length ==> tmp[i] == data[i]
  {
    tmp := new byte[mx];
    var i := 0;
    while i < mx && i < data.Length
      invariant i <= mx && i <= data.Length
      invariant forall j :: 0 <= j < i ==> tmp[j] == data[j]
    {
      tmp[i] := data[i];
      i := i + 1;
    }
  }

  /** A WOLFSSL_BIO of type WOLFSSL_BIO_MEMORY that is not read-only; max is the length of data. */
  class Bio {
    var data: array<byte>
    var length: nat
    var wrSz: nat
    var rdIdx: nat
    const eof: int

    ghost predicate Valid()
      reads this, data
    {
      rdIdx <= wrSz <= length <= data.Length
    }

    ghost function Value(): F.Mem
      requires Valid()
      reads this, data
    {
      F.Mem(data[..wrSz], rdIdx, length, data.Length)
    }

    constructor ()
      ensures Valid() && fresh(data) && Value() == F.EMPTY && eof == -1
    {
      data, length, wrSz, rdIdx, eof := new byte[0], 0, 0, 0, -1;
    }

    /** wolfSSL_BUF_MEM_grow_ex */
    method Grow(len: nat, memory: bool) returns (ok: bool)
      requires length <= data.Length
      modifies `data, `length
      ensures ok <==> len <= old(data).Length || memory
      ensures ok ==>
        length == len && data.Length == if len <= old(data).Length then old(data).Length else F.Capacity(len)
      ensures data == old(data) || (ok && fresh(data))
      ensures !ok ==> length == old(length) && data == old(data)
      ensures forall i :: 0 <= i < old(data).Length && i < data.Length ==> data[i] == old(data[i])
    {
      if length > len {
        length := len;
        return true;
      }
      if data.Length >= len {
        length := len;
        return true;
      }
      if !memory {
        return false;
      }
      data := Reallocated(data, F.Capacity(len));
      length := len;
      ok := true;
    }

    /** wolfSSL_BUF_MEM_resize */
    method Resize(len: nat, memory: bool) returns (ok: bool)
      requires length <= data.Length && len > 0
      modifies `data, `length
      ensures
        var r := F.Resized(F.Mem([], 0, old(length), old(data).Length), len, memory);
        && (ok <==> r.Some?)
        && (length, data.Length) == if ok then r.value else (old(length), old(data).Length)
      ensures data == old(data) || (ok && fresh(data))
      ensures forall i :: 0 <= i < old(data).Length && i < data.Length ==> data[i] == old(data[i])
    {
      if len == length {
        return true;
      }
      if len > length {
        ok := Grow(len, memory);
        return;
      }
      if !memory {
        return false;
      }
      data := Reallocated(data, F.Capacity(len));
      length := len;
      ok := true;
    }

    /** wolfSSL_BIO_MEMORY_write */
    method Write(bytes: seq<byte>, memory: bool) returns (ret: int)
      requires Valid()
      modifies this, data
      ensures Valid() && (ret, Value()) == F.Write(old(Value()), bytes, memory)
      ensures data == old(data) || fresh(data)
    {
      if bytes == [] {
        return 1;
      }
      var ok := Grow(wrSz + |bytes|, memory);
      if !ok {
        return 0;
      }
      assert data[..wrSz] == old(data[..wrSz]);
      WriteBytes(data, wrSz, bytes);
      wrSz := wrSz + |bytes|;
      ret := |bytes|;
    }

    /** memmove of the unread bytes to the start of the buffer. */
    method MoveToFront()
      requires Valid()
      modifies `wrSz, `rdIdx, data
      ensures Valid() && rdIdx == 0 && length == old(length) && data[..wrSz] == old(data[rdIdx..wrSz])
    {
      var i := 0;
      while i < wrSz - rdIdx
        modifies data
        invariant i <= wrSz - rdIdx
        invariant forall j :: 0 <= j < i ==> data[j] == old(data[rdIdx + j])
        invariant forall j :: i <= j < data.Length ==> data[j] == old(data[j])
      {
        data[i] := data[rdIdx + i];
        i := i + 1;
      }
      wrSz, rdIdx := wrSz - rdIdx, 0;
    }

    /** wolfSSL_BIO_MEMORY_read: the result, and the bytes copied to the caller. */
    method Read(len: nat, memory: bool) returns (ret: int, bytes: seq<byte>)
      requires Valid()
      modifies this, data
      ensures
        var r := F.Read(old(Value()), len, eof, memory);
        Valid() && ret == r.ret && bytes == r.bytes && Value() == r.mem
      ensures data == old(data) || fresh(data)
    {
      var sz: nat := wrSz - rdIdx;
      if sz == 0 {
        return if eof < 0 then eof else F.ERROR, [];
      }
      if sz > len {
        sz := len;
      }
      if length - rdIdx < sz {
        return F.ERROR, [];
      }
      bytes := TakeBytes(sz);
      assert F.Read(old(Value()), len, eof, memory) == F.Settle(Value(), sz, bytes, memory);
      ret := Settle(sz, bytes, memory);
    }

    /** The copy to the caller, and the index behind it. */
    method TakeBytes(sz: nat) returns (bytes: seq<byte>)
      requires Valid() && sz <= wrSz - rdIdx && sz <= length - rdIdx
      modifies `rdIdx
      ensures Valid() && Value() == old(Value()).(rd := old(rdIdx) + sz)
      ensures bytes == old(Value()).data[old(rdIdx)..old(rdIdx) + sz]
    {
      bytes := data[rdIdx..rdIdx + sz];
      assert bytes == data[..wrSz][rdIdx..rdIdx + sz];
      rdIdx := rdIdx + sz;
    }

    method Settle(sz: nat, ghost bytes: seq<byte>, memory: bool) returns (ret: int)
      requires Valid()
      modifies this, data
      ensures
        var r := F.Settle(old(Value()), sz, bytes, memory);
        Valid() && ret == r.ret && Value() == r.mem
      ensures data == old(data) || fresh(data)
    {
      ret := sz;
      if rdIdx >= wrSz {
        if data.Length > F.RESIZE_THRESHOLD {
          var ok := Resize(F.RESIZE_THRESHOLD, memory);
          if !ok {
            return F.ERROR;
          }
        }
        rdIdx, wrSz, length := 0, 0, 0;
      } else if rdIdx >= F.RESIZE_THRESHOLD {
        MoveToFront();
        var ok := Resize(if wrSz > F.RESIZE_THRESHOLD then wrSz else F.RESIZE_THRESHOLD, memory);
        if !ok {
          return F.ERROR;
        }
        length := wrSz;
      }
    }

    /** wolfSSL_getLineLength over the unread bytes. */
    method GetLineLength() returns (n: nat)
      requires Valid()
      ensures n == F.LineLength(data[rdIdx..wrSz])
    {
      n := 0;
      ghost var s := data[rdIdx..wrSz];
      while n < wrSz - rdIdx
        invariant n <= |s| && F.LineLength(s) == n + F.LineLength(s[n..])
      {
        assert s[n..][1..] == s[n + 1..];
        if data[rdIdx + n] == F.NEWLINE {
          return n + 1;
        }
        n := n + 1;
      }
    }

    /** The memory case of wolfSSL_BIO_gets for a caller's buffer of sz bytes. */
    method Gets(sz: int, memory: bool) returns (ret: int, bytes: seq<byte>)
      requires Valid()
      modifies this, data
      ensures
        var r := F.Gets(old(Value()), sz, eof, memory);
        Valid() && ret == r.ret && bytes == r.bytes && Value() == r.mem
      ensures data == old(data) || fresh(data)
    {
      assert F.Content(Value()) == data[rdIdx..wrSz];
      if sz <= 1 || wrSz - rdIdx == 0 {
        return 0, [];
      }
      var n := GetLineLength();
      if n >= sz {
        n := sz - 1;
      }
      assert n == Min(F.LineLength(F.Content(Value())), sz - 1);
      ret, bytes := Read(n, memory);
    }
  }
}
