/**
 The writable memory BIO as a value: wolfSSL_BIO_MEMORY_write, wolfSSL_BIO_MEMORY_read, the memory case of
 wolfSSL_BIO_gets, and wolfSSL_BUF_MEM_grow_ex and _resize.  Whether an allocation succeeds is a parameter.
 */
module MemoryFifo {
  import opened Bytes
  import opened Options
  import opened Sequences

  const RESIZE_THRESHOLD := 100
  const NEWLINE: byte := 10
  const ERROR: int := -1

  /** data holds the first wrSz bytes of the buffer; length and max are those of the BUF_MEM. */
  datatype Mem = Mem(data: seq<byte>, rd: nat, length: nat, max: nat)

  predicate MemOK(m: Mem) { m.rd <= |m.data| <= m.length <= m.max }

  const EMPTY := Mem([], 0, 0, 0)

  function Content(m: Mem): seq<byte>
    requires MemOK(m)
  {
    m.data[m.rd..]
  }

  /** The size allocated for len bytes. */
  function Capacity(len: nat): (mx: nat)
    ensures mx >= len
  {
    (len + 3) / 3 * 4
  }

  /** wolfSSL_BUF_MEM_grow_ex: the new length and max, or None when an allocation fails. */
  function Grown(m: Mem, len: nat, memory: bool): (r: Option<(nat, nat)>)
    requires m.length <= m.max
    ensures r.Some? ==> r.value.0 == len <= r.value.1
    ensures r.None? ==> !memory && len > m.max
  {
    if len <= m.max then Some((len, m.max)) else if !memory then None else Some((len, Capacity(len)))
  }

  /** wolfSSL_BUF_MEM_resize */
  function Resized(m: Mem, len: nat, memory: bool): (r: Option<(nat, nat)>)
    requires m.length <= m.max && len > 0
    ensures r.Some? ==> r.value.0 == len <= r.value.1
    ensures r.None? ==> !memory && (len < m.length || len > m.max)
  {
    if len == m.length then Some((len, m.max))
    else if len > m.length then Grown(m, len, memory)
    else if !memory then None
    else Some((len, Capacity(len)))
  }

  /** wolfSSL_BIO_MEMORY_write: an empty write reports 1, a failed one 0. */
  function Write(m: Mem, bytes: seq<byte>, memory: bool): (r: (int, Mem))
    requires MemOK(m)
    ensures MemOK(r.1)
  {
    if bytes == [] then (1, m)
    else
      match Grown(m, |m.data| + |bytes|, memory)
      case None => (0, m)
      case Some((length, max)) => (|bytes|, Mem(m.data + bytes, m.rd, length, max))
  }

  datatype ReadResult = ReadResult(ret: int, bytes: seq<byte>, mem: Mem)

  function Max(a: int, b: int): int { if a < b then b else a }

  /** wolfSSL_BIO_MEMORY_read; eof is the value reported for an empty BIO. */
  function Read(m: Mem, len: nat, eof: int, memory: bool): (r: ReadResult)
    requires MemOK(m)
    ensures MemOK(r.mem)
  {
    var pending := |m.data| - m.rd;
    if pending == 0 then ReadResult(if eof < 0 then eof else ERROR, [], m)
    else if m.length - m.rd < Min(pending, len) then ReadResult(ERROR, [], m)
    else
      var sz: nat := Min(pending, len);
      Settle(m.(rd := m.rd + sz), sz, m.data[m.rd..m.rd + sz], memory)
  }

  /** What wolfSSL_BIO_MEMORY_read does after the copy: give the buffer back, or move the rest to its start. */
  function Settle(m: Mem, sz: nat, bytes: seq<byte>, memory: bool): (r: ReadResult)
    requires MemOK(m)
    ensures MemOK(r.mem)
  {
    if m.rd >= |m.data| then
      if m.max > RESIZE_THRESHOLD then
        match Resized(m, RESIZE_THRESHOLD, memory)
        case None => ReadResult(ERROR, bytes, m)
        case Some((_, max)) => ReadResult(sz, bytes, Mem([], 0, 0, max))
      else ReadResult(sz, bytes, Mem([], 0, 0, m.max))
    else if m.rd >= RESIZE_THRESHOLD then
      var rest := m.data[m.rd..];
      match Resized(m, Max(|rest|, RESIZE_THRESHOLD), memory)
      case None => ReadResult(ERROR, bytes, Mem(rest, 0, m.length, m.max))
      case Some((_, max)) => ReadResult(sz, bytes, Mem(rest, 0, |rest|, max))
    else ReadResult(sz, bytes, m)
  }

  /** The read gives memory back to the allocator, which may refuse. */
  predicate Shrinks(m: Mem, len: nat)
    requires MemOK(m)
  {
    var end := m.rd + Min(|m.data| - m.rd, len);
    if end == |m.data| then m.max > RESIZE_THRESHOLD && m.length > RESIZE_THRESHOLD else end >= RESIZE_THRESHOLD
  }

  /**
   A read takes exactly min(len, content) bytes off the front, whatever it returns; the check that reports "not
   enough memory" never fires, and the result is an error exactly when there is nothing to read or giving memory
   back fails.
   */
  lemma ReadExact(m: Mem, len: nat, eof: int, memory: bool)
    requires MemOK(m)
    ensures
      var r, c := Read(m, len, eof, memory), Content(m);
      && r.bytes == c[..Min(len, |c|)] && Content(r.mem) == c[Min(len, |c|)..]
      && m.length - m.rd >= |c|
      && (c == [] ==> r.ret < 0 && r.mem == m)
      && (c != [] ==> r.ret == if memory || !Shrinks(m, len) then Min(len, |c|) else ERROR)
  {
    Slices(m.data, m.rd, Min(len, |Content(m)|));
  }

  lemma Slices(s: seq<byte>, at: nat, n: nat)
    requires at + n <= |s|
    ensures s[at..at + n] == s[at..][..n] && s[at + n..] == s[at..][n..]
  {
  }

  lemma WriteExact(m: Mem, bytes: seq<byte>, memory: bool)
    requires MemOK(m)
    ensures
      var (ret, m') := Write(m, bytes, memory);
      && (ret == 0 ==> m' == m && !memory && |m.data| + |bytes| > m.max)
      && (ret != 0 ==> Content(m') == Content(m) + bytes && ret == if bytes == [] then 1 else |bytes|)
      && (bytes != [] && ret != 0 ==> m'.length == |m'.data|)
  {
    assert Content(m) + [] == Content(m);
    assert (m.data + bytes)[m.rd..] == m.data[m.rd..] + bytes;
  }

  // ---------- lines ----------

  /** wolfSSL_getLineLength */
  function LineLength(s: seq<byte>): (n: nat)
    ensures n <= |s| && (s != [] ==> n > 0)
  {
    if s == [] then 0 else if s[0] == NEWLINE then 1 else 1 + LineLength(s[1..])
  }

  /** Up to and including the first newline, or all of it. */
  lemma {:induction false} LineLengthIs(s: seq<byte>)
    ensures
      var n := LineLength(s);
      && (forall i :: 0 <= i < n - 1 ==> s[i] != NEWLINE)
      && (n == |s| || s[n - 1] == NEWLINE)
  {
    if s != [] && s[0] != NEWLINE {
      var rest := s[1..];
      LineLengthIs(rest);
      forall i | 0 <= i < LineLength(s) - 1
        ensures s[i] != NEWLINE
      {
        assert i > 0 ==> rest[i - 1] == s[i];
      }
    }
  }

  /** The memory case of wolfSSL_BIO_gets for a caller's buffer of sz bytes, without the terminator. */
  function Gets(m: Mem, sz: int, eof: int, memory: bool): (r: ReadResult)
    requires MemOK(m)
    ensures MemOK(r.mem)
  {
    if sz <= 1 || Content(m) == [] then ReadResult(0, [], m)
    else Read(m, Min(LineLength(Content(m)), sz - 1), eof, memory)
  }

  /** A newline only as the last byte. */
  ghost predicate OneLine(s: seq<byte>)
  {
    forall i :: 0 <= i < |s| - 1 ==> s[i] != NEWLINE
  }

  ghost predicate EndsLine(s: seq<byte>) { s != [] && s[|s| - 1] == NEWLINE }

  /**
   A line piece is cut off the front: a newline only at its end, and it ends at a newline, the size limit or the
   end.
   */
  lemma GetsExact(m: Mem, sz: int, eof: int, memory: bool)
    requires MemOK(m) && sz > 1 && Content(m) != []
    ensures
      var r, c := Gets(m, sz, eof, memory), Content(m);
      var n := |r.bytes|;
      && 0 < n < sz && r.bytes + Content(r.mem) == c && OneLine(r.bytes)
      && (EndsLine(r.bytes) || n == sz - 1 || n == |c|)
      && (r.ret == n || (r.ret == ERROR && !memory))
  {
    var c := Content(m);
    var n := LineLength(c);
    LineLengthIs(c);
    LinePiece(c, n, sz);
    ReadExact(m, Min(n, sz - 1), eof, memory);
  }

  lemma LinePiece(c: seq<byte>, n: nat, sz: int)
    requires sz > 1 && 0 < n <= |c| && (n == |c| || c[n - 1] == NEWLINE)
    requires forall i :: 0 <= i < n - 1 ==> c[i] != NEWLINE
    ensures
      var k := Min(n, sz - 1);
      && c[..k] + c[k..] == c && OneLine(c[..k])
      && (EndsLine(c[..k]) || k == sz - 1 || k == |c|)
  {
  }

  // ---------- every run ----------

  datatype Call =
    | Put(bytes: seq<byte>, memory: bool)
    | Take(len: nat, memory: bool)
    | Line(sz: int, memory: bool)

  /** The BIO with the bytes accepted, those copied to callers, and those whose read reported success. */
  datatype Trace = Trace(mem: Mem, accepted: seq<byte>, copied: seq<byte>, returned: seq<byte>)

  function AfterRead(t: Trace, r: ReadResult): Trace
  {
    Trace(r.mem, t.accepted, t.copied + r.bytes, if r.ret >= 0 then t.returned + r.bytes else t.returned)
  }

  function Step(t: Trace, call: Call, eof: int): (r: Trace)
    requires MemOK(t.mem)
    ensures MemOK(r.mem)
  {
    match call
    case Put(bytes, memory) =>
      var (ret, m) := Write(t.mem, bytes, memory);
      t.(mem := m, accepted := t.accepted + if ret != 0 then bytes else [])
    case Take(len, memory) => AfterRead(t, Read(t.mem, len, eof, memory))
    case Line(sz, memory) => AfterRead(t, Gets(t.mem, sz, eof, memory))
  }

  ghost predicate TraceOK(t: Trace)
  {
    MemOK(t.mem) && t.accepted == t.copied + Content(t.mem)
  }

  lemma PutKeepsTrace(t: Trace, bytes: seq<byte>, memory: bool, eof: int)
    requires TraceOK(t)
    ensures TraceOK(Step(t, Put(bytes, memory), eof))
  {
    WriteExact(t.mem, bytes, memory);
    Regroup(t.copied, Content(t.mem), bytes);
  }

  lemma ReadKeepsTrace(t: Trace, r: ReadResult)
    requires TraceOK(t) && MemOK(r.mem) && r.bytes + Content(r.mem) == Content(t.mem)
    ensures TraceOK(AfterRead(t, r))
  {
    Regroup(t.copied, r.bytes, Content(r.mem));
  }

  lemma SplitAt(c: seq<byte>, k: nat)
    requires k <= |c|
    ensures c[..k] + c[k..] == c
  {
  }

  /** What one read leaves, and what it reports while allocations succeed. */
  lemma ReadSplits(m: Mem, call: Call, eof: int)
    requires MemOK(m) && !call.Put?
    ensures
      var r := if call.Take? then Read(m, call.len, eof, call.memory) else Gets(m, call.sz, eof, call.memory);
      r.bytes + Content(r.mem) == Content(m) && (call.memory ==> r.ret >= 0 || r.bytes == [])
  {
    var c := Content(m);
    match call
    case Take(len, memory) =>
      ReadExact(m, len, eof, memory);
      SplitAt(c, Min(len, |c|));
    case Line(sz, memory) =>
      if sz > 1 && c != [] {
        GetsExact(m, sz, eof, memory);
      }
  }

  lemma StepKeepsTrace(t: Trace, call: Call, eof: int)
    requires TraceOK(t)
    ensures TraceOK(Step(t, call, eof))
    ensures call.memory && t.returned == t.copied ==> Step(t, call, eof).returned == Step(t, call, eof).copied
  {
    match call
    case Put(bytes, memory) => PutKeepsTrace(t, bytes, memory, eof);
    case Take(len, memory) =>
      ReadSplits(t.mem, call, eof);
      ReadKeepsTrace(t, Read(t.mem, len, eof, memory));
    case Line(sz, memory) =>
      ReadSplits(t.mem, call, eof);
      ReadKeepsTrace(t, Gets(t.mem, sz, eof, memory));
  }

  /** While allocations succeed, the length of the buffer is the number of bytes written to it. */
  lemma LengthStaysExact(t: Trace, call: Call, eof: int)
    requires MemOK(t.mem) && t.mem.length == |t.mem.data| && call.memory
    ensures Step(t, call, eof).mem.length == |Step(t, call, eof).mem.data|
  {
  }

  function Run(t: Trace, calls: seq<Call>, eof: int): (r: Trace)
    requires MemOK(t.mem)
    ensures MemOK(r.mem)
    decreases |calls|
  {
    if calls == [] then t else Run(Step(t, calls[0], eof), calls[1..], eof)
  }

  /**
   For any mix of write, read and gets, across compaction and shrinking: the bytes copied out, followed by the
   content, are the bytes accepted.  While allocations succeed, all of them were reported too, and the length of
   the buffer stays the number of bytes written to it.
   */
  lemma {:induction false} MemoryIsFifo(t: Trace, calls: seq<Call>, eof: int)
    requires TraceOK(t)
    ensures TraceOK(Run(t, calls, eof))
    ensures t.returned == t.copied && (forall i :: 0 <= i < |calls| ==> calls[i].memory) ==>
      Run(t, calls, eof).accepted == Run(t, calls, eof).returned + Content(Run(t, calls, eof).mem)
    ensures t.mem.length == |t.mem.data| && (forall i :: 0 <= i < |calls| ==> calls[i].memory) ==>
      Run(t, calls, eof).mem.length == |Run(t, calls, eof).mem.data|
    decreases |calls|
  {
    if calls != [] {
      StepKeepsTrace(t, calls[0], eof);
      if calls[0].memory && t.mem.length == |t.mem.data| {
        LengthStaysExact(t, calls[0], eof);
      }
      MemoryIsFifo(Step(t, calls[0], eof), calls[1..], eof);
    }
  }

  lemma StartIsOK()
    ensures TraceOK(Trace(EMPTY, [], [], []))
  {
  }

  /** A read that cannot shrink the buffer reports an error although its bytes are gone. */
  lemma FailedShrinkLosesBytes(bytes: seq<byte>)
    requires |bytes| > RESIZE_THRESHOLD
    ensures
      var m := Write(EMPTY, bytes, true).1;
      var r := Read(m, |bytes|, ERROR, false);
      r.ret == ERROR && Content(r.mem) == [] && Content(m) == bytes
  {
    WriteExact(EMPTY, bytes, true);
    ReadExact(Write(EMPTY, bytes, true).1, |bytes|, ERROR, false);
  }
}
