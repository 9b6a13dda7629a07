/**
 Cutting the QUIC handshake stream into messages (section 4 of RFC 8446), as a value: what
 wolfSSL_provide_quic_data in boot/src/quic.c leaves in the queue and in the scratch record.
 */
module QuicFrames {
  import opened Bytes
  import opened Options
  import opened Sequences

  const MAX_RECORD_CAPACITY := 1048576

  /** Encryption levels in their order. */
  datatype Level = Initial | EarlyData | Handshake | Application

  function Rank(l: Level): nat
  {
    match l
    case Initial => 0
    case EarlyData => 1
    case Handshake => 2
    case Application => 3
  }

  /** A complete record in the queue: its length is len, start and hdrRemain belong to the reader. */
  datatype Rec = Rec(level: Level, data: seq<byte>, start: nat, hdrRemain: nat)

  function NewRec(level: Level, data: seq<byte>): Rec { Rec(level, data, 0, 0) }

  datatype Pending = NoScratch | Scratch(level: Level, data: seq<byte>)

  datatype Input = Input(queue: seq<Rec>, pending: Pending, latest: Level)

  // ---------- frames ----------

  /** qr_length: the length of the message that starts the data, or 0 when the header is not there yet. */
  function QrLength(s: seq<byte>): nat
  {
    if |s| < 4 then 0 else (Get24(s[1..4]) as int) + 4
  }

  predicate HasFrame(s: seq<byte>) { |s| >= 4 && |s| >= QrLength(s) }

  /** The complete messages at the start of a stream. */
  function Frames(s: seq<byte>): seq<seq<byte>>
    decreases |s|
  {
    if !HasFrame(s) then [] else [s[..QrLength(s)]] + Frames(s[QrLength(s)..])
  }

  /** What follows the last complete message. */
  function Rest(s: seq<byte>): (r: seq<byte>)
    ensures !HasFrame(r) && |r| <= |s|
    decreases |s|
  {
    if !HasFrame(s) then s else Rest(s[QrLength(s)..])
  }

  /** No header in the stream announces more than a record may hold. */
  predicate Bounded(s: seq<byte>)
    decreases |s|
  {
    QrLength(s) <= MAX_RECORD_CAPACITY && (HasFrame(s) ==> Bounded(s[QrLength(s)..]))
  }

  lemma QrLengthPrefix(s: seq<byte>, t: seq<byte>)
    requires |s| >= 4
    ensures QrLength(s + t) == QrLength(s)
  {
    assert (s + t)[1..4] == s[1..4];
  }

  lemma FrameOfSum(s: seq<byte>, t: seq<byte>)
    requires HasFrame(s)
    ensures HasFrame(s + t) && QrLength(s + t) == QrLength(s)
    ensures (s + t)[..QrLength(s)] == s[..QrLength(s)] && (s + t)[QrLength(s)..] == s[QrLength(s)..] + t
  {
    QrLengthPrefix(s, t);
  }

  /** Later bytes go on where earlier ones stopped. */
  lemma {:induction false} FramesOfSum(s: seq<byte>, t: seq<byte>)
    ensures Frames(s + t) == Frames(s) + Frames(Rest(s) + t)
    ensures Rest(s + t) == Rest(Rest(s) + t)
    ensures Bounded(s) ==> (Bounded(s + t) <==> Bounded(Rest(s) + t))
    ensures Bounded(s + t) ==> Bounded(s)
    decreases |s|
  {
    if HasFrame(s) {
      FrameOfSum(s, t);
      FramesOfSum(s[QrLength(s)..], t);
    } else if |s| >= 4 {
      QrLengthPrefix(s, t);
    }
  }

  function Concat(parts: seq<seq<byte>>): seq<byte>
  {
    if parts == [] then [] else parts[0] + Concat(parts[1..])
  }

  /** One message with a 4-byte header. */
  predicate IsFrame(f: seq<byte>) { |f| >= 4 && |f| == QrLength(f) }

  lemma ConcatCons(x: seq<byte>, more: seq<seq<byte>>)
    ensures Concat([x] + more) == x + Concat(more)
  {
    assert ([x] + more)[1..] == more;
  }

  lemma Glue(s: seq<byte>, n: nat, y: seq<byte>, z: seq<byte>)
    requires n <= |s| && y + z == s[n..]
    ensures s[..n] + y + z == s
  {
    Regroup(s[..n], y, z);
  }

  /** The messages and the rest make up the stream. */
  lemma {:induction false} FramesExact(s: seq<byte>)
    ensures Concat(Frames(s)) + Rest(s) == s
    decreases |s|
  {
    if HasFrame(s) {
      var n := QrLength(s);
      FramesExact(s[n..]);
      ConcatCons(s[..n], Frames(s[n..]));
      Glue(s, n, Concat(Frames(s[n..])), Rest(s[n..]));
    }
  }

  /** Every message has the length its header says. */
  lemma {:induction false} FramesAreFrames(s: seq<byte>)
    ensures forall i :: 0 <= i < |Frames(s)| ==> IsFrame(Frames(s)[i])
    decreases |s|
  {
    if HasFrame(s) {
      var n := QrLength(s);
      FramesAreFrames(s[n..]);
      assert s[..n][1..4] == s[1..4];
      assert Frames(s) == [s[..n]] + Frames(s[n..]);
    }
  }

  /** There is only one such cut. */
  lemma {:induction false} CutUnique(parts: seq<seq<byte>>, rest: seq<byte>)
    requires (forall i :: 0 <= i < |parts| ==> IsFrame(parts[i])) && !HasFrame(rest)
    ensures Frames(Concat(parts) + rest) == parts && Rest(Concat(parts) + rest) == rest
    decreases |parts|
  {
    if parts == [] {
      assert Concat(parts) + rest == rest;
    } else {
      var tail := Concat(parts[1..]) + rest;
      CutUnique(parts[1..], rest);
      assert Concat(parts) + rest == parts[0] + tail;
      assert parts[0][..QrLength(parts[0])] == parts[0] && parts[0][QrLength(parts[0])..] + tail == tail;
      FrameOfSum(parts[0], tail);
    }
  }

  // ---------- the call ----------

  function Recs(level: Level, frames: seq<seq<byte>>): (r: seq<Rec>)
    ensures |r| == |frames| && forall i :: 0 <= i < |r| ==> r[i] == NewRec(level, frames[i])
  {
    seq(|frames|, i requires 0 <= i < |frames| => NewRec(level, frames[i]))
  }

  function PendingBytes(p: Pending): seq<byte>
  {
    if p.NoScratch? then [] else p.data
  }

  function AsPending(level: Level, rest: seq<byte>): Pending
  {
    if rest == [] then NoScratch else Scratch(level, rest)
  }

  predicate LevelOK(st: Input, readLevel: Level, level: Level)
  {
    && Rank(level) >= Rank(readLevel) && Rank(level) >= Rank(st.latest)
    && (st.queue != [] ==> Rank(level) >= Rank(st.queue[|st.queue| - 1].level))
  }

  /** The queue and the scratch bytes after one chunk, for a call that passes the level checks. */
  function Cut(st: Input, level: Level, s: seq<byte>): Option<Input>
  {
    if !Bounded(s) then None else Some(Input(st.queue + Recs(level, Frames(s)), AsPending(level, Rest(s)), level))
  }

  /** wolfSSL_provide_quic_data when memory can be had; None is an error. */
  function Provide(st: Input, readLevel: Level, level: Level, data: seq<byte>): Option<Input>
  {
    if !LevelOK(st, readLevel, level) then None
    else if data == [] then Some(st.(latest := level))
    else if st.pending.Scratch? && st.pending.level != level then None
    else if level == EarlyData then Some(st.(queue := st.queue + [NewRec(level, data)], latest := level))
    else Cut(st, level, PendingBytes(st.pending) + data)
  }

  ghost predicate Ordered(queue: seq<Rec>, i: int, j: int)
    requires 0 <= i < |queue| && 0 <= j < |queue|
  {
    Rank(queue[i].level) <= Rank(queue[j].level)
  }

  /** Levels do not decrease along the queue, and the scratch record waits for the rest of one message. */
  ghost predicate InputOK(st: Input)
  {
    && (forall i, j :: 0 <= i < j < |st.queue| ==> Ordered(st.queue, i, j))
    && (st.pending.Scratch? ==>
        && st.pending.level != EarlyData && st.pending.data != [] && !HasFrame(st.pending.data)
        && Bounded(st.pending.data)
        && (st.queue != [] ==> Rank(st.queue[|st.queue| - 1].level) <= Rank(st.pending.level)))
  }

  lemma RecsAppend(level: Level, a: seq<seq<byte>>, b: seq<seq<byte>>)
    ensures Recs(level, a + b) == Recs(level, a) + Recs(level, b)
  {
  }

  lemma {:induction false} BoundedRest(s: seq<byte>)
    requires Bounded(s)
    ensures Bounded(Rest(s))
    decreases |s|
  {
    if HasFrame(s) {
      BoundedRest(s[QrLength(s)..]);
    }
  }

  lemma OrderKept(before: seq<Rec>, after: seq<Rec>, level: Level)
    requires before <= after && (before != [] ==> Rank(before[|before| - 1].level) <= Rank(level))
    requires forall i :: |before| <= i < |after| ==> after[i].level == level
    requires forall i, j :: 0 <= i < j < |before| ==> Ordered(before, i, j)
    ensures forall i, j :: 0 <= i < j < |after| ==> Ordered(after, i, j)
  {
    forall i, j | 0 <= i < j < |after|
      ensures Ordered(after, i, j)
    {
      if i < |before| {
        assert j < |before| ==> Ordered(before, i, j);
        assert i < |before| - 1 ==> Ordered(before, i, |before| - 1);
      }
    }
  }

  /** Every accepted call keeps the order of levels, whatever the read level is at the time. */
  lemma ProvideKeepsOK(st: Input, readLevel: Level, level: Level, data: seq<byte>)
    requires InputOK(st) && Provide(st, readLevel, level, data).Some?
    ensures InputOK(Provide(st, readLevel, level, data).value)
  {
    var r := Provide(st, readLevel, level, data).value;
    if data != [] {
      if level != EarlyData {
        BoundedRest(PendingBytes(st.pending) + data);
      }
      OrderKept(st.queue, r.queue, level);
    }
  }

  // ---------- chunks ----------

  /** One call per chunk. */
  function ProvideAll(st: Input, readLevel: Level, level: Level, chunks: seq<seq<byte>>): Option<Input>
    decreases |chunks|
  {
    if chunks == [] then Some(st)
    else
      var r := Provide(st, readLevel, level, chunks[0]);
      if r.None? then None else ProvideAll(r.value, readLevel, level, chunks[1..])
  }

  lemma LevelStays(st: Input, readLevel: Level, level: Level, data: seq<byte>)
    requires Provide(st, readLevel, level, data).Some?
    ensures LevelOK(Provide(st, readLevel, level, data).value, readLevel, level)
  {
  }

  lemma CutTwice(st: Input, level: Level, s: seq<byte>, t: seq<byte>)
    ensures
      var first, whole := Cut(st, level, s), Cut(st, level, s + t);
      if first.None? then whole.None? else Cut(first.value, level, PendingBytes(first.value.pending) + t) == whole
  {
    FramesOfSum(s, t);
    var first := Cut(st, level, s);
    if first.Some? {
      assert PendingBytes(first.value.pending) == Rest(s);
      RecsAppend(level, Frames(s), Frames(Rest(s) + t));
      Regroup(st.queue, Recs(level, Frames(s)), Recs(level, Frames(Rest(s) + t)));
    }
  }

  lemma ProvideIsCut(st: Input, readLevel: Level, level: Level, data: seq<byte>)
    requires LevelOK(st, readLevel, level) && level != EarlyData && data != []
    requires st.pending.Scratch? ==> st.pending.level == level
    ensures Provide(st, readLevel, level, data) == Cut(st, level, PendingBytes(st.pending) + data)
  {
  }

  lemma TwoNonEmpty(st: Input, readLevel: Level, level: Level, a: seq<byte>, b: seq<byte>)
    requires LevelOK(st, readLevel, level) && level != EarlyData && a != [] && b != []
    requires st.pending.Scratch? ==> st.pending.level == level
    ensures
      var first, whole := Provide(st, readLevel, level, a), Provide(st, readLevel, level, a + b);
      if first.None? then whole.None? else Provide(first.value, readLevel, level, b) == whole
  {
    var p := PendingBytes(st.pending);
    ProvideIsCut(st, readLevel, level, a);
    ProvideIsCut(st, readLevel, level, a + b);
    Regroup(p, a, b);
    CutTwice(st, level, p + a, b);
    var first := Provide(st, readLevel, level, a);
    if first.Some? {
      LevelStays(st, readLevel, level, a);
      ProvideIsCut(first.value, readLevel, level, b);
    }
  }

  /** Two chunks are as good as one. */
  lemma TwoChunks(st: Input, readLevel: Level, level: Level, a: seq<byte>, b: seq<byte>)
    requires level != EarlyData
    ensures
      var first, whole := Provide(st, readLevel, level, a), Provide(st, readLevel, level, a + b);
      if first.None? then whole.None? else Provide(first.value, readLevel, level, b) == whole
  {
    if a == [] {
      assert a + b == b;
    } else if b == [] {
      assert a + b == a;
      if Provide(st, readLevel, level, a).Some? {
        LevelStays(st, readLevel, level, a);
      }
    } else if LevelOK(st, readLevel, level) && (st.pending.Scratch? ==> st.pending.level == level) {
      TwoNonEmpty(st, readLevel, level, a, b);
    }
  }

  /**
   However a handshake stream is cut into chunks, the calls succeed if and only if one call with all of it does,
   and leave the same queue and the same scratch bytes.
   */
  lemma {:induction false} ChunksDoNotMatter(st: Input, readLevel: Level, level: Level, chunks: seq<seq<byte>>)
    requires level != EarlyData && chunks != []
    ensures ProvideAll(st, readLevel, level, chunks) == Provide(st, readLevel, level, Concat(chunks))
    decreases |chunks|
  {
    var a, rest := chunks[0], chunks[1..];
    var first := Provide(st, readLevel, level, a);
    if rest == [] {
      assert Concat(chunks) == a + [] == a;
    } else {
      TwoChunks(st, readLevel, level, a, Concat(rest));
      if first.Some? {
        ChunksDoNotMatter(first.value, readLevel, level, rest);
      }
    }
  }
}
