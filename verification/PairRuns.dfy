/** Every interleaving of writes and reads on the two ends of a BIO pair. */
module PairRuns {
  import opened Bytes
  import opened Sequences
  import opened RingBuffer

  /** One direction: the ring, and what its writers and readers were told so far. */
  datatype Pipe = Pipe(ring: Ring, accepted: seq<byte>, returned: seq<byte>)

  datatype Call = Put(data: seq<byte>) | Take(len: nat)

  datatype Pair = Pair(a: Pipe, b: Pipe)

  function PipeWrite(p: Pipe, data: seq<byte>): Pipe
    requires RingOK(p.ring)
  {
    var res := Write(p.ring, data);
    p.(ring := res.ring, accepted := p.accepted + if 0 <= res.ret <= |data| then data[..res.ret] else [])
  }

  function PipeRead(p: Pipe, len: nat): Pipe
    requires RingOK(p.ring)
  {
    var res := Read(p.ring, len);
    p.(ring := res.ring, returned := p.returned + res.bytes)
  }

  /** End a writes its own ring and reads the ring of its pair; end b the other way round. */
  function Step(s: Pair, atA: bool, call: Call): Pair
    requires RingOK(s.a.ring) && RingOK(s.b.ring)
  {
    match call
    case Put(data) => if atA then s.(a := PipeWrite(s.a, data)) else s.(b := PipeWrite(s.b, data))
    case Take(len) => if atA then s.(b := PipeRead(s.b, len)) else s.(a := PipeRead(s.a, len))
  }

  /** Bytes handed out, followed by the bytes in the ring, are the bytes accepted. */
  ghost predicate Conserves(p: Pipe)
  {
    RingOK(p.ring) && p.accepted == p.returned + Content(p.ring)
  }

  lemma WriteConserves(p: Pipe, data: seq<byte>)
    requires Conserves(p)
    ensures Conserves(PipeWrite(p, data))
  {
    var q := PipeWrite(p, data);
    var res := Write(p.ring, data);
    if data != [] {
      WriteExact(p.ring, data);
      if res.ret >= 0 {
        Regroup(p.returned, Content(p.ring), data[..res.ret]);
      }
    }
  }

  lemma ReadConserves(p: Pipe, len: nat)
    requires Conserves(p)
    ensures Conserves(PipeRead(p, len))
  {
    var res := Read(p.ring, len);
    if len == 0 {
      Regroup(p.returned, [], Content(p.ring));
    } else if Stalled(p.ring) {
      ReadStalled(p.ring, len);
    } else {
      ReadExact(p.ring, len);
      Regroup(p.returned, res.bytes, Content(res.ring));
    }
  }

  function Run(s: Pair, calls: seq<(bool, Call)>): (r: Pair)
    requires RingOK(s.a.ring) && RingOK(s.b.ring)
    decreases |calls|
  {
    if calls == [] then s else Run(Step(s, calls[0].0, calls[0].1), calls[1..])
  }

  /**
   In each direction, for every interleaving: what readers got is a prefix of what writers were told was
   accepted, and the rest is exactly what the ring holds.
   */
  lemma {:induction false} PairIsTwoPipes(s: Pair, calls: seq<(bool, Call)>)
    requires Conserves(s.a) && Conserves(s.b)
    ensures Conserves(Run(s, calls).a) && Conserves(Run(s, calls).b)
    decreases |calls|
  {
    if calls != [] {
      match calls[0].1 {
        case Put(data) => if calls[0].0 { WriteConserves(s.a, data); } else { WriteConserves(s.b, data); }
        case Take(len) => if calls[0].0 { ReadConserves(s.b, len); } else { ReadConserves(s.a, len); }
      }
      PairIsTwoPipes(Step(s, calls[0].0, calls[0].1), calls[1..]);
    }
  }

  /** wolfSSL_BIO_make_bio_pair starts with empty rings of any size. */
  function Fresh(buf: seq<byte>): Pipe { Pipe(Ring(buf, 0, 0), [], []) }

  lemma FreshConserves(buf: seq<byte>)
    requires |buf| < 0x8000_0000
    ensures Conserves(Fresh(buf)) && Content(Fresh(buf).ring) == []
  {
  }

  /** A read for more than the content drains a direction that is not stalled. */
  lemma LongReadDrains(p: Pipe, len: nat)
    requires Conserves(p) && !Stalled(p.ring) && len > |Content(p.ring)|
    ensures PipeRead(p, len).returned == p.accepted
  {
    ReadConserves(p, len);
    ReadExact(p.ring, len);
    var res := Read(p.ring, len);
    assert |res.bytes + Content(res.ring)| == |Content(p.ring)|;
  }

  /** A stalled direction takes the next write, and is then no longer stalled. */
  lemma WriteEndsStall(r: Ring, data: seq<byte>)
    requires RingOK(r) && Stalled(r) && data != []
    ensures !Stalled(Write(r, data).ring) && Write(r, data).ret == Min(|data|, r.rd) > 0
  {
    StallsIff(r, data);
    WriteExact(r, data);
  }
}
