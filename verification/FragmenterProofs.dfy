/**
 What the fragmenter emits and queues, fragment by fragment, and when it gives a message up.  A try is what the
 environment does to one fragment; the calls of the code are proved to do exactly what their tries say.
 */
module FragmenterProofs {
  import opened Bytes
  import opened Sequences
  import opened RtxRecords
  import opened SendPath

  /** len bytes of a message from byte off on. */
  datatype Span = Span(off: nat, len: nat) {
    function End(): nat { off + len }
  }

  /** One fragment that was tried: the answer, whether an earlier flush held its record back, and where it lies. */
  datatype Try = Try(answer: Ret, held: bool, span: Span) {
    /** The record was built, and the message goes on. */
    predicate Made() { answer == Done || answer == WouldBlock }

    /** The record was built; it may be in the output buffer although sending it failed. */
    predicate Built() { Made() || answer == LateError }
  }

  /** The answer to a fragment whose record would get the given number. */
  function Verdict(htype: byte, number: word64, out: Out): Ret
  {
    if out.room != Free then RoomRet(out.room)
    else if htype != HELLO_RETRY_REQUEST && !out.alloc then MemoryError
    else if out.res.Failed? || (!TypeIsEncrypted(htype) && number == TWO64 - 1) then SendError
    else if out.res == FailedLate then LateError
    else if Blocked(out.res) then WouldBlock
    else Done
  }

  function TryOf(htype: byte, number: word64, span: Span, out: Out): Try
  {
    Try(Verdict(htype, number, out), out.res == Held, span)
  }

  /** The tries of one call of the fragmenter: it goes on from byte off until an answer other than 0. */
  function Tries(htype: byte, size: nat, off: nat, number: word64, room: nat, outs: seq<Out>, k: nat): seq<Try>
    requires off <= size && room > 0
    decreases size - off
  {
    if off == size then []
    else
      var len := Smaller(room, size - off);
      var x := TryOf(htype, number, Span(off, len), OutAt(outs, k));
      if x.answer == Done then [x] + Tries(htype, size, off + len, (number + 1) % TWO64, room, outs, k + 1) else [x]
  }

  function Spans(ts: seq<Try>, p: Try -> bool): seq<Span>
  {
    if ts == [] then [] else (if p(ts[0]) then [ts[0].span] else []) + Spans(ts[1..], p)
  }

  /** The fragments for which a record was built. */
  function BuiltBy(ts: seq<Try>): seq<Span>
  {
    Spans(ts, (x: Try) => x.Built())
  }

  /** Those of them that were sent or wait to be sent, so that the message goes on. */
  function MadeBy(ts: seq<Try>): seq<Span>
  {
    Spans(ts, (x: Try) => x.Made())
  }

  /** Those whose record was handed to the output buffer at once. */
  function EmittedBy(ts: seq<Try>): seq<Span>
  {
    Spans(ts, (x: Try) => x.Built() && !x.held)
  }

  lemma {:induction false} SpansConcat(a: seq<Try>, b: seq<Try>, p: Try -> bool)
    ensures Spans(a + b, p) == Spans(a, p) + Spans(b, p)
  {
    if a == [] {
      assert a + b == b;
    } else {
      var first := if p(a[0]) then [a[0].span] else [];
      assert (a + b)[0] == a[0] && (a + b)[1..] == a[1..] + b;
      SpansConcat(a[1..], b, p);
      Regroup(first, Spans(a[1..], p), Spans(b, p));
    }
  }

  lemma TriesConcat(a: seq<Try>, b: seq<Try>)
    ensures MadeBy(a + b) == MadeBy(a) + MadeBy(b) && EmittedBy(a + b) == EmittedBy(a) + EmittedBy(b)
    ensures BuiltBy(a + b) == BuiltBy(a) + BuiltBy(b)
  {
    SpansConcat(a, b, (x: Try) => x.Made());
    SpansConcat(a, b, (x: Try) => x.Built());
    SpansConcat(a, b, (x: Try) => x.Built() && !x.held);
  }

  lemma {:induction false} SamePicks(ts: seq<Try>, p: Try -> bool, q: Try -> bool)
    requires forall i :: 0 <= i < |ts| ==> p(ts[i]) == q(ts[i])
    ensures Spans(ts, p) == Spans(ts, q)
  {
    if ts != [] {
      SamePicks(ts[1..], p, q);
    }
  }

  lemma {:induction false} AllPicked(ts: seq<Try>, p: Try -> bool)
    requires forall i :: 0 <= i < |ts| ==> p(ts[i])
    ensures |Spans(ts, p)| == |ts| && forall i :: 0 <= i < |ts| ==> Spans(ts, p)[i] == ts[i].span
  {
    if ts != [] {
      AllPicked(ts[1..], p);
    }
  }

  /** While no flush blocks, everything that is built is emitted. */
  lemma NothingHeld(ts: seq<Try>)
    requires forall i :: 0 <= i < |ts| ==> !ts[i].held
    ensures EmittedBy(ts) == BuiltBy(ts)
  {
    SamePicks(ts, (x: Try) => x.Built(), (x: Try) => x.Built() && !x.held);
  }

  // ---------- effects ----------

  /** A message on its way: its type, body and number, and the epoch its records are sent under. */
  datatype Outgoing = Outgoing(htype: byte, body: seq<byte>, num: word16, epoch: word64)

  /** The payload is the fragment of the message at the span. */
  ghost predicate Carries(payload: seq<byte>, m: Outgoing, s: Span)
  {
    s.End() <= |m.body| && payload == FragmentBytes(m.htype, m.body, m.num, s.off, s.len)
  }

  /** The fragments ps were emitted, in order, between l and l'. */
  ghost predicate Emits(l: Link, l': Link, m: Outgoing, ps: seq<Span>)
  {
    Adds(l.wire, l'.wire, ps, (e: Emitted, s: Span) => e.rn.epoch == m.epoch && Carries(e.payload, m, s))
  }

  lemma EmitsAt(l: Link, l': Link, m: Outgoing, ps: seq<Span>, i: nat)
    requires Emits(l, l', m, ps) && i < |ps|
    ensures |l'.wire| == |l.wire| + |ps|
    ensures l'.wire[|l.wire| + i].rn.epoch == m.epoch && Carries(l'.wire[|l.wire| + i].payload, m, ps[i])
  {
  }

  /** Records with the fragments ps were queued, in order, behind recs. */
  ghost predicate Queues(recs: seq<Rec>, recs': seq<Rec>, m: Outgoing, ps: seq<Span>)
  {
    Adds(recs, recs', ps, (r: Rec, s: Span) => r.epoch == m.epoch && r.htype == m.htype && Carries(r.data, m, s))
  }

  /**
   The tries happened between t and t': what was built and not held back is on the wire, even if sending it failed
   late, and what was made is queued for retransmission, except for a HelloRetryRequest.
   */
  ghost predicate Did(t: Tx, t': Tx, m: Outgoing, ts: seq<Try>)
  {
    && TxOK(t') && t'.link.current == m.epoch
    && Emits(t.link, t'.link, m, EmittedBy(ts))
    && Queues(t.recs, t'.recs, m, if m.htype == HELLO_RETRY_REQUEST then [] else MadeBy(ts))
  }

  lemma DidChain(t: Tx, t1: Tx, t2: Tx, m: Outgoing, a: seq<Try>, b: seq<Try>)
    requires Did(t, t1, m, a) && Did(t1, t2, m, b)
    ensures Did(t, t2, m, a + b)
  {
    TriesConcat(a, b);
    var emits := (e: Emitted, s: Span) => e.rn.epoch == m.epoch && Carries(e.payload, m, s);
    var queues := (r: Rec, s: Span) => r.epoch == m.epoch && r.htype == m.htype && Carries(r.data, m, s);
    AddsChain(t.link.wire, t1.link.wire, t2.link.wire, EmittedBy(a), EmittedBy(b), emits);
    if m.htype == HELLO_RETRY_REQUEST {
      var none: seq<Span> := [];
      assert none + none == none;
      AddsChain(t.recs, t1.recs, t2.recs, none, none, queues);
    } else {
      AddsChain(t.recs, t1.recs, t2.recs, MadeBy(a), MadeBy(b), queues);
    }
  }

  // ---------- tiling ----------

  /** Where a message has been cut to by the fragments ps, which begin at from. */
  function Upto(from: nat, ps: seq<Span>): nat
  {
    if ps == [] then from else ps[|ps| - 1].End()
  }

  ghost predicate TileAt(ps: seq<Span>, i: int, from: nat, size: nat, room: nat)
    requires 0 <= i < |ps|
  {
    && 0 < ps[i].len <= room && ps[i].End() <= size
    && ps[i].off == (if i == 0 then from else ps[i - 1].End())
  }

  /** The spans follow each other from byte from on, inside a message of the given size, each of at most room bytes. */
  ghost predicate Tiles(ps: seq<Span>, from: nat, size: nat, room: nat)
  {
    forall i :: 0 <= i < |ps| ==> TileAt(ps, i, from, size, room)
  }

  lemma TilesConcat(a: seq<Span>, b: seq<Span>, from: nat, size: nat, room: nat)
    requires Tiles(a, from, size, room) && Tiles(b, Upto(from, a), size, room)
    ensures Tiles(a + b, from, size, room) && Upto(from, a + b) == Upto(Upto(from, a), b)
  {
    var ps := a + b;
    assert b == [] ==> ps == a;
    forall i | 0 <= i < |ps|
      ensures TileAt(ps, i, from, size, room)
    {
      assert if i < |a| then TileAt(a, i, from, size, room) else TileAt(b, i - |a|, Upto(from, a), size, room);
    }
  }

  // ---------- one call ----------

  /** The number and the wire after one record. */
  lemma RecordEmitted(l: Link, m: Outgoing, span: Span, res: SendResult) returns (l': Link, r: SendResult)
    requires l.current in l.next && span.End() <= |m.body| && m.epoch == l.current
    ensures (l', r) == SendRecord(l, m.htype, FragmentBytes(m.htype, m.body, m.num, span.off, span.len), res)
    ensures l'.current == l.current && l'.current in l'.next
    ensures r.Failed? <==> res.Failed? || (!TypeIsEncrypted(m.htype) && l.next[l.current] == TWO64 - 1)
    ensures !r.Failed? ==> r == res && l'.next[l'.current] == (l.next[l.current] + 1) % TWO64
    ensures Emits(l, l', m, if r.Failed? || r == Held then [] else [span])
  {
    var payload := FragmentBytes(m.htype, m.body, m.num, span.off, span.len);
    l', r := SendRecord(l, m.htype, payload, res).0, SendRecord(l, m.htype, payload, res).1;
    assert Carries(payload, m, span);
  }

  lemma RecordQueued(recs: seq<Rec>, r: Rec, m: Outgoing, span: Span)
    requires r.epoch == m.epoch && r.htype == m.htype && Carries(r.data, m, span)
    ensures Queues(recs, recs + [r], m, [span]) && Queues(recs, recs, m, [])
  {
  }

  /** A single record, on either path. */
  lemma SendOneDid(t: Tx, m: Outgoing, span: Span, out: Out) returns (t': Tx, ret: Ret)
    requires TxOK(t) && span.End() <= |m.body| && m.epoch == t.link.current
    ensures (t', ret) == SendOne(t, m.htype, FragmentBytes(m.htype, m.body, m.num, span.off, span.len), out)
    ensures
      var x := TryOf(m.htype, t.link.next[t.link.current], span, out.(room := Free));
      && ret == x.answer && Did(t, t', m, [x]) && t' == t.(link := t'.link, recs := t'.recs)
      && (x.Made() ==> t'.link.next[t'.link.current] == (t.link.next[t.link.current] + 1) % TWO64)
  {
    var payload, n := FragmentBytes(m.htype, m.body, m.num, span.off, span.len), t.link.next[t.link.current];
    OneTry(TryOf(m.htype, n, span, out.(room := Free)));
    RecordQueued(t.recs, NewRec(m.epoch, m.htype, payload, n, out.junk1, out.junk2), m, span);
    if m.htype != HELLO_RETRY_REQUEST && !out.alloc {
      return t, MemoryError;
    }
    var l, r := RecordEmitted(t.link, m, span, out.res);
    t', ret := SendOne(t, m.htype, payload, out).0, SendOne(t, m.htype, payload, out).1;
  }

  lemma OneTry(x: Try)
    ensures MadeBy([x]) == if x.Made() then [x.span] else []
    ensures BuiltBy([x]) == if x.Built() then [x.span] else []
    ensures EmittedBy([x]) == if x.Built() && !x.held then [x.span] else []
  {
    SpansOne(x, (y: Try) => y.Made());
    SpansOne(x, (y: Try) => y.Built());
    SpansOne(x, (y: Try) => y.Built() && !y.held);
  }

  lemma SpansOne(x: Try, p: Try -> bool)
    ensures Spans([x], p) == if p(x) then [x.span] else []
  {
    assert [x][1..] == [];
    assert Spans([x][1..], p) == [];
  }

  /** The message that is being cut. */
  function Current(t: Tx): Outgoing
    requires t.frag.Sending?
  {
    Outgoing(t.frag.htype, t.frag.body, t.num, t.link.current)
  }

  /** The fragments ps continue the message from where it was cut in t, and t' says where it is cut now. */
  ghost predicate CutOn(t: Tx, t': Tx, ret: Ret, ps: seq<Span>, room: nat)
    requires t.frag.Sending?
  {
    var off, size := t.frag.off, |t.frag.body|;
    && t'.num == t.num && t'.top == t.top
    && Tiles(ps, off, size, room) && off <= Upto(off, ps) <= size
    && t'.frag == (if ret == WouldBlock then t.frag.(off := Upto(off, ps)) else Idle)
    && (ret == Done ==> Upto(off, ps) == size)
    && (ret != Done && ret != WouldBlock && ret != LateError ==> Upto(off, ps) < size)
  }

  /** What a call for the fragments from t.frag.off on has done when it ends. */
  ghost predicate CallDid(t: Tx, t': Tx, ret: Ret, ts: seq<Try>, room: nat)
    requires t.frag.Sending?
  {
    && Did(t, t', Current(t), ts) && CutOn(t, t', ret, BuiltBy(ts), room) && Answers(ret, ts)
  }

  /** The message goes on exactly if every try built its record; otherwise the last try decides the answer. */
  ghost predicate Answers(ret: Ret, ts: seq<Try>)
  {
    && (ret == Done || ret == WouldBlock <==> forall i :: 0 <= i < |ts| ==> ts[i].Made())
    && (ret != Done && ret != WouldBlock ==>
          ts != [] && ret == ts[|ts| - 1].answer && forall i :: 0 <= i < |ts| - 1 ==> ts[i].Made())
  }

  /** What was built is what was made, and perhaps the last fragment, which is in the output buffer only. */
  lemma BuiltIsMade(ret: Ret, ts: seq<Try>)
    requires Answers(ret, ts)
    ensures BuiltBy(ts) == if ret == LateError then MadeBy(ts) + [ts[|ts| - 1].span] else MadeBy(ts)
  {
    if ret == LateError {
      var k := |ts| - 1;
      assert ts == ts[..k] + [ts[k]];
      TriesConcat(ts[..k], [ts[k]]);
      SamePicks(ts[..k], (x: Try) => x.Made(), (x: Try) => x.Built());
      OneTry(ts[k]);
    } else if ret == Done || ret == WouldBlock {
      SamePicks(ts, (x: Try) => x.Made(), (x: Try) => x.Built());
    } else {
      SamePicks(ts, (x: Try) => x.Made(), (x: Try) => x.Built());
    }
  }

  /** The length of the next fragment, and its try. */
  function NextLen(t: Tx, room: nat): nat
    requires t.frag.Sending? && t.frag.off <= |t.frag.body|
  {
    Smaller(room, |t.frag.body| - t.frag.off)
  }

  function NextTry(t: Tx, room: nat, out: Out): Try
    requires TxOK(t) && t.frag.Sending? && t.frag.off <= |t.frag.body|
  {
    TryOf(t.frag.htype, t.link.next[t.link.current], Span(t.frag.off, NextLen(t, room)), out)
  }

  lemma OneFragmentDid(t: Tx, room: nat, out: Out) returns (t': Tx, ret: Ret, x: Try)
    requires TxOK(t) && t.frag.Sending? && t.frag.off < |t.frag.body| && room > 0
    ensures (t', ret) == OneFragment(t, room, out)
    ensures x == NextTry(t, room, out) && ret == x.answer
    ensures Did(t, t', Current(t), [x]) && t'.num == t.num && t'.top == t.top
    ensures t'.frag == (if x.Made() then t.frag.(off := t.frag.off + NextLen(t, room)) else Idle)
    ensures x.Made() ==> t'.link.next[t'.link.current] == (t.link.next[t.link.current] + 1) % TWO64
  {
    t', ret := OneFragment(t, room, out).0, OneFragment(t, room, out).1;
    x := NextTry(t, room, out);
    if out.room == Free {
      var t1, ret1 := SendOneDid(t, Current(t), x.span, out);
      assert out.(room := Free) == out;
    } else {
      OneTry(x);
    }
  }

  /** The tries of a call that starts in state t. */
  ghost function TriesFrom(t: Tx, room: nat, outs: seq<Out>, k: nat): seq<Try>
    requires TxOK(t) && t.frag.Sending? && t.frag.off <= |t.frag.body| && room > 0
  {
    Tries(t.frag.htype, |t.frag.body|, t.frag.off, t.link.next[t.link.current], room, outs, k)
  }

  lemma TilesOne(s: Span, size: nat, room: nat)
    requires 0 < s.len <= room && s.End() <= size
    ensures Tiles([s], s.off, size, room) && Upto(s.off, [s]) == s.End()
  {
  }

  /** A first try, and a call that goes on from there. */
  lemma CallChain(t: Tx, t1: Tx, t2: Tx, ret: Ret, a: seq<Try>, b: seq<Try>, room: nat)
    requires t.frag.Sending? && CallDid(t, t1, WouldBlock, a, room) && CallDid(t1, t2, ret, b, room)
    ensures CallDid(t, t2, ret, a + b, room)
  {
    DidChain(t, t1, t2, Current(t), a, b);
    TriesConcat(a, b);
    CutChain(t, t1, t2, ret, BuiltBy(a), BuiltBy(b), room);
    AnswersChain(ret, a, b);
  }

  lemma CutChain(t: Tx, t1: Tx, t2: Tx, ret: Ret, a: seq<Span>, b: seq<Span>, room: nat)
    requires t.frag.Sending? && CutOn(t, t1, WouldBlock, a, room) && CutOn(t1, t2, ret, b, room)
    ensures CutOn(t, t2, ret, a + b, room)
  {
    TilesConcat(a, b, t.frag.off, |t.frag.body|, room);
  }

  lemma AnswersChain(ret: Ret, a: seq<Try>, b: seq<Try>)
    requires Answers(WouldBlock, a) && Answers(ret, b)
    ensures Answers(ret, a + b)
  {
    var ts := a + b;
    assert forall i :: 0 <= i < |a| ==> ts[i] == a[i];
    assert forall i :: 0 <= i < |b| ==> ts[|a| + i] == b[i];
  }

  lemma OneFragmentCall(t: Tx, room: nat, out: Out) returns (t': Tx, ret: Ret, x: Try)
    requires TxOK(t) && t.frag.Sending? && t.frag.off < |t.frag.body| && room > 0
    ensures (t', ret) == OneFragment(t, room, out) && x == NextTry(t, room, out) && ret == x.answer
    ensures CallDid(t, t', if ret == Done then WouldBlock else ret, [x], room)
    ensures ret == Done ==>
      && t'.frag == t.frag.(off := t.frag.off + NextLen(t, room))
      && t'.link.next[t'.link.current] == (t.link.next[t.link.current] + 1) % TWO64
  {
    t', ret, x := OneFragmentDid(t, room, out);
    OneTry(x);
    TilesOne(x.span, |t.frag.body|, room);
  }

  lemma NothingToCut(t: Tx, room: nat)
    requires TxOK(t) && t.frag.Sending? && t.frag.off == |t.frag.body|
    ensures CallDid(t, t.(frag := Idle), Done, [], room)
  {
  }

  lemma TriesEnd(t: Tx, room: nat, outs: seq<Out>, k: nat)
    requires TxOK(t) && t.frag.Sending? && t.frag.off < |t.frag.body| && room > 0
    requires NextTry(t, room, OutAt(outs, k)).answer != Done
    ensures TriesFrom(t, room, outs, k) == [NextTry(t, room, OutAt(outs, k))]
  {
  }

  lemma TriesStep(t: Tx, room: nat, outs: seq<Out>, k: nat, t1: Tx)
    requires TxOK(t) && t.frag.Sending? && t.frag.off < |t.frag.body| && room > 0 && TxOK(t1)
    requires t1.frag == t.frag.(off := t.frag.off + NextLen(t, room)) && t1.num == t.num
    requires t1.link.next[t1.link.current] == (t.link.next[t.link.current] + 1) % TWO64
    requires NextTry(t, room, OutAt(outs, k)).answer == Done
    ensures TriesFrom(t, room, outs, k) == [NextTry(t, room, OutAt(outs, k))] + TriesFrom(t1, room, outs, k + 1)
  {
  }

  /**
   One call of the fragmenter: its tries are what happens, and its answer is that of the last one.
   */
  lemma {:induction false} FragmenterDoes(t: Tx, room: nat, outs: seq<Out>, k: nat)
    returns (t': Tx, ret: Ret, ts: seq<Try>)
    requires TxOK(t) && t.frag.Sending? && t.frag.off <= |t.frag.body| && room > 0
    ensures (t', ret) == SendFragments(t, room, outs, k) && ts == TriesFrom(t, room, outs, k)
    ensures CallDid(t, t', ret, ts, room) && ret == if ts == [] then Done else ts[|ts| - 1].answer
    decreases |t.frag.body| - t.frag.off
  {
    if t.frag.off == |t.frag.body| {
      NothingToCut(t, room);
      return t.(frag := Idle), Done, [];
    }
    var t1, ret1, x := OneFragmentCall(t, room, OutAt(outs, k));
    if ret1 != Done {
      TriesEnd(t, room, outs, k);
      return t1, ret1, [x];
    }
    t', ret, ts := FragmenterDoes(t1, room, outs, k + 1);
    TriesStep(t, room, outs, k, t1);
    CallChain(t, t1, t', ret, [x], ts, room);
    ts := [x] + ts;
  }

  /** Try j of a call lies at byte at, its record gets number n; the call goes on as long as records are just sent. */
  ghost predicate TryIs(ts: seq<Try>, j: nat, htype: byte, size: nat, at: nat, n: word64, room: nat, out: Out)
  {
    j < |ts| ==>
      && at < size && ts[j] == TryOf(htype, n, Span(at, Smaller(room, size - at)), out)
      && (j + 1 < |ts| ==> ts[j].answer == Done)
      && (j + 1 == |ts| && ts[j].answer == Done ==> size <= at + room)
  }

  lemma TryShifted(x: Try, rest: seq<Try>, j: nat, htype: byte, size: nat, at: nat, n: word64, room: nat, out: Out)
    requires j > 0 && TryIs(rest, j - 1, htype, size, at, n, room, out)
    ensures TryIs([x] + rest, j, htype, size, at, n, room, out)
  {
  }

  /** The number j numbers behind the given one. */
  function NumberAt(number: word64, j: nat): (n: word64)
    ensures n == (number + j) % TWO64
    decreases j
  {
    if j == 0 then number else NumberAt((number + 1) % TWO64, j - 1)
  }

  /** The byte j fragments behind byte off. */
  function ByteAt(off: nat, room: nat, j: nat): (at: nat)
    decreases j
  {
    if j == 0 then off else ByteAt(off + room, room, j - 1)
  }

  lemma {:induction false} ByteAtIs(off: nat, room: nat, j: nat)
    ensures ByteAt(off, room, j) == off + j * room
    decreases j
  {
    if j > 0 {
      ByteAtIs(off + room, room, j - 1);
    }
  }

  /** Try number j of a call is what the environment's j-th outcome makes of it. */
  lemma {:induction false} TriesAre(htype: byte, size: nat, off: nat, number: word64, room: nat, outs: seq<Out>, k: nat,
                                    j: nat)
    requires off <= size && room > 0
    ensures TryIs(Tries(htype, size, off, number, room, outs, k), j, htype, size, ByteAt(off, room, j),
                  NumberAt(number, j), room, OutAt(outs, k + j))
    decreases j
  {
    if off < size && j > 0 {
      var len := Smaller(room, size - off);
      var x := TryOf(htype, number, Span(off, len), OutAt(outs, k));
      if x.answer == Done && off + len < size {
        TriesAre(htype, size, off + len, (number + 1) % TWO64, room, outs, k + 1, j - 1);
        TryShifted(x, Tries(htype, size, off + len, (number + 1) % TWO64, room, outs, k + 1), j, htype, size,
                   ByteAt(off, room, j), NumberAt(number, j), room, OutAt(outs, k + j));
      }
    }
  }

  // ---------- resumption ----------

  /** A call of Dtls13FragmentsContinue in the course of a message. */
  datatype Call = Call(maxFrag: nat, outs: seq<Out>)

  /** Every call leaves room for a fragment, and none for more than most bytes of one. */
  ghost predicate CallsOK(calls: seq<Call>, htype: byte, cidSz: nat, most: nat)
  {
    forall i :: 0 <= i < |calls| ==> 0 < FragmentRoom(htype, cidSz, calls[i].maxFrag) <= most
  }

  /** Counting the message changes none of its fragments. */
  ghost predicate ContinueDid(t: Tx, t': Tx, ret: Ret, ts: seq<Try>, room: nat)
    requires t.frag.Sending?
  {
    && t'.num == (if ret == Done then (t.num + 1) % 0x1_0000 else t.num)
    && CallDid(t, t'.(num := t.num), ret, ts, room)
  }

  lemma Counted(t: Tx, t1: Tx, ret: Ret, ts: seq<Try>, room: nat)
    requires t.frag.Sending? && CallDid(t, t1, ret, ts, room)
    ensures ContinueDid(t, if ret == Done then NextNum(t1) else t1, ret, ts, room)
  {
    var t' := if ret == Done then NextNum(t1) else t1;
    assert t'.(num := t.num) == t1;
  }

  lemma RoomGrows(t: Tx, t': Tx, ret: Ret, ts: seq<Try>, room: nat, more: nat)
    requires t.frag.Sending? && CallDid(t, t', ret, ts, room) && room <= more
    ensures CallDid(t, t', ret, ts, more)
  {
    var ps := BuiltBy(ts);
    forall i | 0 <= i < |ps|
      ensures TileAt(ps, i, t.frag.off, |t.frag.body|, more)
    {
      assert TileAt(ps, i, t.frag.off, |t.frag.body|, room);
    }
  }

  /** One call of Dtls13FragmentsContinue. */
  lemma ContinueDoes(t: Tx, cidSz: nat, call: Call, most: nat) returns (t': Tx, ret: Ret, ts: seq<Try>)
    requires TxOK(t) && t.frag.Sending? && t.frag.off <= |t.frag.body|
    requires 0 < FragmentRoom(t.frag.htype, cidSz, call.maxFrag) <= most
    ensures (t', ret) == FragmentsContinue(t, cidSz, call.maxFrag, call.outs)
    ensures ts == TriesFrom(t, FragmentRoom(t.frag.htype, cidSz, call.maxFrag), call.outs, 0)
    ensures ContinueDid(t, t', ret, ts, most)
  {
    var t1;
    t1, ret, ts := FragmenterDoes(t, FragmentRoom(t.frag.htype, cidSz, call.maxFrag), call.outs, 0);
    t' := if ret == Done then NextNum(t1) else t1;
    RoomGrows(t, t1, ret, ts, FragmentRoom(t.frag.htype, cidSz, call.maxFrag), most);
    Counted(t, t1, ret, ts, most);
  }

  /** Keep calling Dtls13FragmentsContinue while fragments are pending; with everything that was tried. */
  ghost function Resume(t: Tx, cidSz: nat, calls: seq<Call>, most: nat): (Tx, Ret, seq<Try>)
    requires TxOK(t) && t.frag.Sending? && t.frag.off <= |t.frag.body|
    requires CallsOK(calls, t.frag.htype, cidSz, most)
    decreases |calls|
  {
    if calls == [] then (t, WouldBlock, [])
    else
      var ts := TriesFrom(t, FragmentRoom(t.frag.htype, cidSz, calls[0].maxFrag), calls[0].outs, 0);
      var (t1, ret) := FragmentsContinue(t, cidSz, calls[0].maxFrag, calls[0].outs);
      ContinueStays(t, cidSz, calls[0], most);
      if ret != WouldBlock then (t1, ret, ts)
      else
        var r := Resume(t1, cidSz, calls[1..], most);
        (r.0, r.1, ts + r.2)
  }

  /** A blocked message can be resumed. */
  ghost predicate Resumable(t: Tx, t': Tx)
    requires t.frag.Sending?
  {
    TxOK(t') && t'.frag.Sending? && t'.frag == Sending(t.frag.htype, t.frag.body, t'.frag.off)
      && t'.frag.off <= |t.frag.body|
  }

  lemma ContinueStays(t: Tx, cidSz: nat, call: Call, most: nat)
    requires TxOK(t) && t.frag.Sending? && t.frag.off <= |t.frag.body|
    requires 0 < FragmentRoom(t.frag.htype, cidSz, call.maxFrag) <= most
    ensures
      var (t', ret) := FragmentsContinue(t, cidSz, call.maxFrag, call.outs);
      ret == WouldBlock ==> Resumable(t, t')
  {
    var t', ret, ts := ContinueDoes(t, cidSz, call, most);
  }

  lemma ContinueChain(t: Tx, t1: Tx, t2: Tx, ret: Ret, a: seq<Try>, b: seq<Try>, room: nat)
    requires t.frag.Sending? && ContinueDid(t, t1, WouldBlock, a, room) && t1.frag.Sending?
    requires ContinueDid(t1, t2, ret, b, room)
    ensures ContinueDid(t, t2, ret, a + b, room)
  {
    assert t1.(num := t.num) == t1;
    CallChain(t, t1, t2.(num := t.num), ret, a, b, room);
  }

  lemma Paused(t: Tx, room: nat)
    requires TxOK(t) && t.frag.Sending? && t.frag.off <= |t.frag.body|
    ensures ContinueDid(t, t, WouldBlock, [], room)
  {
    assert t.(num := t.num) == t;
  }

  /**
   A pending message, resumed however often it blocks and with whatever fragment size each resumption finds:
   ContinueDid says what was emitted and queued, that it tiles the message, and that the message goes on exactly
   while no flush in front of a fragment blocks and nothing fails.
   */
  lemma {:induction false} ResumeDoes(t: Tx, cidSz: nat, calls: seq<Call>, most: nat)
    returns (t': Tx, ret: Ret, ts: seq<Try>)
    requires TxOK(t) && t.frag.Sending? && t.frag.off <= |t.frag.body|
    requires CallsOK(calls, t.frag.htype, cidSz, most)
    ensures (t', ret, ts) == Resume(t, cidSz, calls, most)
    ensures ContinueDid(t, t', ret, ts, most)
    decreases |calls|
  {
    if calls == [] {
      Paused(t, most);
      return t, WouldBlock, [];
    }
    var t1, ret1, ts1 := ContinueDoes(t, cidSz, calls[0], most);
    if ret1 != WouldBlock {
      return t1, ret1, ts1;
    }
    t', ret, ts := ResumeDoes(t1, cidSz, calls[1..], most);
    ContinueChain(t, t1, t', ret, ts1, ts, most);
    ts := ts1 + ts;
  }
}
