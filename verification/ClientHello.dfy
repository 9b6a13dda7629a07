/**
 Stateless parsing of a ClientHello (section 5.3 of RFC 9147) and the search for an extension (section 4.2 of
 RFC 8446): ReadVector8, ReadVector16, ParseClientHello and FindExtByType in boot/src/dtls.c.
 */
module ClientHello {
  import opened Bytes
  import opened Options
  import opened Sequences

  const RAN_LEN := 32

  datatype Hello = Hello(version: seq<byte>, random: seq<byte>, sessionId: seq<byte>, cookie: seq<byte>,
                         suites: seq<byte>, compression: seq<byte>, extension: Option<seq<byte>>)

  // ---------- the encoding ----------

  function Vector8(s: seq<byte>): seq<byte>
    requires |s| < 0x100
  {
    [|s|] + s
  }

  function Vector16(s: seq<byte>): seq<byte>
    requires |s| < 0x1_0000
  {
    Put16(|s|) + s
  }

  /** The fields have the sizes their length prefixes can express; an extension block is not empty. */
  predicate HelloOK(h: Hello)
  {
    && |h.version| == 2 && |h.random| == RAN_LEN
    && |h.sessionId| < 0x100 && |h.cookie| < 0x100 && |h.suites| < 0x1_0000 && |h.compression| < 0x100
    && (h.extension.Some? ==> 0 < |h.extension.value| < 0x1_0000)
  }

  /** Everything before the extension block. */
  function Head(h: Hello): seq<byte>
    requires HelloOK(h)
  {
    h.version + h.random + Vector8(h.sessionId) + Vector8(h.cookie) + Vector16(h.suites) + Vector8(h.compression)
  }

  function Encode(h: Hello): seq<byte>
    requires HelloOK(h)
  {
    Head(h) + if h.extension.None? then [] else Vector16(h.extension.value)
  }

  // ---------- the parser ----------

  /** ReadVector8 and ReadVector16: where the vector's bytes end, from where its length starts. */
  function End8(s: seq<byte>, idx: nat): (e: nat)
    requires idx < |s|
    ensures idx + 1 <= e < idx + 1 + 0x100
  {
    idx + 1 + s[idx]
  }

  function End16(s: seq<byte>, idx: nat): (e: nat)
    requires idx + 2 <= |s|
    ensures idx + 2 <= e < idx + 2 + 0x1_0000
  {
    idx + 2 + Get16(s[idx..idx + 2])
  }

  /** Where the vectors end: session id, cookie, suites, compression. */
  datatype Ends = Ends(sid: nat, cookie: nat, suites: nat, compression: nat) | TooShort

  function VectorEnds(s: seq<byte>): (e: Ends)
    ensures e.Ends? ==> 35 <= e.sid < e.cookie && e.cookie + 2 <= e.suites < e.compression && e.suites < |s|
  {
    if 2 + RAN_LEN + 1 > |s| then TooShort
    else
      var sid := End8(s, 34);
      if sid > |s| - 1 then TooShort
      else
        var cookie := End8(s, sid);
        if cookie > |s| - 2 then TooShort
        else
          var suites := End16(s, cookie);
          if suites > |s| - 1 then TooShort else Ends(sid, cookie, suites, End8(s, suites))
  }

  function HelloAt(s: seq<byte>, e: Ends, extension: Option<seq<byte>>): Hello
    requires e.Ends? && 35 <= e.sid < e.cookie && e.cookie + 2 <= e.suites < e.compression <= |s|
  {
    Hello(s[..2], s[2..34], s[35..e.sid], s[e.sid + 1..e.cookie], s[e.cookie + 2..e.suites],
          s[e.suites + 1..e.compression], extension)
  }

  /** ParseClientHello; None is BUFFER_ERROR.  A first fragment may end inside the extension block. */
  function Parse(s: seq<byte>, firstFragment: bool): Option<Hello>
  {
    var e := VectorEnds(s);
    if e.TooShort? then None
    else if e.compression + 2 < |s| then
      var end := End16(s, e.compression);
      if end > |s| then
        if firstFragment then Some(HelloAt(s, e, Some(s[e.compression + 2..]))) else None
      else if end != |s| then None
      else Some(HelloAt(s, e, Some(s[e.compression + 2..end])))
    else if e.compression != |s| then None
    else Some(HelloAt(s, e, None))
  }

  // ---------- exactly the encodings are accepted ----------

  lemma SliceAt<T>(a: seq<T>, b: seq<T>, c: seq<T>)
    ensures (a + b + c)[|a|..|a| + |b|] == b
    ensures (a + b + c)[..|a| + |b|] == a + b
  {
  }

  /** A vector with one or two length bytes stands at idx. */
  ghost predicate Vec8In(s: seq<byte>, idx: nat, v: seq<byte>)
  {
    idx < |s| && End8(s, idx) == idx + 1 + |v| <= |s| && s[idx + 1..idx + 1 + |v|] == v
  }

  ghost predicate Vec16In(s: seq<byte>, idx: nat, v: seq<byte>)
  {
    idx + 2 <= |s| && End16(s, idx) == idx + 2 + |v| <= |s| && s[idx + 2..idx + 2 + |v|] == v
  }

  lemma Vector8At(before: seq<byte>, v: seq<byte>, after: seq<byte>, s: seq<byte>)
    requires |v| < 0x100 && s == before + Vector8(v) + after
    ensures Vec8In(s, |before|, v) && |s| == |before| + 1 + |v| + |after|
  {
    SliceAt(before + [|v|], v, after);
    assert s == before + [|v|] + v + after;
  }

  lemma Vector16At(before: seq<byte>, v: seq<byte>, after: seq<byte>, s: seq<byte>)
    requires |v| < 0x1_0000 && s == before + Vector16(v) + after
    ensures Vec16In(s, |before|, v) && |s| == |before| + 2 + |v| + |after|
  {
    SliceAt(before, Put16(|v|), v + after);
    SliceAt(before + Put16(|v|), v, after);
    assert s == before + Put16(|v|) + (v + after) == before + Put16(|v|) + v + after;
  }

  /** The fields of a hello are where the parser looks for them. */
  ghost predicate Fields(h: Hello, s: seq<byte>)
    requires HelloOK(h)
  {
    && |s| >= 34 && s[..2] == h.version && s[2..34] == h.random
    && FrontIn(s, 34, h.sessionId, h.cookie)
    && BackIn(s, 36 + |h.sessionId| + |h.cookie|, h.suites, h.compression)
  }

  ghost predicate FrontIn(s: seq<byte>, idx: nat, sid: seq<byte>, cookie: seq<byte>)
  {
    Vec8In(s, idx, sid) && Vec8In(s, idx + 1 + |sid|, cookie)
  }

  ghost predicate BackIn(s: seq<byte>, idx: nat, suites: seq<byte>, compression: seq<byte>)
  {
    Vec16In(s, idx, suites) && Vec8In(s, idx + 2 + |suites|, compression)
  }

  lemma Peel8(s: seq<byte>, p: seq<byte>, v: seq<byte>, rest: seq<byte>)
    requires |v| < 0x100 && s == p + (Vector8(v) + rest)
    ensures Vec8In(s, |p|, v) && s == (p + Vector8(v)) + rest
  {
    Regroup(p, Vector8(v), rest);
    Vector8At(p, v, rest, s);
  }

  lemma Peel16(s: seq<byte>, p: seq<byte>, v: seq<byte>, rest: seq<byte>)
    requires |v| < 0x1_0000 && s == p + (Vector16(v) + rest)
    ensures Vec16In(s, |p|, v) && s == (p + Vector16(v)) + rest
  {
    Regroup(p, Vector16(v), rest);
    Vector16At(p, v, rest, s);
  }

  lemma Nested(s: seq<byte>, p: seq<byte>, v1: seq<byte>, v2: seq<byte>, v3: seq<byte>, v4: seq<byte>, after: seq<byte>)
    requires s == p + v1 + v2 + v3 + v4 + after
    ensures s == p + (v1 + (v2 + (v3 + (v4 + after))))
  {
    Regroup(p + v1 + v2 + v3, v4, after);
    Regroup(p + v1 + v2, v3, v4 + after);
    Regroup(p + v1, v2, v3 + (v4 + after));
    Regroup(p, v1, v2 + (v3 + (v4 + after)));
  }

  lemma PeelFront(s: seq<byte>, p: seq<byte>, sid: seq<byte>, cookie: seq<byte>, rest: seq<byte>)
    requires |sid| < 0x100 && |cookie| < 0x100 && s == p + (Vector8(sid) + (Vector8(cookie) + rest))
    ensures FrontIn(s, |p|, sid, cookie)
    ensures s == p + Vector8(sid) + Vector8(cookie) + rest
  {
    Peel8(s, p, sid, Vector8(cookie) + rest);
    Peel8(s, p + Vector8(sid), cookie, rest);
  }

  lemma PeelBack(s: seq<byte>, p: seq<byte>, suites: seq<byte>, compression: seq<byte>, rest: seq<byte>)
    requires |suites| < 0x1_0000 && |compression| < 0x100 && s == p + (Vector16(suites) + (Vector8(compression) + rest))
    ensures BackIn(s, |p|, suites, compression)
  {
    Peel16(s, p, suites, Vector8(compression) + rest);
    Peel8(s, p + Vector16(suites), compression, rest);
  }

  lemma HeadFields(h: Hello, after: seq<byte>, s: seq<byte>)
    requires HelloOK(h) && s == Head(h) + after
    ensures Fields(h, s)
  {
    var start := h.version + h.random;
    var back := Vector16(h.suites) + (Vector8(h.compression) + after);
    Nested(s, start, Vector8(h.sessionId), Vector8(h.cookie), Vector16(h.suites), Vector8(h.compression), after);
    StartAt(h.version, h.random, Vector8(h.sessionId) + (Vector8(h.cookie) + back));
    PeelFront(s, start, h.sessionId, h.cookie, back);
    var front := start + Vector8(h.sessionId) + Vector8(h.cookie);
    assert |front| == 36 + |h.sessionId| + |h.cookie|;
    PeelBack(s, front, h.suites, h.compression, after);
  }

  /** The parser finds the fields of a head, whatever follows it. */
  lemma HeadParsed(h: Hello, after: seq<byte>, s: seq<byte>)
    requires HelloOK(h) && s == Head(h) + after
    ensures
      var e := VectorEnds(s);
      && e.Ends? && e.compression == |Head(h)| <= |s|
      && forall x :: HelloAt(s, e, x) == h.(extension := x)
  {
    HeadFields(h, after, s);
  }

  lemma StartAt(version: seq<byte>, random: seq<byte>, rest: seq<byte>)
    requires |version| == 2 && |random| == RAN_LEN
    ensures var s := version + random + rest; s[..2] == version && s[2..34] == random
  {
  }

  /** Every hello is accepted, fragment or not, with exactly its fields. */
  lemma EncodedIsParsed(h: Hello, firstFragment: bool)
    requires HelloOK(h)
    ensures Parse(Encode(h), firstFragment) == Some(h)
  {
    var s := Encode(h);
    if h.extension.None? {
      HeadParsed(h, [], s);
    } else {
      HeadParsed(h, Vector16(h.extension.value), s);
      assert s + [] == s;
      Vector16At(Head(h), h.extension.value, [], s);
      ExtensionParsed(s, h.extension.value, firstFragment);
    }
  }

  /** A non-empty extension block that ends with the message. */
  lemma ExtensionParsed(s: seq<byte>, v: seq<byte>, firstFragment: bool)
    requires
      var e := VectorEnds(s);
      e.Ends? && v != [] && |s| == e.compression + 2 + |v| && Vec16In(s, e.compression, v)
    ensures Parse(s, firstFragment) == Some(HelloAt(s, VectorEnds(s), Some(v)))
  {
  }

  lemma Vector8Back(s: seq<byte>, idx: nat)
    requires idx < |s| && End8(s, idx) <= |s|
    ensures s[idx..End8(s, idx)] == Vector8(s[idx + 1..End8(s, idx)])
  {
  }

  lemma Vector16Back(s: seq<byte>, idx: nat)
    requires idx + 2 <= |s| && End16(s, idx) <= |s|
    ensures s[idx..End16(s, idx)] == Vector16(s[idx + 2..End16(s, idx)])
  {
    var l := s[idx..idx + 2];
    assert Put16(Get16(l)) == l;
    ConcatSlices(s, idx, idx + 2, End16(s, idx));
  }

  /** What the parser takes for the head is one. */
  lemma HeadBack(s: seq<byte>, e: Ends)
    requires e == VectorEnds(s) && e.Ends? && e.compression <= |s|
    ensures HelloOK(HelloAt(s, e, None)) && Head(HelloAt(s, e, None)) == s[..e.compression]
  {
    Vector8Back(s, 34);
    Vector8Back(s, e.sid);
    Vector16Back(s, e.cookie);
    Vector8Back(s, e.suites);
    ConcatSlices(s, 0, 2, 34);
    ConcatSlices(s, 0, 34, e.sid);
    ConcatSlices(s, 0, e.sid, e.cookie);
    ConcatSlices(s, 0, e.cookie, e.suites);
    ConcatSlices(s, 0, e.suites, e.compression);
  }

  /** A hello that is not a fragment is accepted only if it is the encoding of what is returned. */
  lemma ParsedIsEncoded(s: seq<byte>)
    requires Parse(s, false).Some?
    ensures HelloOK(Parse(s, false).value) && Encode(Parse(s, false).value) == s
  {
    var e := VectorEnds(s);
    var h := HelloAt(s, e, None);
    HeadBack(s, e);
    if e.compression + 2 < |s| {
      var r := Parse(s, false).value;
      Vector16Back(s, e.compression);
      assert Head(r) == Head(h) && r.extension == Some(s[e.compression + 2..|s|]);
      ConcatSlices(s, 0, e.compression, |s|);
      assert s[0..|s|] == s && s[0..e.compression] == s[..e.compression];
    } else {
      assert s[..e.compression] == s;
    }
  }

  /** Acceptance of a complete hello, as an equivalence. */
  lemma AcceptedIff(s: seq<byte>)
    ensures Parse(s, false).Some? <==> exists h :: HelloOK(h) && Encode(h) == s
  {
    if Parse(s, false).Some? {
      ParsedIsEncoded(s);
    }
    if h :| HelloOK(h) && Encode(h) == s {
      EncodedIsParsed(h, false);
    }
  }

  /** Where the bytes of a first fragment stop: inside the extension block of a hello, behind its first byte. */
  ghost predicate FragmentOf(s: seq<byte>, h: Hello, n: nat)
  {
    && HelloOK(h) && h.extension.Some? && |h.extension.value| < n < 0x1_0000
    && s == Head(h) + Put16(n) + h.extension.value
  }

  /** A first fragment is a complete hello, or one cut inside its extensions; the bytes that are there are returned. */
  lemma FragmentParsed(s: seq<byte>)
    requires Parse(s, true).Some? && Parse(s, false).None?
    ensures exists n :: FragmentOf(s, Parse(s, true).value, n)
  {
    var e := VectorEnds(s);
    var r := Parse(s, true).value;
    var n: nat := Get16(s[e.compression..e.compression + 2]);
    HeadBack(s, e);
    assert Head(r) == Head(HelloAt(s, e, None));
    assert Put16(n) == s[e.compression..e.compression + 2];
    ConcatSlices(s, 0, e.compression, e.compression + 2);
    ConcatSlices(s, 0, e.compression + 2, |s|);
    assert s == s[0..|s|];
    assert FragmentOf(s, r, n);
  }

  lemma FragmentAccepted(s: seq<byte>, h: Hello, n: nat)
    requires FragmentOf(s, h, n)
    ensures Parse(s, true) == Some(h) && Parse(s, false).None?
  {
    var ext := h.extension.value;
    Regroup(Head(h), Put16(n), ext);
    HeadParsed(h, Put16(n) + ext, s);
    SliceAt(Head(h), Put16(n), ext);
    assert s[|Head(h)| + 2..] == ext;
  }

  // ---------- extensions ----------

  type Bytes16 = s: seq<byte> | |s| < 0x1_0000

  datatype Entry = Entry(extType: word16, data: Bytes16)

  datatype Search = Found(data: seq<byte>) | NotFound | BufferError

  /** FindExtByType from idx on. */
  function Find(exts: seq<byte>, extType: word16, idx: nat): Search
    requires idx <= |exts|
    decreases |exts| - idx
  {
    if |exts| - idx < 4 then NotFound
    else
      var end := End16(exts, idx + 2);
      if end > |exts| then BufferError
      else if Get16(exts[idx..idx + 2]) == extType then Found(exts[idx + 4..end])
      else Find(exts, extType, end)
  }

  function EncodeEntry(e: Entry): (s: seq<byte>)
    ensures |s| == 4 + |e.data|
  {
    Put16(e.extType) + Vector16(e.data)
  }

  function EncodeEntries(es: seq<Entry>): seq<byte>
  {
    if es == [] then [] else EncodeEntry(es[0]) + EncodeEntries(es[1..])
  }

  /** The last bytes begin an entry that goes beyond the end. */
  predicate Overruns(tail: seq<byte>) { |tail| >= 4 && End16(tail, 2) > |tail| }

  /** The first entry of the type, if any. */
  function First(es: seq<Entry>, extType: word16): Option<seq<byte>>
  {
    if es == [] then None else if es[0].extType == extType then Some(es[0].data) else First(es[1..], extType)
  }

  /** The entry that stands at idx, and where it ends. */
  ghost predicate EntryIn(exts: seq<byte>, idx: nat, e: Entry)
  {
    Vec16In(exts, idx + 2, e.data) && Get16(exts[idx..idx + 2]) == e.extType
  }

  lemma EntryAt(exts: seq<byte>, idx: nat, e: Entry, rest: seq<byte>)
    requires idx <= |exts| && exts[idx..] == EncodeEntry(e) + rest
    ensures EntryIn(exts, idx, e) && idx + 4 + |e.data| <= |exts| && exts[idx + 4 + |e.data|..] == rest
  {
    var t, v, s := Put16(e.extType), Vector16(e.data), exts[idx..];
    assert s == t + v + rest;
    Vector16At(t, e.data, rest, s);
    assert s[..2] == t && s[|t + v|..] == rest;
    assert exts[idx..idx + 2] == s[..2] && exts[idx + 2..idx + 4] == s[2..4];
    assert exts[idx + 4..idx + 4 + |e.data|] == s[4..4 + |e.data|];
  }

  lemma FindStep(exts: seq<byte>, idx: nat, e: Entry, extType: word16)
    requires EntryIn(exts, idx, e)
    ensures Find(exts, extType, idx) ==
      if e.extType == extType then Found(e.data) else Find(exts, extType, idx + 4 + |e.data|)
  {
  }

  lemma FindTail(exts: seq<byte>, idx: nat, extType: word16)
    requires idx <= |exts| && (|exts| - idx < 4 || Overruns(exts[idx..]))
    ensures Find(exts, extType, idx) == if Overruns(exts[idx..]) then BufferError else NotFound
  {
    if |exts| - idx >= 4 {
      assert exts[idx + 2..idx + 4] == exts[idx..][2..4];
    }
  }

  ghost function Expected(es: seq<Entry>, tail: seq<byte>, extType: word16): Search
  {
    match First(es, extType)
    case Some(data) => Found(data)
    case None => if Overruns(tail) then BufferError else NotFound
  }

  lemma {:induction false} FindFrom(exts: seq<byte>, idx: nat, es: seq<Entry>, tail: seq<byte>, extType: word16)
    requires (|tail| < 4 || Overruns(tail)) && idx <= |exts| && exts[idx..] == EncodeEntries(es) + tail
    ensures Find(exts, extType, idx) == Expected(es, tail, extType)
    decreases |es|
  {
    if es == [] {
      assert exts[idx..] == tail;
      FindTail(exts, idx, extType);
    } else {
      var e, rest := es[0], EncodeEntries(es[1..]) + tail;
      Regroup(EncodeEntry(e), EncodeEntries(es[1..]), tail);
      EntryAt(exts, idx, e, rest);
      FindStep(exts, idx, e, extType);
      if e.extType != extType {
        FindFrom(exts, idx + 4 + |e.data|, es[1..], tail, extType);
      }
    }
  }

  /**
   For a list of entries followed by fewer than four bytes, or by an entry that overruns: the first entry of the
   type is returned, and without one the overrun is an error.
   */
  lemma FindsFirst(es: seq<Entry>, tail: seq<byte>, extType: word16)
    requires |tail| < 4 || Overruns(tail)
    ensures Find(EncodeEntries(es) + tail, extType, 0) == Expected(es, tail, extType)
  {
    var exts := EncodeEntries(es) + tail;
    assert exts[0..] == exts;
    FindFrom(exts, 0, es, tail, extType);
  }

  /** The entries of a block up to its tail. */
  function Entries(exts: seq<byte>): (r: (seq<Entry>, seq<byte>))
    ensures |r.1| < 4 || Overruns(r.1)
    decreases |exts|
  {
    if |exts| < 4 || Overruns(exts) then ([], exts)
    else
      var end := End16(exts, 2);
      var (es, tail) := Entries(exts[end..]);
      ([Entry(Get16(exts[..2]), exts[4..end])] + es, tail)
  }

  /** Every extension block is such a list. */
  lemma {:induction false} EntriesExact(exts: seq<byte>)
    ensures EncodeEntries(Entries(exts).0) + Entries(exts).1 == exts
    decreases |exts|
  {
    if |exts| >= 4 && !Overruns(exts) {
      var end := End16(exts, 2);
      var (es, tail) := Entries(exts[end..]);
      EntriesExact(exts[end..]);
      var e := Entry(Get16(exts[..2]), exts[4..end]);
      assert ([e] + es)[1..] == es;
      EntryBack(exts, end, e);
      Regroup(EncodeEntry(e), EncodeEntries(es), tail);
    }
  }

  lemma EntryBack(exts: seq<byte>, end: nat, e: Entry)
    requires 4 <= end <= |exts| && end == End16(exts, 2) && e == Entry(Get16(exts[..2]), exts[4..end])
    ensures exts == EncodeEntry(e) + exts[end..]
  {
    Vector16Back(exts, 2);
    assert Put16(Get16(exts[..2])) == exts[..2];
    ConcatSlices(exts, 0, 2, end);
    ConcatSlices(exts, 0, end, |exts|);
    assert exts[0..|exts|] == exts;
  }

  /** For every block and type: an error exactly when an entry overruns before one of the type is found. */
  lemma FindExact(exts: seq<byte>, extType: word16)
    ensures Find(exts, extType, 0) == Expected(Entries(exts).0, Entries(exts).1, extType)
  {
    EntriesExact(exts);
    FindsFirst(Entries(exts).0, Entries(exts).1, extType);
  }
}
