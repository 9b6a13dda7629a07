/** ParseClientHello and FindExtByType over the received bytes, filling views in place, proved against ClientHello. */
module ClientHelloParser {
  import opened Bytes
  import opened ClientHello
  import opened Options

  /** A WolfSSL_ConstVector: a place in the input and a size. */
  datatype View = View(start: nat, size: nat)

  predicate Inside(v: View, s: seq<byte>) { v.start + v.size <= |s| }

  function Seen(v: View, s: seq<byte>): seq<byte>
    requires Inside(v, s)
  {
    s[v.start..v.start + v.size]
  }

  /** The WolfSSL_CH that the parser fills; version and random are at fixed places. */
  class ClientHelloInfo {
    var sessionId: View
    var cookie: View
    var cipherSuite: View
    var compression: View
    var extension: View
    var length: nat

    constructor ()
      ensures extension == View(0, 0)
    {
      sessionId, cookie, cipherSuite, compression, extension, length :=
        View(0, 0), View(0, 0), View(0, 0), View(0, 0), View(0, 0), 0;
    }

    ghost predicate InsideOf(s: seq<byte>)
      reads this
    {
      && |s| >= 34 && Inside(sessionId, s) && Inside(cookie, s) && Inside(cipherSuite, s)
      && Inside(compression, s) && Inside(extension, s)
    }

    ghost function Value(s: seq<byte>): Hello
      requires InsideOf(s)
      reads this
    {
      Hello(s[..2], s[2..34], Seen(sessionId, s), Seen(cookie, s), Seen(cipherSuite, s), Seen(compression, s),
            if extension.size == 0 then None else Some(Seen(extension, s)))
    }
  }

  /** ReadVector8 */
  method ReadVector8(input: seq<byte>, idx: nat) returns (next: nat, v: View)
    requires idx < |input|
    ensures next == End8(input, idx) && v == View(idx + 1, next - (idx + 1))
  {
    v := View(idx + 1, input[idx]);
    next := idx + 1 + v.size;
  }

  /** ReadVector16 */
  method ReadVector16(input: seq<byte>, idx: nat) returns (next: nat, v: View)
    requires idx + 2 <= |input|
    ensures next == End16(input, idx) && v == View(idx + 2, next - (idx + 2))
  {
    v := View(idx + 2, Get16(input[idx..idx + 2]));
    next := idx + 2 + v.size;
  }

  /** The fields in front of the extensions; ok is false for a vector that leaves no room for what must follow. */
  method ReadHead(input: seq<byte>, ch: ClientHelloInfo) returns (ok: bool, idx: nat)
    modifies ch`sessionId, ch`cookie, ch`cipherSuite, ch`compression
    ensures var e := VectorEnds(input);
      && ok == e.Ends?
      && (ok ==>
          && idx == e.compression && |input| >= 35
          && ch.sessionId == View(35, e.sid - 35) && ch.cookie == View(e.sid + 1, e.cookie - (e.sid + 1))
          && ch.cipherSuite == View(e.cookie + 2, e.suites - (e.cookie + 2))
          && ch.compression == View(e.suites + 1, e.compression - (e.suites + 1)))
  {
    var helloSz := |input|;
    if 2 + RAN_LEN + 1 > helloSz {
      return false, 0;
    }
    idx := 2 + RAN_LEN;
    idx, ch.sessionId := ReadVector8(input, idx);
    if idx > helloSz - 1 {
      return false, idx;
    }
    idx, ch.cookie := ReadVector8(input, idx);
    if idx > helloSz - 2 {
      return false, idx;
    }
    idx, ch.cipherSuite := ReadVector16(input, idx);
    if idx > helloSz - 1 {
      return false, idx;
    }
    idx, ch.compression := ReadVector8(input, idx);
    ok := true;
  }

  /** The extension block behind idx, which a first fragment may cut. */
  method ReadExtensions(input: seq<byte>, idx: nat, ch: ClientHelloInfo, isFirstCHFrag: bool)
    returns (ok: bool, next: nat)
    modifies ch`extension
    ensures idx + 2 >= |input| ==> ok && next == idx && ch.extension == old(ch.extension)
    ensures idx + 2 < |input| ==>
      var end := End16(input, idx);
      && (ok <==> end <= |input| || isFirstCHFrag)
      && (ok ==> next == Min(end, |input|) && ch.extension == View(idx + 2, next - (idx + 2)))
  {
    var helloSz := |input|;
    next := idx;
    if idx < helloSz - 2 {
      var extStart := idx + 2;
      next, ch.extension := ReadVector16(input, idx);
      if next > helloSz {
        next := helloSz;
        if isFirstCHFrag && extStart < helloSz {
          ch.extension := View(extStart, helloSz - extStart);
        } else {
          return false, next;
        }
      }
    }
    ok := true;
  }

  /** Where the extensions end, and the view of them, decide what the parser accepts. */
  lemma ParseIs(s: seq<byte>, firstFragment: bool, ok: bool, next: nat, v: View)
    requires VectorEnds(s).Ends?
    requires
      var at := VectorEnds(s).compression;
      if at + 2 >= |s| then ok && next == at && v == View(0, 0)
      else
        && (ok <==> End16(s, at) <= |s| || firstFragment)
        && (ok ==> next == Min(End16(s, at), |s|) && v == View(at + 2, next - (at + 2)))
    ensures
      if ok && next == |s| then
        && Inside(v, s)
        && Parse(s, firstFragment) ==
           Some(HelloAt(s, VectorEnds(s), if v.size == 0 then None else Some(Seen(v, s))))
      else Parse(s, firstFragment) == None
  {
    var at := VectorEnds(s).compression;
    assert at + 2 < |s| ==> s[at + 2..|s|] == s[at + 2..];
  }

  /**
   ParseClientHello, for an input of exactly helloSz bytes, so that nothing past it can be read.  The caller has
   cleared the extension view.
   */
  method ParseClientHello(input: seq<byte>, ch: ClientHelloInfo, isFirstCHFrag: bool) returns (ok: bool)
    requires ch.extension == View(0, 0)
    modifies ch
    ensures ok == Parse(input, isFirstCHFrag).Some?
    ensures ok ==> ch.InsideOf(input) && Some(ch.Value(input)) == Parse(input, isFirstCHFrag)
    ensures ok ==> ch.length == |input|
  {
    var helloSz, idx := |input|, 0;
    ok, idx := ReadHead(input, ch);
    if !ok {
      return;
    }
    ok, idx := ReadExtensions(input, idx, ch, isFirstCHFrag);
    ParseIs(input, isFirstCHFrag, ok, idx, ch.extension);
    if !ok || idx != helloSz {
      return false;
    }
    ch.length := idx;
  }

  /** FindExtByType: where in the block the extension is, or an error. */
  method FindExtByType(exts: seq<byte>, extType: word16) returns (error: bool, found: bool, ext: View)
    ensures
      var r := Find(exts, extType, 0);
      && error == r.BufferError? && found == r.Found? && (found ==> Inside(ext, exts) && Seen(ext, exts) == r.data)
  {
    error, found, ext := false, false, View(0, 0);
    var idx := 0;
    while |exts| - idx >= 4
      invariant 0 <= idx <= |exts| && !error && !found
      invariant Find(exts, extType, 0) == Find(exts, extType, idx)
    {
      var t := Get16(exts[idx..idx + 2]);
      var next, v := ReadVector16(exts, idx + 2);
      if next > |exts| {
        return true, false, ext;
      }
      if t == extType {
        return false, true, v;
      }
      idx := next;
    }
  }
}
