/** Lists of fixed-size entries, back to back. */
module FixedCodec {

  function EncodeAll<T, B>(xs: seq<T>, put: T -> seq<B>): seq<B>
  {
    if xs == [] then [] else EncodeAll(xs[..|xs| - 1], put) + put(xs[|xs| - 1])
  }

  function DecodeAll<T, B>(s: seq<B>, size: nat, get: seq<B> -> T): seq<T>
    requires size > 0
  {
    if |s| < size then [] else DecodeAll(s[..|s| - size], size, get) + [get(s[|s| - size..])]
  }

  lemma {:induction false} DecodeEncode<T(!new), B>(xs: seq<T>, size: nat, put: T -> seq<B>, get: seq<B> -> T)
    requires size > 0 && forall x :: |put(x)| == size && get(put(x)) == x
    ensures DecodeAll(EncodeAll(xs, put), size, get) == xs
  {
    if xs != [] {
      var rest, e := EncodeAll(xs[..|xs| - 1], put), put(xs[|xs| - 1]);
      DecodeEncode(xs[..|xs| - 1], size, put, get);
      assert (rest + e)[..|rest|] == rest && (rest + e)[|rest|..] == e;
    }
  }

  /** One more entry at the end of a prefix. */
  lemma DecodeStep<T, B>(s: seq<B>, size: nat, at: nat, get: seq<B> -> T)
    requires size > 0 && at + size <= |s|
    ensures DecodeAll(s[..at + size], size, get) == DecodeAll(s[..at], size, get) + [get(s[at..at + size])]
  {
    assert s[..at + size][..at] == s[..at] && s[..at + size][at..] == s[at..at + size];
  }

  lemma {:induction false} EncodePrefix<T, B>(xs: seq<T>, m: nat, put: T -> seq<B>)
    requires m <= |xs|
    ensures EncodeAll(xs[..m], put) <= EncodeAll(xs, put)
  {
    if m < |xs| {
      var rest := xs[..|xs| - 1];
      EncodePrefix(rest, m, put);
      assert rest[..m] == xs[..m];
    } else {
      assert xs[..m] == xs;
    }
  }

  lemma {:induction false} EncodeLength<T(!new), B>(xs: seq<T>, put: T -> seq<B>)
    requires forall x :: |put(x)| == 16
    ensures |EncodeAll(xs, put)| == 16 * |xs|
  {
    if xs != [] {
      EncodeLength(xs[..|xs| - 1], put);
    }
  }
}
