/** Sequences: slices and sums, elements without repetition, dropping and inserting one. */
module Sequences {

  lemma ConcatSlices<T>(s: seq<T>, a: nat, b: nat, c: nat)
    requires a <= b <= c <= |s|
    ensures s[a..b] + s[b..c] == s[a..c]
  {
  }

  lemma Regroup<T>(x: seq<T>, y: seq<T>, z: seq<T>)
    ensures x + y + z == x + (y + z)
  {
  }

  /** Inserting an element with a property into a list of such elements. */
  lemma InsertAll<T>(list: seq<T>, m: T, at: nat, p: T -> bool)
    requires (forall k :: 0 <= k < |list| ==> p(list[k])) && p(m) && at <= |list|
    ensures forall k :: 0 <= k < |list| + 1 ==> p((list[..at] + [m] + list[at..])[k])
  {
    var r := list[..at] + [m] + list[at..];
    forall k | 0 <= k < |r|
      ensures p(r[k])
    {
      assert r[k] == if k < at then list[k] else if k == at then m else list[k - 1];
    }
  }

  ghost predicate Apart<T>(nodes: seq<T>, i: int, j: int)
    requires 0 <= i < |nodes| && 0 <= j < |nodes|
  {
    nodes[i] != nodes[j]
  }

  ghost predicate Distinct<T>(nodes: seq<T>)
  {
    forall i, j :: 0 <= i < j < |nodes| ==> Apart(nodes, i, j)
  }

  function DropAt<T>(s: seq<T>, k: nat): (r: seq<T>)
    requires k < |s|
    ensures |r| == |s| - 1
  {
    s[..k] + s[k + 1..]
  }

  lemma InsertKeepsDistinct<T>(nodes: seq<T>, node: T, k: nat)
    requires Distinct(nodes) && node !in nodes && k <= |nodes|
    ensures Distinct(nodes[..k] + [node] + nodes[k..])
  {
    var r := nodes[..k] + [node] + nodes[k..];
    forall i, j | 0 <= i < j < |r|
      ensures Apart(r, i, j)
    {
      assert i != k && j != k ==> Apart(nodes, if i < k then i else i - 1, if j < k then j else j - 1);
    }
  }

  lemma DropElement<T>(s: seq<T>, k: nat, i: nat)
    requires k < |s| && i < |s| - 1
    ensures DropAt(s, k)[i] == s[if i < k then i else i + 1]
  {
  }

  lemma DropKeepsDistinct<T>(nodes: seq<T>, k: nat)
    requires Distinct(nodes) && k < |nodes|
    ensures Distinct(DropAt(nodes, k)) && nodes[k] !in DropAt(nodes, k)
  {
    var r := DropAt(nodes, k);
    forall i, j | 0 <= i < j < |r|
      ensures Apart(r, i, j)
    {
      DropElement(nodes, k, i);
      DropElement(nodes, k, j);
      assert Apart(nodes, if i < k then i else i + 1, if j < k then j else j + 1);
    }
    forall i | 0 <= i < |r|
      ensures r[i] != nodes[k]
    {
      DropElement(nodes, k, i);
      assert if i < k then Apart(nodes, i, k) else Apart(nodes, k, i + 1);
    }
  }

  /** s' is s with one element per entry of ps behind it, and each fits its entry. */
  ghost predicate Adds<T, U>(s: seq<T>, s': seq<T>, ps: seq<U>, fits: (T, U) -> bool)
  {
    && |s'| == |s| + |ps|
    && (forall i :: 0 <= i < |s| ==> s'[i] == s[i])
    && (forall i :: |s| <= i < |s'| ==> fits(s'[i], ps[i - |s|]))
  }

  lemma AddsChain<T, U>(s: seq<T>, s1: seq<T>, s2: seq<T>, a: seq<U>, b: seq<U>, fits: (T, U) -> bool)
    requires Adds(s, s1, a, fits) && Adds(s1, s2, b, fits)
    ensures Adds(s, s2, a + b, fits)
  {
    forall i | 0 <= i < |s|
      ensures s2[i] == s[i]
    {
      assert s2[i] == s1[i];
    }
    forall i | |s| <= i < |s2|
      ensures fits(s2[i], (a + b)[i - |s|])
    {
      if i < |s1| {
        assert s2[i] == s1[i];
      }
    }
  }
}
