/** Copying bytes into buffers. */
module Buffers {
  import opened Bytes

  /** Copies s into a at the given place. */
  method WriteBytes(a: array<byte>, at: nat, s: seq<byte>)
    requires at + |s| <= a.Length
    modifies a
    ensures a[..at + |s|] == old(a[..at]) + s
    ensures forall i :: at + |s| <= i < a.Length ==> a[i] == old(a[i])
  {
    var i := 0;
    while i < |s|
      invariant i <= |s|
      invariant forall j :: 0 <= j < a.Length && !(at <= j < at + i) ==> a[j] == old(a[j])
      invariant forall j :: 0 <= j < i ==> a[at + j] == s[j]
    {
      a[at + i] := s[i];
      i := i + 1;
    }
  }
}
