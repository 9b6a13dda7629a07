/** Bytes, fixed-width big-endian integers and the constants shared by the record layer. */
module Bytes {

  type byte = b: int | 0 <= b < 0x100

  type word16 = w: int | 0 <= w < 0x1_0000

  type word24 = w: int | 0 <= w < 0x100_0000

  type word64 = w: int | 0 <= w < 0x1_0000_0000_0000_0000

  const TWO64: int := 0x1_0000_0000_0000_0000

  function Min(a: int, b: int): int { if a < b then a else b }

  /** The one-byte truncating cast. */
  function Low8(n: nat): byte { n % 0x100 }

  /** c16toa */
  function Put16(n: word16): (s: seq<byte>)
    ensures |s| == 2
  {
    [n / 0x100, Low8(n)]
  }

  /** ato16 */
  function Get16(s: seq<byte>): word16
    requires |s| >= 2
  {
    (s[0] as int) * 0x100 + s[1]
  }

  /** c32to24: the top byte of a 32-bit argument is dropped. */
  function Put24(n: nat): (s: seq<byte>)
    ensures |s| == 3
  {
    [Low8(n / 0x1_0000), Low8(n / 0x100), Low8(n)]
  }

  /** c24to32 */
  function Get24(s: seq<byte>): word24
    requires |s| >= 3
  {
    (s[0] as int) * 0x1_0000 + (s[1] as int) * 0x100 + s[2]
  }

  /** Big-endian encoding of n in k bytes; digits beyond k are dropped. */
  function PutBE(n: nat, k: nat): (s: seq<byte>)
    ensures |s| == k
  {
    if k == 0 then [] else PutBE(n / 0x100, k - 1) + [Low8(n)]
  }

  function GetBE(s: seq<byte>): nat
  {
    if s == [] then 0 else GetBE(s[..|s| - 1]) * 0x100 + s[|s| - 1]
  }

  function Pow256(k: nat): (p: nat)
    ensures p >= 1
  {
    if k == 0 then 1 else 0x100 * Pow256(k - 1)
  }

  lemma {:induction false} GetPutBE(n: nat, k: nat)
    requires n < Pow256(k)
    ensures GetBE(PutBE(n, k)) == n
  {
    if k > 0 {
      assert n / 0x100 < Pow256(k - 1);
      GetPutBE(n / 0x100, k - 1);
      var s := PutBE(n, k);
      assert s[..|s| - 1] == PutBE(n / 0x100, k - 1);
    }
  }

  lemma {:induction false} GetBEBound(s: seq<byte>)
    ensures GetBE(s) < Pow256(|s|)
  {
    if s != [] {
      GetBEBound(s[..|s| - 1]);
    }
  }

  lemma Pow256Of8()
    ensures Pow256(8) == TWO64
  {
    assert Pow256(4) == 0x1_0000_0000;
    assert Pow256(6) == 0x1_0000_0000_0000;
  }

  /** c64toa */
  function Put64(n: word64): (s: seq<byte>)
    ensures |s| == 8
  {
    PutBE(n, 8)
  }

  /** ato64 */
  function Get64(s: seq<byte>): word64
    requires |s| == 8
  {
    GetBEBound(s);
    Pow256Of8();
    GetBE(s)
  }

  lemma GetPut64(n: word64)
    ensures Get64(Put64(n)) == n
  {
    Pow256Of8();
    GetPutBE(n, 8);
  }

  lemma GetPut24(n: nat)
    requires n < 0x100_0000
    ensures Get24(Put24(n)) == n
  {
    var high := n / 0x100;
    assert n / 0x1_0000 == high / 0x100;
    assert high == high / 0x100 * 0x100 + high % 0x100 && n == high * 0x100 + n % 0x100;
  }
}
