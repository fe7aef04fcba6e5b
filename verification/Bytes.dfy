/** Bytes and little-endian integers, the way both sides of the bridge lay them out in memory. */
module Bytes {

  newtype byte = b: int | 0 <= b < 256

  const U32: nat := 0x1_0000_0000
  const U64: nat := 0x1_0000_0000_0000_0000

  /** 256^n */
  function Radix(n: nat): (r: nat)
    ensures r > 0
  {
    if n == 0 then 1 else 256 * Radix(n - 1)
  }

  /** Byte i of v, counted from the lowest */
  function Digit(v: nat, i: nat): byte
    decreases i
  {
    if i == 0 then (v % 256) as byte else Digit(v / 256, i - 1)
  }

  /** The n low bytes of v, lowest first */
  function Le(v: nat, n: nat): (s: seq<byte>)
    ensures |s| == n
  {
    seq(n, i requires 0 <= i => Digit(v, i))
  }

  /** The number that bytes stand for */
  function UnLe(s: seq<byte>): (v: nat)
    decreases |s|
  {
    if s == [] then 0 else s[0] as nat + 256 * UnLe(s[1..])
  }

  lemma {:induction false} UnLeOfLe(v: nat, n: nat)
    requires v < Radix(n)
    ensures UnLe(Le(v, n)) == v
    decreases n
  {
    if n > 0 {
      UnLeOfLe(v / 256, n - 1);
      assert Le(v, n)[1..] == Le(v / 256, n - 1);
    }
  }

  lemma FewBytes(s: seq<byte>)
    requires |s| in {1, 2, 4}
    ensures UnLe(s) == (s[0] as nat) + (if |s| > 1 then 0x100 * (s[1] as nat) else 0)
                       + (if |s| > 2 then 0x1_0000 * (s[2] as nat) + 0x100_0000 * (s[3] as nat) else 0)
  {
    var t := s[1..];
    assert UnLe(s) == s[0] as nat + 256 * UnLe(t);
    if |s| > 1 {
      assert UnLe(t) == s[1] as nat + 256 * UnLe(t[1..]) && t[1..] == s[2..];
    }
    if |s| > 2 {
      var u := s[2..];
      assert UnLe(u) == s[2] as nat + 256 * UnLe(u[1..]) && u[1..] == [s[3]];
      assert UnLe([s[3]]) == s[3] as nat;
    }
  }

  lemma Widths()
    ensures Radix(4) == U32 && Radix(8) == U64
  {
    assert Radix(2) == 65536;
    assert Radix(4) == U32;
    assert Radix(6) == 0x1_0000_0000_0000;
  }

  /** Two's complement of a 32-bit integer */
  function AsU32(v: int): nat
    requires -0x8000_0000 <= v < 0x8000_0000
  {
    if v < 0 then v + U32 else v
  }

  function AsI32(u: nat): int {
    if u >= 0x8000_0000 then u - U32 else u
  }
}
