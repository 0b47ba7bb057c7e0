/** Bytes, the fixed-width integers of the wire formats, and their
    little-endian forms. */
module Bytes {
  type byte = b: int | 0 <= b < 256
  type u32 = n: int | 0 <= n < 0x1_0000_0000
  type u64 = n: int | 0 <= n < 0x1_0000_0000_0000_0000
  type u128 = n: int | 0 <= n < 0x1_0000_0000_0000_0000_0000_0000_0000_0000
  type u256 = n: int | 0 <= n < 0x1_0000_0000_0000_0000_0000_0000_0000_0000_0000_0000_0000_0000_0000_0000_0000_0000
  type i32 = n: int | -0x8000_0000 <= n < 0x8000_0000

  const U32_MAX := 0xFFFF_FFFF

  type Bytes = seq<byte>

  function Pow256(w: nat): nat {
    if w == 0 then 1 else 256 * Pow256(w - 1)
  }

  /** The low `w` bytes of `n`, least significant first. */
  function Le(w: nat, n: nat): (r: Bytes)
    ensures |r| == w
  {
    if w == 0 then [] else [n % 256] + Le(w - 1, n / 256)
  }

  function LeValue(b: Bytes): nat {
    if b == [] then 0 else b[0] + 256 * LeValue(b[1..])
  }

  /** A number that fits the width reads back from its bytes. */
  lemma {:induction false} LeRoundTrip(w: nat, n: nat)
    requires n < Pow256(w)
    ensures LeValue(Le(w, n)) == n
  {
    if w > 0 {
      LeRoundTrip(w - 1, n / 256);
      assert Le(w, n)[1..] == Le(w - 1, n / 256);
    }
  }

  /** Every byte string is the form of the number it reads as. */
  lemma {:induction false} LeCanonical(b: Bytes)
    ensures LeValue(b) < Pow256(|b|)
    ensures Le(|b|, LeValue(b)) == b
  {
    if b != [] {
      LeCanonical(b[1..]);
      assert LeValue(b) % 256 == b[0] && LeValue(b) / 256 == LeValue(b[1..]);
    }
  }

  lemma WordIff(b: Bytes, n: nat)
    requires n < Pow256(|b|)
    ensures LeValue(b) == n <==> b == Le(|b|, n)
  {
    LeCanonical(b);
    LeRoundTrip(|b|, n);
  }

  /** The first byte is the least significant one. */
  lemma FourBytes(b: Bytes)
    requires |b| == 4
    ensures LeValue(b) ==
              b[0] as int + 0x100 * (b[1] as int) + 0x1_0000 * (b[2] as int) + 0x100_0000 * (b[3] as int)
  {
    assert b[1..][1..] == b[2..] && b[2..][1..] == b[3..] && b[3..][1..] == [];
    assert LeValue(b[3..]) == b[3] && LeValue(b[2..]) == b[2] as int + 256 * LeValue(b[3..]);
    assert LeValue(b[1..]) == b[1] as int + 256 * LeValue(b[2..]);
  }

  /** Two's complement. */
  function Unsigned(n: i32): (u: u32)
    ensures (u - n) % 0x1_0000_0000 == 0
  {
    if n >= 0 then n else n + 0x1_0000_0000
  }

  function Signed(u: u32): (n: i32)
    ensures Unsigned(n) == u
  {
    if u < 0x8000_0000 then u else u - 0x1_0000_0000
  }
}
