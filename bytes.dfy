/** Fixed-width unsigned integers and their little-endian byte layout,
    as the driver's packed packet struct and its `unsigned int` buffers
    are laid out in memory on an x86 laptop. */
module Bytes {

  type uint8 = x: int | 0 <= x < 0x100
  type uint16 = x: int | 0 <= x < 0x1_0000
  type uint32 = x: int | 0 <= x < 0x1_0000_0000

  /** The two bytes of `v`, least significant first. */
  function Le16(v: uint16): (b: seq<uint8>)
    ensures |b| == 2 && b[0] as int + 0x100 * b[1] as int == v
  {
    [v % 0x100, v / 0x100]
  }

  /** The value of two little-endian bytes. */
  function FromLe16(b: seq<uint8>): (v: uint16)
    requires |b| == 2
    ensures Le16(v) == b
  {
    b[0] as int + 0x100 * b[1] as int
  }

  /** The four bytes of `v`, least significant first. */
  function Le32(v: uint32): (b: seq<uint8>)
    ensures |b| == 4
    ensures b[0] as int + 0x100 * b[1] as int + 0x1_0000 * b[2] as int + 0x100_0000 * b[3] as int == v
  {
    Le16(v % 0x1_0000) + Le16(v / 0x1_0000)
  }

  /** The value of four little-endian bytes. */
  function FromLe32(b: seq<uint8>): (v: uint32)
    requires |b| == 4
    ensures v == b[0] as int + 0x100 * b[1] as int + 0x1_0000 * b[2] as int + 0x100_0000 * b[3] as int
    ensures Le32(v) == b
  {
    var lo := FromLe16(b[..2]);
    var hi := FromLe16(b[2..]);
    SplitWord(lo, hi);
    assert b == b[..2] + b[2..];
    lo + 0x1_0000 * hi
  }

  lemma SplitWord(lo: uint16, hi: uint16)
    ensures (lo + 0x1_0000 * hi) % 0x1_0000 == lo && (lo + 0x1_0000 * hi) / 0x1_0000 == hi
  {
  }

  lemma Le16RoundTrip(v: uint16)
    ensures FromLe16(Le16(v)) == v
  {
  }

  lemma {:induction false} Le32RoundTrip(v: uint32)
    ensures FromLe32(Le32(v)) == v
  {
    var b := Le32(v);
    assert b[..2] == Le16(v % 0x1_0000);
    assert b[2..] == Le16(v / 0x1_0000);
  }

  /** A run of `n` zero bytes: what a C designated initializer leaves in the
      fields it does not name. */
  function Zeros(n: nat): (z: seq<uint8>)
    ensures |z| == n && forall i :: 0 <= i < n ==> z[i] == 0
  {
    seq(n, _ => 0)
  }
}
