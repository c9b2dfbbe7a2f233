/**
  What several parts of the system share: bytes, little-endian words, optional results.
 */
module Basics {

  const TWO32 := 0x1_0000_0000  // where unsigned 32-bit arithmetic wraps

  datatype Option<+T> = None | Some(value: T)

  type byte = x: int | 0 <= x < 256

  type Bytes = seq<byte>

  function Zeros(n: nat): (z: Bytes)
    ensures |z| == n && forall i :: 0 <= i < n ==> z[i] == 0
  {
    seq(n, _ => 0)
  }

  // ----------------------------------------------------------------
  // Little-endian integers
  // ----------------------------------------------------------------

  function Le16(v: nat): (r: Bytes)
    requires v < 0x1_0000
    ensures |r| == 2
  {
    [v % 256, v / 256]
  }

  function Le32(v: nat): (r: Bytes)
    requires v < 0x1_0000_0000
    ensures |r| == 4
  {
    [v % 256, v / 256 % 256, v / 0x1_0000 % 256, v / 0x100_0000]
  }

  function U16(d: Bytes, i: nat): nat
    requires i + 2 <= |d|
  {
    d[i] as int + 256 * d[i + 1] as int
  }

  function U32(d: Bytes, i: nat): nat
    requires i + 4 <= |d|
  {
    d[i] as int + 256 * d[i + 1] as int + 0x1_0000 * d[i + 2] as int + 0x100_0000 * d[i + 3] as int
  }

  /** The four bytes of a 32-bit word. */
  lemma WordBytes(v: nat)
    requires v < 0x1_0000_0000
    ensures v == v % 256 + 256 * (v / 256 % 256) + 0x1_0000 * (v / 0x1_0000 % 256) + 0x100_0000 * (v / 0x100_0000)
    ensures v / 0x100_0000 < 256
  {
    assert v / 0x1_0000 == v / 256 / 256 && v / 0x100_0000 == v / 256 / 256 / 256;
  }

  /** A word stored at i is read back. */
  lemma Le32Reads(d: Bytes, i: nat, v: nat)
    requires v < 0x1_0000_0000 && i + 4 <= |d| && d[i..i + 4] == Le32(v)
    ensures U32(d, i) == v
  {
    assert d[i] == d[i..i + 4][0] && d[i + 1] == d[i..i + 4][1] && d[i + 2] == d[i..i + 4][2] && d[i + 3] == d[i..i + 4][3];
    WordBytes(v);
  }
}
