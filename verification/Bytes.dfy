/**
  Bytes, unsigned 32-bit arithmetic and little-endian words.
*/
module Bytes {
  type byte = x: int | 0 <= x < 256

  datatype Option<+T> = None | Some(value: T)

  const SECTOR_SIZE := 512
  const TWO32 := 0x1_0000_0000

  type Sector = s: seq<byte> | |s| == SECTOR_SIZE witness seq(SECTOR_SIZE, _ => 0)

  type u32 = x: int | 0 <= x < TWO32

  /** A value stored in an unsigned 32-bit variable. */
  function U32(x: int): u32 {
    x % TWO32
  }

  lemma NoWrap(x: nat)
    requires x < TWO32
    ensures U32(x) == x
  {
  }

  /** Truncating a part of a sum first does not change what is stored. */
  lemma ModAdd(a: int, d: int)
    ensures U32(U32(a) as int + d) == U32(a + d)
  {
  }

  lemma SubSlice<T>(s: seq<T>, a: nat, b: nat, i: nat, j: nat)
    requires a <= b <= |s| && i <= j <= b - a
    ensures s[a..b][i..j] == s[a + i..a + j]
  {
    var x, y := s[a..b][i..j], s[a + i..a + j];
    assert |x| == |y| && forall k | 0 <= k < |x| :: x[k] == y[k];
  }

  function LdWord(b: seq<byte>): (w: int)
    requires |b| >= 2
    ensures 0 <= w < 0x1_0000
  {
    b[1] as int * 0x100 + b[0]
  }

  function LdDword(b: seq<byte>): (w: u32)
    requires |b| >= 4
  {
    ((b[3] as int * 0x100 + b[2]) * 0x100 + b[1]) * 0x100 + b[0]
  }

  /** A word in little-endian byte order. */
  function Word32(w: u32): (b: seq<byte>)
    ensures |b| == 4
  {
    [w % 0x100, w / 0x100 % 0x100, w / 0x1_0000 % 0x100, w / 0x100_0000]
  }

  /** Encoding a word and reading it gives the word back. */
  lemma LdWord32(w: u32)
    ensures LdDword(Word32(w)) == w
  {
    assert w / 0x1_0000 == w / 0x100_0000 * 0x100 + w / 0x1_0000 % 0x100;
    assert w / 0x100 == w / 0x1_0000 * 0x100 + w / 0x100 % 0x100;
  }

  function Zeros(n: nat): (z: seq<byte>)
    ensures |z| == n
  {
    seq(n, _ => 0)
  }

  function Min(a: int, b: int): int {
    if a < b then a else b
  }
}
