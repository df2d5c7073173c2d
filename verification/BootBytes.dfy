/**
  Executables, by their bytes.
*/
module BootBytes {
  import opened Bytes
  import opened Boot

  /** Four bytes of a file, the lowest one first. */
  function Le(b: seq<byte>, i: nat): u32
    requires i + 4 <= |b|
  {
    b[i] as int + 0x100 * b[i + 1] as int + 0x1_0000 * b[i + 2] as int + 0x100_0000 * b[i + 3] as int
  }

  /** The sum of the first `n` words behind the header. */
  function SumOf(b: seq<byte>, n: nat): nat
    requires 16 + 4 * n <= |b|
  {
    if n == 0 then 0 else SumOf(b, n - 1) + Le(b, 16 + 4 * (n - 1))
  }

  lemma WordByBytes(b: seq<byte>, n: nat)
    requires 4 * n + 4 <= |b|
    ensures WordAt(b, n) == Le(b, 4 * n)
  {
    var w := b[4 * n..4 * n + 4];
    assert w[0] == b[4 * n] && w[1] == b[4 * n + 1] && w[2] == b[4 * n + 2] && w[3] == b[4 * n + 3];
  }

  lemma {:induction false} ProgramByBytes(b: seq<byte>, n: nat)
    requires 16 + 4 * n <= |b|
    ensures forall i | 0 <= i < n :: Program(b, n)[i] == Le(b, 16 + 4 * i)
    ensures Sum(Program(b, n)) == SumOf(b, n) % 0x1_0000_0000
  {
    hide WordAt, Le, Sum, U32;
    SumStart();
    if n > 0 {
      ProgramByBytes(b, n - 1);
      WordByBytes(b, 4 + n - 1);
      var w := Le(b, 16 + 4 * (n - 1));
      SumNext(Program(b, n - 1), w);
      Wrapped(SumOf(b, n - 1));
      Wrapped(SumOf(b, n - 1) + w);
      ModAdd(SumOf(b, n - 1), w);
    }
  }

  lemma SumStart()
    ensures Sum([]) == 0
  {
  }

  lemma SumNext(ws: seq<u32>, w: u32)
    ensures Sum(ws + [w]) == U32(Sum(ws) as int + w)
  {
    assert (ws + [w])[..|ws|] == ws;
  }

  lemma Wrapped(x: int)
    ensures U32(x) == x % 0x1_0000_0000
  {
  }

  /**
    What the boot loader accepts: the four letters "NEO!", all the words that the header announces, and a
    checksum that is the complement of their sum.
  */
  lemma LoadableByBytes(b: seq<byte>)
    ensures Loadable(b) <==>
              && |b| >= 16 && b[..4] == [0x4E, 0x45, 0x4F, 0x21]
              && 16 + (Le(b, 8) + 3) / 4 * 4 <= |b|
              && (Le(b, 12) + SumOf(b, (Le(b, 8) + 3) / 4)) % 0x1_0000_0000 == 0xFFFF_FFFF
  {
    hide WordAt, Sum, Program, SumOf, Le;
    if |b| >= 16 {
      WordByBytes(b, 0);
      WordByBytes(b, 2);
      WordByBytes(b, 3);
      Letters(b);
      var n := ProgramSize(b);
      if 16 + 4 * n <= |b| {
        ProgramByBytes(b, n);
        Complement(Le(b, 12), Sum(Program(b, n)), SumOf(b, n));
      }
    }
  }

  lemma Letters(b: seq<byte>)
    requires |b| >= 4
    ensures Le(b, 0) == BIN_SIGNATURE <==> b[..4] == [0x4E, 0x45, 0x4F, 0x21]
  {
    if b[..4] == [0x4E, 0x45, 0x4F, 0x21] {
      assert b[0] == b[..4][0] && b[1] == b[..4][1] && b[2] == b[..4][2] && b[3] == b[..4][3];
    }
  }

  lemma Complement(c: u32, sum: u32, total: nat)
    requires sum == total % 0x1_0000_0000
    ensures U32(c as int + sum + 1) == 0 <==> (c + total) % 0x1_0000_0000 == 0xFFFF_FFFF
  {
  }

  /** What loading reports of a file: its first defect, in the order in which the loader looks. */
  lemma OutcomeByBytes(b: seq<byte>)
    ensures |b| < 4 || b[..4] != [0x4E, 0x45, 0x4F, 0x21] ==> Outcome(b) == ErrorSignature
    ensures |b| >= 4 && b[..4] == [0x4E, 0x45, 0x4F, 0x21] ==>
              if |b| < 16 || |b| < 16 + (Le(b, 8) + 3) / 4 * 4 then Outcome(b) == ErrorDevice
              else if (Le(b, 12) + SumOf(b, (Le(b, 8) + 3) / 4)) % 0x1_0000_0000 != 0xFFFF_FFFF
              then Outcome(b) == ErrorChecksum
              else Outcome(b) == Loaded
  {
    hide WordAt, Loadable, SumOf, Le;
    LoadableByBytes(b);
    if |b| >= 4 {
      WordByBytes(b, 0);
      Letters(b);
    }
    if |b| >= 16 {
      WordByBytes(b, 2);
    }
  }

  /** The file that the image generator makes: signature, base address, size in bytes, checksum, and the words. */
  lemma ImageByBytes(base: u32, ws: seq<u32>)
    requires 4 * |ws| < TWO32
    ensures var b := ImageOf(base, ws);
            && |b| == 16 + 4 * |ws| && b[..4] == [0x4E, 0x45, 0x4F, 0x21]
            && Le(b, 4) == base && Le(b, 8) == 4 * |ws|
            && (Le(b, 12) + SumOf(b, |ws|)) % 0x1_0000_0000 == 0xFFFF_FFFF
            && forall i | 0 <= i < |ws| :: Le(b, 16 + 4 * i) == ws[i]
  {
    hide ImageOf, WordAt, Program, Sum, Le, SumOf, Loadable, Outcome;
    var b := ImageOf(base, ws);
    ImageLength(base, ws);
    ImageLoadable(base, ws);
    LoadableByBytes(b);
    HeaderOfImage(base, ws, 1);
    HeaderOfImage(base, ws, 2);
    WordByBytes(b, 1);
    WordByBytes(b, 2);
    ProgramByBytes(b, |ws|);
  }

  /** Storing a program leaves all other addresses alone. */
  lemma {:induction false} StoredElsewhere(mem: map<u32, u32>, base: u32, ws: seq<u32>, a: u32)
    requires forall i | 0 <= i < |ws| :: a != (base + 4 * i) % 0x1_0000_0000
    ensures a in Stored(mem, base, ws) <==> a in mem
    ensures a in mem ==> Stored(mem, base, ws)[a] == mem[a]
  {
    if ws != [] {
      StoredElsewhere(mem, base, ws[..|ws| - 1], a);
    }
  }
}
