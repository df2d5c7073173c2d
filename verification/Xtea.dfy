/**
  The Extended Tiny Encryption Algorithm on unsigned 32-bit words, and its loops over arrays of blocks.
*/
module Xtea {
  import opened Bytes
  import opened Arith

  const DELTA: u32 := 0x9E37_79B9

  type Key = k: seq<u32> | |k| == 4 witness [0, 0, 0, 0]

  datatype Block = Block(v0: u32, v1: u32)

  /** The exclusive or of the lowest `n` bits. */
  function XorBits(a: nat, b: nat, n: nat): (x: nat)
    ensures x < Pow2(n)
  {
    if n == 0 then 0 else (a % 2 + b % 2) % 2 + 2 * XorBits(a / 2, b / 2, n - 1)
  }

  function Xor(a: u32, b: u32): u32 {
    Pow2Word();
    XorBits(a, b, 32)
  }

  function Add(a: u32, b: u32): u32 {
    U32(a as int + b as int)
  }

  function Sub(a: u32, b: u32): u32 {
    U32(a as int - b as int)
  }

  lemma AddSub(a: u32, b: u32)
    ensures Sub(Add(a, b), b) == a && Add(Sub(a, b), b) == a
  {
  }

  /** `((v << 4) ^ (v >> 5)) + v`. */
  function Scramble(v: u32): u32 {
    Add(Xor(U32(v as int * 16), v as int / 32), v)
  }

  function Mix0(v: u32, sum: u32, k: Key): u32 {
    Xor(Scramble(v), Add(sum, k[sum as int % 4]))
  }

  function Mix1(v: u32, sum: u32, k: Key): u32 {
    Xor(Scramble(v), Add(sum, k[sum as int / 2048 % 4]))
  }

  /** The sum word after `n` cycles. */
  function Sum(n: nat): u32 {
    U32(DELTA as int * n)
  }

  lemma SumStep(n: nat)
    ensures Sum(0) == 0
    ensures Add(Sum(n), DELTA) == Sum(n + 1) && Sub(Sum(n + 1), DELTA) == Sum(n)
  {
    hide U32;
    assert U32(0) == 0 by {
      ZeroWord();
    }
    assert DELTA as int * (n + 1) == DELTA as int * n + DELTA as int;
    ModAdd(DELTA as int * n, DELTA as int);
    AddSub(Sum(n), DELTA);
  }

  lemma ZeroWord()
    ensures U32(0) == 0
  {
  }

  /** Cycle `n`, counted from zero, of the encryption. */
  function Cycle(b: Block, k: Key, n: nat): Block {
    var v0 := Add(b.v0, Mix0(b.v1, Sum(n), k));
    Block(v0, Add(b.v1, Mix1(v0, Sum(n + 1), k)))
  }

  /** What the decryption does to undo it. */
  function Uncycle(b: Block, k: Key, n: nat): Block {
    var v1 := Sub(b.v1, Mix1(b.v0, Sum(n + 1), k));
    Block(Sub(b.v0, Mix0(v1, Sum(n), k)), v1)
  }

  lemma CycleInverse(b: Block, k: Key, n: nat)
    ensures Uncycle(Cycle(b, k, n), k, n) == b
    ensures Cycle(Uncycle(b, k, n), k, n) == b
  {
    hide Add, Sub, Mix0, Mix1, Sum;
    var c, d := Cycle(b, k, n), Uncycle(b, k, n);
    AddSub(b.v0, Mix0(b.v1, Sum(n), k));
    AddSub(b.v1, Mix1(c.v0, Sum(n + 1), k));
    AddSub(b.v1, Mix1(b.v0, Sum(n + 1), k));
    AddSub(b.v0, Mix0(d.v1, Sum(n), k));
  }

  function Enc(b: Block, k: Key, n: nat): Block
    decreases n
  {
    if n == 0 then b else Cycle(Enc(b, k, n - 1), k, n - 1)
  }

  function Dec(b: Block, k: Key, n: nat): Block
    decreases n
  {
    if n == 0 then b else Dec(Uncycle(b, k, n - 1), k, n - 1)
  }

  /** For every key, block and number of cycles, decryption undoes encryption. */
  lemma {:induction false} DecEnc(b: Block, k: Key, n: nat)
    ensures Dec(Enc(b, k, n), k, n) == b
    decreases n
  {
    hide Cycle, Uncycle;
    if n > 0 {
      CycleInverse(Enc(b, k, n - 1), k, n - 1);
      DecEnc(b, k, n - 1);
    }
  }

  /** And encryption undoes decryption. */
  lemma {:induction false} EncDec(b: Block, k: Key, n: nat)
    ensures Enc(Dec(b, k, n), k, n) == b
    decreases n
  {
    hide Cycle, Uncycle;
    if n > 0 {
      EncDec(Uncycle(b, k, n - 1), k, n - 1);
      CycleInverse(b, k, n - 1);
    }
  }

  method Encipher(numCycles: u32, v: array<u32>, k: array<u32>)
    requires v.Length == 2 && k.Length == 4 && v != k
    modifies v
    ensures Block(v[0], v[1]) == Enc(old(Block(v[0], v[1])), k[..], numCycles)
  {
    hide Sum, Add, Mix0, Mix1;
    ghost var b := Block(v[0], v[1]);
    var v0, v1, sum: u32 := v[0], v[1], 0;
    SumStep(0);
    var i := 0;
    while i < numCycles
      invariant 0 <= i <= numCycles
      invariant sum == Sum(i)
      invariant Block(v0, v1) == Enc(b, k[..], i)
    {
      v0 := Add(v0, Mix0(v1, sum, k[..]));
      SumStep(i);
      sum := Add(sum, DELTA);
      v1 := Add(v1, Mix1(v0, sum, k[..]));
      i := i + 1;
    }
    v[0], v[1] := v0, v1;
  }

  method Decipher(numCycles: u32, v: array<u32>, k: array<u32>)
    requires v.Length == 2 && k.Length == 4 && v != k
    modifies v
    ensures Block(v[0], v[1]) == Dec(old(Block(v[0], v[1])), k[..], numCycles)
  {
    hide Add, Sub, Mix0, Mix1;
    ghost var b := Block(v[0], v[1]);
    var v0, v1, sum := v[0], v[1], U32(DELTA as int * numCycles as int);
    var i := 0;
    while i < numCycles
      invariant 0 <= i <= numCycles
      invariant sum == Sum(numCycles as int - i)
      invariant Dec(Block(v0, v1), k[..], numCycles as int - i) == Dec(b, k[..], numCycles)
    {
      hide Sum;
      SumStep(numCycles as int - i - 1);
      v1 := Sub(v1, Mix1(v0, sum, k[..]));
      sum := Sub(sum, DELTA);
      v0 := Sub(v0, Mix0(v1, sum, k[..]));
      i := i + 1;
    }
    v[0], v[1] := v0, v1;
  }

  // ---------- arrays of blocks ----------

  function BlockAt(s: seq<u32>, i: nat): Block
    requires 2 * i + 1 < |s|
  {
    Block(s[2 * i], s[2 * i + 1])
  }

  ghost predicate Encrypted(to: seq<u32>, from: seq<u32>, k: Key, n: nat, blocks: nat)
    requires 2 * blocks <= |to| && 2 * blocks <= |from|
  {
    forall i: nat | i < blocks :: BlockAt(to, i) == Enc(BlockAt(from, i), k, n)
  }

  ghost predicate Decrypted(to: seq<u32>, from: seq<u32>, k: Key, n: nat, blocks: nat)
    requires 2 * blocks <= |to| && 2 * blocks <= |from|
  {
    forall i: nat | i < blocks :: BlockAt(to, i) == Dec(BlockAt(from, i), k, n)
  }

  /** Encrypts the whole blocks of `data`. */
  method EncryptData(cycles: u32, data: array<u32>, cypher: array<u32>, k: array<u32>)
    requires data != cypher && k != cypher && k.Length == 4 && cypher.Length == data.Length
    modifies cypher
    ensures Encrypted(cypher[..], data[..], k[..], cycles, data.Length / 2)
  {
    hide Enc, Dec;
    var v := new u32[2];
    for i := 0 to data.Length / 2
      invariant fresh(v)
      invariant Encrypted(cypher[..], data[..], k[..], cycles, i)
    {
      v[0], v[1] := data[i * 2], data[i * 2 + 1];
      Encipher(cycles, v, k);
      cypher[i * 2], cypher[i * 2 + 1] := v[0], v[1];
    }
  }

  method DecryptData(cycles: u32, cypher: array<u32>, plain: array<u32>, k: array<u32>)
    requires plain != cypher && k != plain && k.Length == 4 && cypher.Length == plain.Length
    modifies plain
    ensures Decrypted(plain[..], cypher[..], k[..], cycles, cypher.Length / 2)
  {
    hide Enc, Dec;
    var v := new u32[2];
    for i := 0 to cypher.Length / 2
      invariant fresh(v)
      invariant Decrypted(plain[..], cypher[..], k[..], cycles, i)
    {
      v[0], v[1] := cypher[i * 2], cypher[i * 2 + 1];
      Decipher(cycles, v, k);
      plain[i * 2], plain[i * 2 + 1] := v[0], v[1];
    }
  }

  /** Word for word: block `i` is words `2 * i` and `2 * i + 1`, in this order. */
  lemma EncryptedWords(to: seq<u32>, from: seq<u32>, k: Key, n: nat, blocks: nat, i: nat)
    requires 2 * blocks <= |to| && 2 * blocks <= |from| && i < blocks
    ensures Encrypted(to, from, k, n, blocks) ==>
              Block(to[2 * i], to[2 * i + 1]) == Enc(Block(from[2 * i], from[2 * i + 1]), k, n)
    ensures Decrypted(to, from, k, n, blocks) ==>
              Block(to[2 * i], to[2 * i + 1]) == Dec(Block(from[2 * i], from[2 * i + 1]), k, n)
  {
    hide Enc, Dec;
    assert BlockAt(to, i) == Block(to[2 * i], to[2 * i + 1]);
  }

  /** For data of whole blocks the two loops give the data back. */
  lemma DataRoundTrip(data: seq<u32>, cypher: seq<u32>, plain: seq<u32>, k: Key, n: nat)
    requires |data| % 2 == 0 && |cypher| == |data| == |plain|
    requires Encrypted(cypher, data, k, n, |data| / 2) && Decrypted(plain, cypher, k, n, |data| / 2)
    ensures plain == data
  {
    hide Enc, Dec;
    forall j | 0 <= j < |data|
      ensures plain[j] == data[j]
    {
      var i := j / 2;
      DecEnc(BlockAt(data, i), k, n);
      assert BlockAt(plain, i) == BlockAt(data, i);
    }
  }

  // ---------- the cipher by the bits of its words ----------

  /** `y` is `(v << 4) ^ (v >> 5)`, said by bits. */
  ghost predicate IsFold(y: u32, v: u32) {
    forall i: nat | i < 32 :: Bit(y, i) == ((i >= 4 && Bit(v, i - 4)) != (i < 27 && Bit(v, i + 5)))
  }

  /** `d` is the exclusive or of `x` and `w`, said by bits. */
  ghost predicate IsXor(d: u32, x: u32, w: u32) {
    forall i: nat | i < 32 :: Bit(d, i) == (Bit(x, i) != Bit(w, i))
  }

  /** `d` is `(((v << 4) ^ (v >> 5)) + v) ^ w`. */
  ghost predicate IsRound(d: u32, v: u32, w: u32) {
    exists y: u32 :: IsFold(y, v) && IsXor(d, (y + v) % 0x1_0000_0000, w)
  }

  /** One cycle has added such a round of each half to the other, with sum and key words `s` and `x`, `t` and `y`. */
  ghost predicate Cycled(before: Block, after: Block, s: u32, x: u32, t: u32, y: u32) {
    && IsRound((after.v0 - before.v0) % 0x1_0000_0000, before.v1, (s + x) % 0x1_0000_0000)
    && IsRound((after.v1 - before.v1) % 0x1_0000_0000, after.v0, (t + y) % 0x1_0000_0000)
  }

  lemma {:induction false} XorBit(a: nat, b: nat, n: nat, i: nat)
    requires i < n
    ensures Bit(XorBits(a, b, n), i) == (Bit(a, i) != Bit(b, i))
  {
    if i > 0 {
      XorBit(a / 2, b / 2, n - 1, i - 1);
    }
  }

  lemma HalfMod(x: nat, m: nat)
    requires m > 0
    ensures x % (2 * m) / 2 == x / 2 % m && x % (2 * m) % 2 == x % 2
    ensures x < 2 * m ==> x / 2 < m
  {
    ModTwice(x, m);
  }

  lemma {:induction false} BitBelow(x: nat, n: nat, i: nat)
    ensures i < n ==> Bit(x % Pow2(n), i) == Bit(x, i)
    ensures i >= n && x < Pow2(n) ==> !Bit(x, i)
    decreases n, i
  {
    if n > 0 {
      HalfMod(x, Pow2(n - 1));
      if i > 0 {
        BitBelow(x / 2, n - 1, i - 1);
      }
    } else if i > 0 {
      BitBelow(x / 2, 0, i - 1);
    }
  }

  lemma {:induction false} BitShift(v: nat, n: nat, i: nat)
    ensures Bit(v * Pow2(n), i) == (i >= n && Bit(v, i - n))
    decreases n
  {
    if n > 0 {
      var w := v * Pow2(n - 1);
      assert v * Pow2(n) == 2 * w;
      if i > 0 {
        BitShift(v, n - 1, i - 1);
      }
    }
  }

  lemma {:induction false} BitsAreAll(x: nat, y: nat, n: nat)
    requires x < Pow2(n) && y < Pow2(n) && forall i: nat | i < n :: Bit(x, i) == Bit(y, i)
    ensures x == y
  {
    if n > 0 {
      forall i: nat | i < n - 1
        ensures Bit(x / 2, i) == Bit(y / 2, i)
      {
        assert Bit(x, i + 1) == Bit(y, i + 1);
      }
      BitsAreAll(x / 2, y / 2, n - 1);
      assert Bit(x, 0) == Bit(y, 0);
    }
  }

  /** There is only one such word. */
  lemma RoundUnique(d: u32, d': u32, v: u32, w: u32)
    requires IsRound(d, v, w) && IsRound(d', v, w)
    ensures d == d'
  {
    hide Bit;
    Pow2Word();
    var y: u32 :| IsFold(y, v) && IsXor(d, (y + v) % 0x1_0000_0000, w);
    var y': u32 :| IsFold(y', v) && IsXor(d', (y' + v) % 0x1_0000_0000, w);
    BitsAreAll(y, y', 32);
    BitsAreAll(d, d', 32);
  }

  /** So the two words fix what a cycle makes of a block. */
  lemma CycledUnique(before: Block, after: Block, after': Block, s: u32, x: u32, t: u32, y: u32)
    requires Cycled(before, after, s, x, t, y) && Cycled(before, after', s, x, t, y)
    ensures after == after'
  {
    hide IsRound;
    RoundUnique((after.v0 - before.v0) % 0x1_0000_0000, (after'.v0 - before.v0) % 0x1_0000_0000, before.v1,
                (s + x) % 0x1_0000_0000);
    SameDifference(after.v0, after'.v0, before.v0);
    RoundUnique((after.v1 - before.v1) % 0x1_0000_0000, (after'.v1 - before.v1) % 0x1_0000_0000, after.v0,
                (t + y) % 0x1_0000_0000);
    SameDifference(after.v1, after'.v1, before.v1);
  }

  lemma SameDifference(a: u32, b: u32, c: u32)
    requires (a - c) % 0x1_0000_0000 == (b - c) % 0x1_0000_0000
    ensures a == b
  {
  }

  lemma ShiftBits(v: u32, i: nat)
    requires i < 32
    ensures Bit(U32(v as int * 16), i) == (i >= 4 && Bit(v, i - 4))
    ensures Bit(v as int / 32, i) == (i < 27 && Bit(v, i + 5))
  {
    Pow2Word();
    assert Pow2(4) == 16;
    BitBelow(v as int * 16, 32, i);
    BitShift(v, 4, i);
    BitBelow(v, 32, i + 5);
    FiveDown(v, i);
  }

  lemma FiveDown(v: nat, i: nat)
    ensures Bit(v, i + 5) == Bit(v / 32, i)
  {
    assert v / 2 / 2 / 2 / 2 / 2 == v / 32;
    assert Bit(v, i + 5) == Bit(v / 2, i + 4) == Bit(v / 2 / 2, i + 3) == Bit(v / 2 / 2 / 2, i + 2);
    assert Bit(v / 2 / 2 / 2, i + 2) == Bit(v / 2 / 2 / 2 / 2, i + 1) == Bit(v / 2 / 2 / 2 / 2 / 2, i);
  }

  lemma RoundBits(v: u32, w: u32)
    ensures IsRound(Xor(Scramble(v), w), v, w)
  {
    hide Bit, XorBits;
    var y := Xor(U32(v as int * 16), v as int / 32);
    var d := Xor(Scramble(v), w);
    forall i: nat | i < 32
      ensures Bit(y, i) == ((i >= 4 && Bit(v, i - 4)) != (i < 27 && Bit(v, i + 5)))
      ensures Bit(d, i) == (Bit((y + v) % 0x1_0000_0000, i) != Bit(w, i))
    {
      XorBit(U32(v as int * 16), v as int / 32, 32, i);
      ShiftBits(v, i);
      XorBit(Scramble(v), w, 32, i);
    }
    assert IsFold(y, v) && IsXor(d, (y + v) % 0x1_0000_0000, w);
  }

  lemma Added(a: u32, m: u32)
    ensures (Add(a, m) - a) % 0x1_0000_0000 == m
  {
  }

  /** What cycle `n` does, in terms of bits, the sum words and the key: by `CycledUnique` it can do nothing else. */
  lemma CycleByBits(b: Block, k: Key, n: nat, s: u32, t: u32)
    requires s == 0x9E37_79B9 * n % 0x1_0000_0000 && t == 0x9E37_79B9 * (n + 1) % 0x1_0000_0000
    ensures Cycled(Enc(b, k, n), Enc(b, k, n + 1), s, k[s as int % 4], t, k[t as int / 2048 % 4])
  {
    hide IsRound, Xor, Scramble, Add;
    var before, after := Enc(b, k, n), Enc(b, k, n + 1);
    SumWord(n, s);
    SumWord(n + 1, t);
    AddWord(s, k[s as int % 4]);
    AddWord(t, k[t as int / 2048 % 4]);
    RoundBits(before.v1, Add(s, k[s as int % 4]));
    RoundBits(after.v0, Add(t, k[t as int / 2048 % 4]));
    Added(before.v0, Mix0(before.v1, s, k));
    Added(before.v1, Mix1(after.v0, t, k));
  }

  lemma SumWord(n: nat, s: u32)
    requires s == 0x9E37_79B9 * n % 0x1_0000_0000
    ensures Sum(n) == s
  {
  }

  lemma AddWord(a: u32, b: u32)
    ensures Add(a, b) == (a + b) % 0x1_0000_0000
  {
  }

  /** The key words of the first four cycles: 0 and 3, 1 and 2, 2 and 1, 3 and 0. */
  lemma FirstCycles(b: Block, k: Key)
    ensures Cycled(b, Enc(b, k, 1), 0, k[0], 0x9E37_79B9, k[3])
    ensures Cycled(Enc(b, k, 1), Enc(b, k, 2), 0x9E37_79B9, k[1], 0x3C6E_F372, k[2])
    ensures Cycled(Enc(b, k, 2), Enc(b, k, 3), 0x3C6E_F372, k[2], 0xDAA6_6D2B, k[1])
    ensures Cycled(Enc(b, k, 3), Enc(b, k, 4), 0xDAA6_6D2B, k[3], 0x78DD_E6E4, k[0])
  {
    hide Cycled, Cycle;
    CycleByBits(b, k, 0, 0, 0x9E37_79B9);
    CycleByBits(b, k, 1, 0x9E37_79B9, 0x3C6E_F372);
    CycleByBits(b, k, 2, 0x3C6E_F372, 0xDAA6_6D2B);
    CycleByBits(b, k, 3, 0xDAA6_6D2B, 0x78DD_E6E4);
  }
}
