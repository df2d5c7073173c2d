/**
  The 1-Wire CRC-8: the byte-wise lookup table, and the serial shift register of the polynomial
  x^8 + x^5 + x^4 + 1 that it is meant to compute.
*/
module Crc8 {

  // ---------- bytes as bits ----------

  type Octet = bits: seq<bool> | |bits| == 8 witness seq(8, _ => false)

  /** The byte with only bit `k` set. */
  function Mask(k: nat): bv8 {
    match k
    case 0 => 1
    case 1 => 2
    case 2 => 4
    case 3 => 8
    case 4 => 16
    case 5 => 32
    case 6 => 64
    case 7 => 128
    case _ => 0
  }

  predicate BitOf(x: bv8, k: nat) {
    x & Mask(k) != 0
  }

  /** The bits of a byte in transmission order: least significant first. */
  function ByteBits(x: bv8): Octet {
    OctetOf(BitOf, x)
  }

  function OctetOf<B>(bit: (B, nat) -> bool, x: B): Octet {
    seq(8, k requires 0 <= k < 8 => bit(x, k))
  }

  /** A string of octets laid end to end, whatever it is that they stand for. */
  function Spread<B>(octet: B -> Octet, m: seq<B>): (bits: seq<bool>)
    ensures |bits| == 8 * |m|
  {
    if m == [] then [] else Spread(octet, m[..|m| - 1]) + octet(m[|m| - 1])
  }

  /** The bits of a byte string in transmission order. */
  function Bits(m: seq<bv8>): (bits: seq<bool>)
    ensures |bits| == 8 * |m|
  {
    Spread(ByteBits, m)
  }

  lemma {:induction false} SpreadAt<B>(octet: B -> Octet, m: seq<B>, j: nat, k: nat)
    requires j < |m| && k < 8
    ensures Spread(octet, m)[8 * j + k] == octet(m[j])[k]
  {
    if j < |m| - 1 {
      SpreadAt(octet, m[..|m| - 1], j, k);
    }
  }

  /** Changing bit `k` of byte `j` changes bit `8j + k` of the string and nothing else. */
  lemma SpreadUpdate<B>(octet: B -> Octet, m: seq<B>, j: nat, x: B, k: nat, v: bool)
    requires j < |m| && k < 8 && octet(x) == octet(m[j])[k := v]
    ensures Spread(octet, m[j := x]) == Spread(octet, m)[8 * j + k := v]
  {
    var w := m[j := x];
    forall i | 0 <= i < 8 * |m|
      ensures Spread(octet, w)[i] == Spread(octet, m)[8 * j + k := v][i]
    {
      SpreadAt(octet, w, i / 8, i % 8);
      SpreadAt(octet, m, i / 8, i % 8);
      assert i == 8 * (i / 8) + i % 8;
    }
  }

  lemma OctetUpdate<B>(bit: (B, nat) -> bool, x: B, y: B, k: nat, v: bool)
    requires k < 8 && forall i: nat | i < 8 :: bit(y, i) == if i == k then v else bit(x, i)
    ensures OctetOf(bit, y) == OctetOf(bit, x)[k := v]
  {
  }

  lemma BitOfLow(x: bv8)
    ensures BitOf(x, 0) == Low(x)
  {
  }

  lemma BitOfShr(x: bv8, k: nat)
    requires k < 7
    ensures BitOf(x, k + 1) == BitOf(Shr(x), k)
  {
  }

  lemma OrMask(x: bv8, k: nat, i: nat)
    requires k < 8 && i < 8
    ensures BitOf(x | Mask(k), i) == if i == k then true else BitOf(x, i)
  {
  }

  lemma AndNotMask(x: bv8, k: nat, i: nat)
    requires k < 8 && i < 8
    ensures BitOf(x & !Mask(k), i) == if i == k then false else BitOf(x, i)
  {
  }

  /** Or-ing in a mask sets one bit. */
  lemma SetBit(x: bv8, k: nat)
    requires k < 8
    ensures ByteBits(x | Mask(k)) == ByteBits(x)[k := true]
  {
    forall i: nat | i < 8
      ensures BitOf(x | Mask(k), i) == if i == k then true else BitOf(x, i)
    {
      OrMask(x, k, i);
    }
    OctetUpdate(BitOf, x, x | Mask(k), k, true);
  }

  /** And-ing with the complement of a mask clears one bit. */
  lemma ClearBit(x: bv8, k: nat)
    requires k < 8
    ensures ByteBits(x & !Mask(k)) == ByteBits(x)[k := false]
  {
    forall i: nat | i < 8
      ensures BitOf(x & !Mask(k), i) == if i == k then false else BitOf(x, i)
    {
      AndNotMask(x, k, i);
    }
    OctetUpdate(BitOf, x, x & !Mask(k), k, false);
  }

  // ---------- the lookup table ----------

  /** Entry `k` of a row of sixteen. */
  function Pick(k: bv8, v0: bv8, v1: bv8, v2: bv8, v3: bv8, v4: bv8, v5: bv8, v6: bv8, v7: bv8,
                v8: bv8, v9: bv8, v10: bv8, v11: bv8, v12: bv8, v13: bv8, v14: bv8, v15: bv8): bv8 {
    if k & 8 == 0 then
      if k & 4 == 0 then
        if k & 2 == 0 then if k & 1 == 0 then v0 else v1 else if k & 1 == 0 then v2 else v3
      else if k & 2 == 0 then if k & 1 == 0 then v4 else v5
      else if k & 1 == 0 then v6 else v7
    else if k & 4 == 0 then
      if k & 2 == 0 then if k & 1 == 0 then v8 else v9 else if k & 1 == 0 then v10 else v11
    else if k & 2 == 0 then if k & 1 == 0 then v12 else v13
    else if k & 1 == 0 then v14 else v15
  }

  /** The 256-byte table, one row of sixteen per high nibble as in the source. */
  function Table(x: bv8): bv8 {
    var k := x & 15;
    match x >> 4
    case 0 => Pick(k, 0, 94, 188, 226, 97, 63, 221, 131, 194, 156, 126, 32, 163, 253, 31, 65)
    case 1 => Pick(k, 157, 195, 33, 127, 252, 162, 64, 30, 95, 1, 227, 189, 62, 96, 130, 220)
    case 2 => Pick(k, 35, 125, 159, 193, 66, 28, 254, 160, 225, 191, 93, 3, 128, 222, 60, 98)
    case 3 => Pick(k, 190, 224, 2, 92, 223, 129, 99, 61, 124, 34, 192, 158, 29, 67, 161, 255)
    case 4 => Pick(k, 70, 24, 250, 164, 39, 121, 155, 197, 132, 218, 56, 102, 229, 187, 89, 7)
    case 5 => Pick(k, 219, 133, 103, 57, 186, 228, 6, 88, 25, 71, 165, 251, 120, 38, 196, 154)
    case 6 => Pick(k, 101, 59, 217, 135, 4, 90, 184, 230, 167, 249, 27, 69, 198, 152, 122, 36)
    case 7 => Pick(k, 248, 166, 68, 26, 153, 199, 37, 123, 58, 100, 134, 216, 91, 5, 231, 185)
    case 8 => Pick(k, 140, 210, 48, 110, 237, 179, 81, 15, 78, 16, 242, 172, 47, 113, 147, 205)
    case 9 => Pick(k, 17, 79, 173, 243, 112, 46, 204, 146, 211, 141, 111, 49, 178, 236, 14, 80)
    case 10 => Pick(k, 175, 241, 19, 77, 206, 144, 114, 44, 109, 51, 209, 143, 12, 82, 176, 238)
    case 11 => Pick(k, 50, 108, 142, 208, 83, 13, 239, 177, 240, 174, 76, 18, 145, 207, 45, 115)
    case 12 => Pick(k, 202, 148, 118, 40, 171, 245, 23, 73, 8, 86, 180, 234, 105, 55, 213, 139)
    case 13 => Pick(k, 87, 9, 235, 181, 54, 104, 138, 212, 149, 203, 41, 119, 244, 170, 72, 22)
    case 14 => Pick(k, 233, 183, 85, 11, 136, 214, 52, 106, 43, 117, 151, 201, 74, 20, 246, 168)
    case _ => Pick(k, 116, 42, 200, 150, 21, 75, 169, 247, 182, 232, 10, 84, 215, 137, 107, 53)
  }

  /** The CRC of a byte string, one table lookup a byte. */
  function Fold(m: seq<bv8>): bv8 {
    if m == [] then 0 else Table(Fold(m[..|m| - 1]) ^ m[|m| - 1])
  }

  // ---------- the shift register ----------

  /** One clock of the CRC register: the feedback is the incoming bit xor the bit shifted out. */
  function ShiftIn(crc: bv8, bit: bool): bv8 {
    if (crc & 1 != 0) != bit then (crc >> 1) ^ 0x8C else crc >> 1
  }

  /** A state machine run over a bit string. */
  function Run<S>(step: (S, bool) -> S, s: S, bits: seq<bool>): S
    decreases bits
  {
    if bits == [] then s else Run(step, step(s, bits[0]), bits[1..])
  }

  lemma {:induction false} RunAppend<S>(step: (S, bool) -> S, s: S, a: seq<bool>, b: seq<bool>)
    ensures Run(step, s, a + b) == Run(step, Run(step, s, a), b)
    decreases a
  {
    if a == [] {
      assert a + b == b;
    } else {
      assert (a + b)[0] == a[0] && (a + b)[1..] == a[1..] + b;
      RunAppend(step, step(s, a[0]), a[1..], b);
    }
  }

  /** The register after clocking in a bit string. */
  function Clock(crc: bv8, bits: seq<bool>): bv8 {
    Run(ShiftIn, crc, bits)
  }

  /** The polynomial CRC of a bit string: the remainder left in a register that starts at zero. */
  function Serial(bits: seq<bool>): bv8 {
    Clock(0, bits)
  }

  /** One clock of the register with no input. */
  function Step(x: bv8): bv8 {
    if x & 1 == 1 then (x >> 1) ^ 0x8C else x >> 1
  }

  function Shr(x: bv8): bv8 {
    x >> 1
  }

  predicate Low(x: bv8) {
    x & 1 == 1
  }

  function Xor(a: bv8, b: bv8): bv8 {
    a ^ b
  }

  function Iterate<S>(f: S -> S, x: S, k: nat): S
    decreases k
  {
    if k == 0 then x else Iterate(f, f(x), k - 1)
  }

  /** What shifting a word right `k` times drops. */
  function Dropped<S>(shr: S -> S, low: S -> bool, x: S, k: nat): (bits: seq<bool>)
    ensures |bits| == k
    decreases k
  {
    if k == 0 then [] else [low(x)] + Dropped(shr, low, shr(x), k - 1)
  }

  /** If feeding a word's low bit is xor-ing the word in first, so is feeding `k` of its bits. */
  lemma {:induction false} Absorb<S(!new)>(f: (S, bool) -> S, g: S -> S, xor: (S, S) -> S,
                                          shr: S -> S, low: S -> bool, c: S, x: S, k: nat)
    requires forall c, y :: xor(f(c, low(y)), shr(y)) == g(xor(c, y))
    ensures xor(Run(f, c, Dropped(shr, low, x, k)), Iterate(shr, x, k)) == Iterate(g, xor(c, x), k)
    decreases k
  {
    if k > 0 {
      assert Dropped(shr, low, x, k)[1..] == Dropped(shr, low, shr(x), k - 1);
      Absorb(f, g, xor, shr, low, f(c, low(x)), shr(x), k - 1);
    }
  }

  lemma Iterate8<S>(f: S -> S, x: S)
    ensures Iterate(f, x, 8) == f(f(f(f(f(f(f(f(x))))))))
  {
    assert Iterate(f, f(x), 7) == Iterate(f, f(f(x)), 6);
    assert Iterate(f, f(f(x)), 6) == Iterate(f, f(f(f(x))), 5);
    assert Iterate(f, f(f(f(x))), 5) == Iterate(f, f(f(f(f(x)))), 4);
    assert Iterate(f, f(f(f(f(x)))), 4) == Iterate(f, f(f(f(f(f(x))))), 3);
    assert Iterate(f, f(f(f(f(f(x))))), 3) == Iterate(f, f(f(f(f(f(f(x)))))), 2);
    assert Iterate(f, f(f(f(f(f(f(x)))))), 2) == Iterate(f, f(f(f(f(f(f(f(x))))))), 1);
  }

  lemma {:induction false} DroppedAt(x: bv8, n: nat, i: nat)
    requires i < n <= 8
    ensures Dropped(Shr, Low, x, n)[i] == BitOf(x, i)
    decreases n
  {
    if i == 0 {
      BitOfLow(x);
    } else {
      DroppedAt(Shr(x), n - 1, i - 1);
      BitOfShr(x, i - 1);
    }
  }

  lemma DroppedByte(x: bv8)
    ensures Dropped(Shr, Low, x, 8) == ByteBits(x)
    ensures Iterate(Shr, x, 8) == 0
  {
    forall i | 0 <= i < 8
      ensures Dropped(Shr, Low, x, 8)[i] == ByteBits(x)[i]
    {
      DroppedAt(x, 8, i);
    }
    Iterate8(Shr, x);
  }

  /** Eight input-free clocks. */
  function Shift8(x: bv8): bv8 {
    Step(Step(Step(Step(Step(Step(Step(Step(x))))))))
  }

  lemma StepAbsorbs(c: bv8, y: bv8)
    ensures Xor(ShiftIn(c, Low(y)), Shr(y)) == Step(Xor(c, y))
  {
  }

  /** Clocking in a byte is xor-ing it into the register and clocking eight times. */
  lemma ClockByte(crc: bv8, x: bv8)
    ensures Clock(crc, ByteBits(x)) == Iterate(Step, crc ^ x, 8)
  {
    forall c: bv8, y: bv8
      ensures Xor(ShiftIn(c, Low(y)), Shr(y)) == Step(Xor(c, y))
    {
      StepAbsorbs(c, y);
    }
    Absorb(ShiftIn, Step, Xor, Shr, Low, crc, x, 8);
    DroppedByte(x);
  }

  lemma TableLowHalf(x: bv8)
    requires x & 128 == 0
    ensures Table(x) == Shift8(x)
  {
  }

  lemma TableHighHalf(x: bv8)
    requires x & 128 != 0
    ensures Table(x) == Shift8(x)
  {
  }

  lemma TableIsShift8(x: bv8)
    ensures Table(x) == Shift8(x)
  {
    if x & 128 == 0 {
      TableLowHalf(x);
    } else {
      TableHighHalf(x);
    }
  }

  lemma Shift8Zero(x: bv8)
    ensures Shift8(x) == 0 <==> x == 0
  {
  }

  /** One table lookup is eight clocks of the register. */
  lemma TableIsClock(crc: bv8, x: bv8)
    ensures Table(crc ^ x) == Clock(crc, ByteBits(x))
  {
    ClockByte(crc, x);
    Iterate8(Step, crc ^ x);
    TableIsShift8(crc ^ x);
  }

  /** Only the zero index looks up zero. */
  lemma TableZero(x: bv8)
    ensures Table(x) == 0 <==> x == 0
  {
    TableIsShift8(x);
    Shift8Zero(x);
  }

  /** The table-driven CRC is the polynomial CRC, on every byte string. */
  lemma {:induction false} FoldIsSerial(m: seq<bv8>)
    ensures Fold(m) == Serial(Bits(m))
  {
    hide Table, ShiftIn, ByteBits;
    if m != [] {
      var front, x := m[..|m| - 1], m[|m| - 1];
      FoldIsSerial(front);
      RunAppend(ShiftIn, 0, Bits(front), ByteBits(x));
      TableIsClock(Fold(front), x);
    }
  }

  /** Two bit strings that differ in their last bit only cannot both have a zero CRC. */
  lemma LastBitMatters(bits: seq<bool>)
    ensures Serial(bits + [false]) != 0 || Serial(bits + [true]) != 0
  {
    RunAppend(ShiftIn, 0, bits, [false]);
    RunAppend(ShiftIn, 0, bits, [true]);
    ShiftInZero(Serial(bits));
  }

  lemma ShiftInZero(crc: bv8)
    ensures ShiftIn(crc, false) != 0 || ShiftIn(crc, true) != 0
  {
  }

  /** A message followed by a byte has a zero CRC exactly when that byte is the message's own CRC. */
  lemma ZeroIffCheckByte(m: seq<bv8>, x: bv8)
    ensures Serial(Bits(m + [x])) == 0 <==> x == Serial(Bits(m))
  {
    var c := Serial(Bits(m));
    assert Bits(m + [x]) == Bits(m) + ByteBits(x) by {
      assert (m + [x])[..|m|] == m;
    }
    RunAppend(ShiftIn, 0, Bits(m), ByteBits(x));
    TableIsClock(c, x);
    TableZero(c ^ x);
    XorZero(c, x);
  }

  lemma XorZero(a: bv8, b: bv8)
    ensures a ^ b == 0 <==> a == b
  {
  }
}
