/**
  Small buses on which the search does what its callers may not expect.
*/
module OneWireCases {
  import opened Crc8
  import opened RomTree
  import opened OneWire

  /** A ROM number with this family code, first serial number byte and CRC byte; the other bytes are zero. */
  function RomOf(family: bv8, serial: bv8, check: bv8): seq<bv8> {
    [family, serial, 0, 0, 0, 0, 0, check]
  }

  function Device(family: bv8, serial: bv8, check: bv8): Id {
    Bits(RomOf(family, serial, check))
  }

  lemma DeviceBit(family: bv8, serial: bv8, check: bv8, j: nat, k: nat)
    requires j < 8 && k < 8
    ensures Device(family, serial, check)[8 * j + k] == BitOf(RomOf(family, serial, check)[j], k)
  {
    SpreadAt(ByteBits, RomOf(family, serial, check), j, k);
  }

  lemma FoldRom(m: seq<bv8>, n: nat, c: bv8, x: bv8)
    requires n < |m| && Fold(m[..n]) == c && m[n] == x
    ensures Fold(m[..n + 1]) == Table(c ^ x)
  {
    assert m[..n + 1][..n] == m[..n];
  }

  /** A zero byte, or the first byte. */
  lemma FoldZero(m: seq<bv8>, n: nat, c: bv8)
    requires n < |m| && Fold(m[..n]) == c && (m[n] == 0 || c == 0)
    ensures Fold(m[..n + 1]) == Table(if c == 0 then m[n] else c)
  {
    hide Table, Fold;
    FoldRom(m, n, c, m[n]);
    assert c ^ m[n] == if c == 0 then m[n] else c;
  }

  function Zeros5(c: bv8): bv8 {
    Table(Table(Table(Table(Table(c)))))
  }

  /** The CRC of such a number without its CRC byte. */
  function Check(family: bv8, serial: bv8): bv8 {
    Zeros5(Table(Table(family) ^ serial))
  }

  lemma CheckIsFold(family: bv8, serial: bv8, check: bv8)
    ensures Fold(RomOf(family, serial, check)) == Table(Check(family, serial) ^ check)
  {
    hide Table, Fold;
    var m := RomOf(family, serial, check);
    FoldNothing(m[..0]);
    FoldZero(m, 0, 0);
    FoldRom(m, 1, Table(family), serial);
    FoldZero(m, 2, Fold(m[..2]));
    FoldZero(m, 3, Fold(m[..3]));
    FoldZero(m, 4, Fold(m[..4]));
    FoldZero(m, 5, Fold(m[..5]));
    FoldZero(m, 6, Fold(m[..6]));
    FoldRom(m, 7, Check(family, serial), check);
    assert m[..8] == m;
  }

  lemma DeviceAcceptable(family: bv8, serial: bv8, check: bv8)
    requires family != 0
    ensures Acceptable(Device(family, serial, check)) <==> check == Check(family, serial)
  {
    hide Check, Fold, Serial;
    var m := RomOf(family, serial, check);
    FoldIsSerial(m);
    CheckIsFold(family, serial, check);
    TableZero(Check(family, serial) ^ check);
    XorZero(Check(family, serial), check);
    FamilyByte(m);
  }

  // ---------- a stale family skip ----------

  /** One device of family 2, which comes first, and two of family 1. */
  function Lone(): Id {
    Device(2, 0, 0x7A)
  }

  function First(): Id {
    Device(1, 0, 0x3D)
  }

  function Second(): Id {
    Device(1, 1, 0x0A)
  }

  lemma LoneSteps()
    ensures Table(2) == 188 && Table(188) == 145 && Table(145) == 79 && Table(79) == 7
    ensures Table(7) == 131 && Table(131) == 110 && Table(110) == 0x7A
  {
  }

  lemma FirstSteps()
    ensures Table(1) == 94 && Table(94) == 196 && Table(196) == 171 && Table(171) == 143
    ensures Table(143) == 205 && Table(205) == 55 && Table(55) == 0x3D
  {
  }

  lemma SecondSteps()
    ensures Table(95) == 154 && Table(154) == 111 && Table(111) == 36
    ensures Table(36) == 66 && Table(66) == 250 && Table(250) == 0x0A
  {
  }

  lemma Checks()
    ensures Check(2, 0) == 0x7A && Check(1, 0) == 0x3D && Check(1, 1) == 0x0A
  {
    hide Table;
    LoneSteps();
    FirstSteps();
    SecondSteps();
    assert (188 as bv8) ^ 0 == 188 && (94 as bv8) ^ 0 == 94 && (94 as bv8) ^ 1 == 95;
  }

  lemma ThreeAcceptable()
    ensures Acceptable(Lone()) && Acceptable(First()) && Acceptable(Second())
  {
    hide Acceptable, Device, Check;
    Checks();
    DeviceAcceptable(2, 0, 0x7A);
    DeviceAcceptable(1, 0, 0x3D);
    DeviceAcceptable(1, 1, 0x0A);
  }

  lemma BitZero()
    ensures !BitOf(2, 0) && BitOf(1, 0) && !BitOf(0, 0)
  {
  }

  lemma SameByte(f: bv8, s: bv8, c: bv8, s': bv8, c': bv8)
    ensures Agree(Device(f, s, c), Device(f, s', c'), 8)
  {
    forall k: nat | k < 8
      ensures Device(f, s, c)[k] == Device(f, s', c')[k]
    {
      DeviceBit(f, s, c, 0, k);
      DeviceBit(f, s', c', 0, k);
    }
  }

  /** How the three devices lie: the lone one before the other two, and these in one family. */
  lemma ThreeInOrder()
    ensures !Lone()[0] && First()[0] && Second()[0] && Agree(First(), Second(), 8)
    ensures Before(Lone(), First(), 1) && Before(Lone(), Second(), 1) && Less(First(), Second())
    ensures Less(Lone(), First()) && Less(Lone(), Second())
  {
    hide Device, BitOf;
    BitZero();
    DeviceBit(2, 0, 0x7A, 0, 0);
    DeviceBit(1, 0, 0x3D, 0, 0);
    DeviceBit(1, 1, 0x0A, 0, 0);
    DeviceBit(1, 0, 0x3D, 1, 0);
    DeviceBit(1, 1, 0x0A, 1, 0);
    SameByte(1, 0, 0x3D, 1, 0x0A);
    assert Agree(Lone(), First(), 0) && Agree(Lone(), Second(), 0);
    assert !First()[8] && Second()[8];
  }

  lemma ThreeNexts(s: set<Id>)
    requires s == {Lone(), First(), Second()}
    ensures IsLeast(s, Lone())
    ensures HasNext(s, Lone(), 8) && HasNext(s, Lone(), 64)
    ensures forall p | IsNext(s, Lone(), p, 64) :: p == First()
    ensures HasNext(s, First(), 64) && !HasNext(s, First(), 8)
  {
    hide Device;
    ThreeInOrder();
    assert Before(Lone(), First(), 8);
    forall p | IsNext(s, Lone(), p, 64)
      ensures p == First()
    {
      BeforeIrreflexive(First(), Second(), 64);
      assert !Less(Lone(), Lone());
    }
    forall d | d in s
      ensures !Before(First(), d, 8)
    {
      if Before(First(), d, 8) {
        assert Less(First(), d);
        BeforeIrreflexive(First(), d, 8);
      }
    }
  }

  /** From the first device of the second family, a skip that goes back comes to this device again. */
  lemma BackToFirst(s: set<Id>, f: nat, p: Id)
    requires s == {Lone(), First(), Second()} && 0 < f <= 8 && IsLeast(Active(s, First(), f), p)
    ensures p == First()
  {
    hide Device;
    ThreeInOrder();
    var a := Active(s, First(), f);
    assert Lone() !in a && First() in a;
    if p != First() {
      BeforeIrreflexive(First(), Second(), 64);
    }
  }

  /**
    Three good devices on which a family skip after a plain search goes wrong: the second search finds the
    first device of family 1, which is the last family, and the skip comes back to it instead of ending.
  */
  method StaleSkip() returns (bus: Bus, second: Id, third: Id, found: bool)
    ensures forall d | d in bus.devices :: Acceptable(d)
    ensures second in bus.devices && !HasNext(bus.devices, second, 8)
    ensures found && third == second
  {
    hide Acceptable, Lone, First, Second, LastZero, Bits, Fork, Agree, Less, Before, Active;
    ghost var s := {Lone(), First(), Second()};
    ThreeAcceptable();
    ThreeInOrder();
    ThreeNexts(s);
    bus := new Bus({Lone(), First(), Second()});
    var m := new Master(bus);
    found := m.OWFirst();
    LeastUnique(s, Lone(), m.Rom());
    HasNextIff(s, Lone(), 8);
    found := m.OWNext();
    second := m.Rom();
    HasNextIff(s, First(), 8);
    HasNextIff(s, First(), 64);
    ghost var f := m.lastFamilyDiscrepancy;
    found := m.SkipFamily();
    third := m.Rom();
    BackToFirst(s, f, third);
  }

  // ---------- a device that its twin hides ----------

  function Twin(): Id {
    Device(1, 0, 0xBD)
  }

  lemma TwinBits()
    ensures !First()[63] && Twin() == First()[63 := true]
  {
    forall i: nat | i < 64
      ensures Twin()[i] == if i == 63 then true else First()[i]
      ensures i == 63 ==> !First()[63]
    {
      DeviceBit(1, 0, 0xBD, i / 8, i % 8);
      DeviceBit(1, 0, 0x3D, i / 8, i % 8);
      if i / 8 == 7 {
        TwinByte(i % 8);
      }
    }
  }

  lemma TwinByte(k: nat)
    requires k < 8
    ensures BitOf(0xBD, k) == if k == 7 then true else BitOf(0x3D, k)
    ensures !BitOf(0x3D, 7)
  {
  }

  /** A good device that is on the bus, and is not verified because a device with a bad CRC is its twin. */
  method HiddenDevice() returns (bus: Bus, device: Id, verified: bool)
    ensures device in bus.devices && Acceptable(device) && !verified
  {
    hide Acceptable, Device;
    ThreeAcceptable();
    TwinBits();
    bus := new Bus({First(), Twin()});
    var m := new Master(bus);
    var rom := RomOf(1, 0, 0x3D);
    for i := 0 to 8
      invariant forall j | 0 <= j < i :: m.romNo[j] == rom[j]
    {
      m.romNo[i] := rom[i];
    }
    assert m.romNo[..] == rom;
    device := m.Rom();
    DeviceIs(1, 0, 0x3D);
    verified := m.OWVerify();
  }

  lemma DeviceIs(family: bv8, serial: bv8, check: bv8)
    ensures Device(family, serial, check) == Bits(RomOf(family, serial, check))
  {
  }
}
