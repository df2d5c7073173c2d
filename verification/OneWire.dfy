/**
  The 1-Wire bus with its devices, and the bus master's search for their ROM numbers.
*/
module OneWire {
  import opened Crc8
  import opened RomTree

  const SEARCH_ROM: bv8 := 0xF0

  /**
    A bus of devices that know the search command. The line is wired-and: a bit read from the bus is the
    conjunction of what the listening devices send. After the search command each listening device sends
    its next bit, then the complement of that bit, then reads the master's direction bit and stops
    listening if the direction is not its own.
  */
  class Bus {
    const devices: set<Id>
    var listening: set<Id>
    var position: nat
    var slot: nat

    constructor (devices: set<Id>)
      ensures this.devices == devices
    {
      this.devices := devices;
      listening, position, slot := {}, 0, 0;
    }

    /** Resets every device; returns whether the presence pulse is missing. */
    method Reset() returns (absent: bool)
      modifies this
      ensures absent <==> devices == {}
    {
      listening, position, slot := {}, 0, 0;
      absent := devices == {};
    }

    method WriteByte(command: bv8)
      modifies this
      ensures command == 0xF0 ==> listening == devices && position == 0 && slot == 0
    {
      listening := if command == 0xF0 then devices else {};
      position, slot := 0, 0;
    }

    method ReadBit() returns (bit: bool)
      modifies this`slot
      ensures position < 64 && old(slot) == 0 ==> slot == 1 && (bit <==> forall d | d in listening :: d[position])
      ensures position < 64 && old(slot) == 1 ==> slot == 2 && (bit <==> forall d | d in listening :: !d[position])
    {
      bit := true;
      if position < 64 && slot == 0 {
        bit := forall d | d in listening :: d[position];
        slot := 1;
      } else if position < 64 && slot == 1 {
        bit := forall d | d in listening :: !d[position];
        slot := 2;
      }
    }

    method WriteBit(direction: bool)
      modifies this
      ensures old(position) < 64 && old(slot) == 2 ==>
                && listening == (set d | d in old(listening) && d[old(position)] == direction)
                && position == old(position) + 1 && slot == 0
    {
      if position < 64 && slot == 2 {
        listening := set d | d in listening && d[position] == direction;
        position, slot := position + 1, 0;
      }
    }
  }

  lemma MaskStep(k: nat)
    requires k < 8
    ensures Mask(k) << 1 == Mask(k + 1)
    ensures Mask(k) << 1 == 0 <==> k == 7
  {
  }

  lemma MaskPositive(x: bv8, k: nat)
    requires k < 8
    ensures x & Mask(k) > 0 <==> BitOf(x, k)
  {
  }

  lemma RomBit(rom: seq<bv8>, j: nat, k: nat)
    requires |rom| == 8 && j < 8 && k < 8
    ensures rom[j] & Mask(k) > 0 <==> Bits(rom)[8 * j + k]
  {
    SpreadAt(ByteBits, rom, j, k);
    MaskPositive(rom[j], k);
  }

  /** What the two read slots tell the master about the devices still listening. */
  lemma ReadsTell(s: set<Id>, p: Id, n: nat)
    requires n < 64 && Active(s, p, n) != {}
    ensures (forall d | d in Active(s, p, n) :: d[n]) <==> !Has(s, p, n, false)
    ensures (forall d | d in Active(s, p, n) :: !d[n]) <==> !Has(s, p, n, true)
    ensures Has(s, p, n, false) || Has(s, p, n, true)
  {
    var d :| d in Active(s, p, n);
    assert Has(s, p, n, d[n]);
  }

  /** The bus master: the global state of the search routines. */
  class Master {
    const bus: Bus
    const romNo: array<bv8>
    var lastDiscrepancy: int
    var lastFamilyDiscrepancy: int
    var lastDeviceFlag: bool
    var crc8: bv8

    predicate Valid() {
      romNo.Length == 8
    }

    /** The ROM buffer as a device number. */
    function Rom(): Id
      requires Valid()
      reads romNo
    {
      Bits(romNo[..])
    }

    /** The state in which the next search is like a first. */
    ghost predicate Idle()
      reads this
    {
      lastDiscrepancy == 0 && lastFamilyDiscrepancy == 0 && !lastDeviceFlag
    }

    constructor (bus: Bus)
      ensures Valid() && this.bus == bus && fresh(romNo)
    {
      this.bus := bus;
      romNo := new bv8[8];
    }

    method DoCrc8(value: bv8)
      modifies this`crc8
      ensures crc8 == Table(old(crc8) ^ value)
    {
      crc8 := Table(crc8 ^ value);
    }

    /**
      Reads the bit and complement slots and picks the branch to follow (the first half of the loop body
      of the search).
    */
    method ReadBranch(idBitNumber: int, romByteNumber: int, romByteMask: bv8, ghost rom: Id)
        returns (idBit: bool, cmpIdBit: bool, searchDirection: bool)
      requires Valid()
      requires 0 <= romByteNumber < 8 && 0 <= idBitNumber - 1 - 8 * romByteNumber < 8
      requires romByteMask == Mask(idBitNumber - 1 - 8 * romByteNumber)
      requires PartialPath(bus.devices, rom, lastDiscrepancy, Rom(), idBitNumber - 1)
      requires bus.position == idBitNumber - 1 && bus.slot == 0
      requires bus.listening == Active(bus.devices, Rom(), idBitNumber - 1)
      modifies bus`slot
      ensures bus.slot == 2
      ensures !(idBit && cmpIdBit)
      ensures idBit == cmpIdBit <==> Fork(bus.devices, Rom(), idBitNumber - 1)
      ensures searchDirection == Branch(bus.devices, rom, lastDiscrepancy, Rom(), idBitNumber - 1)
    {
      ghost var s, p, n := bus.devices, Rom(), idBitNumber - 1;
      idBit := bus.ReadBit();
      cmpIdBit := bus.ReadBit();
      ReadsTell(s, p, n);
      searchDirection := false;
      if idBit && cmpIdBit {
        return;
      }
      if idBit != cmpIdBit {
        searchDirection := idBit;
      } else if idBitNumber < lastDiscrepancy {
        searchDirection := romNo[romByteNumber] & romByteMask > 0;
        RomBit(romNo[..], romByteNumber, n - 8 * romByteNumber);
      } else {
        searchDirection := idBitNumber == lastDiscrepancy;
      }
    }

    /** Sets or clears one bit of the ROM buffer. */
    method WriteRomBit(romByteNumber: int, romByteMask: bv8, searchDirection: bool, ghost k: nat)
      requires Valid() && 0 <= romByteNumber < 8 && k < 8 && romByteMask == Mask(k)
      modifies romNo
      ensures Rom() == old(Rom())[8 * romByteNumber + k := searchDirection]
      ensures romNo[..romByteNumber] == old(romNo[..romByteNumber])
    {
      ghost var before := romNo[..];
      if searchDirection {
        SetBit(romNo[romByteNumber], k);
        romNo[romByteNumber] := romNo[romByteNumber] | romByteMask;
      } else {
        ClearBit(romNo[romByteNumber], k);
        romNo[romByteNumber] := romNo[romByteNumber] & !romByteMask;
      }
      assert romNo[..] == before[romByteNumber := romNo[romByteNumber]];
      SpreadUpdate(ByteBits, before, romByteNumber, romNo[romByteNumber], k, searchDirection);
    }

    /** The search stands at level `n` of the tree. */
    ghost predicate AtLevel(rom: Id, n: nat, lastZero: int, stale: int)
      requires Valid()
      reads this, romNo, bus
    {
      && Walked(bus.devices, rom, lastDiscrepancy, Rom(), n, lastZero, lastFamilyDiscrepancy, stale)
      && bus.position == n && bus.slot == 0 && bus.listening == Active(bus.devices, Rom(), n)
    }

    /** One level of the walk: read the branch, note a 0-fork, store the bit and tell the devices. */
    method WalkLevel(idBitNumber: int, romByteNumber: int, romByteMask: bv8, lastZero: int,
                     ghost rom: Id, ghost stale: int)
        returns (none: bool, lastZero': int)
      requires Valid()
      requires 0 <= romByteNumber < 8 && 0 <= idBitNumber - 1 - 8 * romByteNumber < 8
      requires romByteMask == Mask(idBitNumber - 1 - 8 * romByteNumber)
      requires AtLevel(rom, idBitNumber - 1, lastZero, stale)
      modifies romNo, bus, this`lastFamilyDiscrepancy
      ensures !none && AtLevel(rom, idBitNumber, lastZero', stale)
      ensures romNo[..romByteNumber] == old(romNo[..romByteNumber])
    {
      hide LastZero, FamilyZero, Bits, PartialPath, Mask, Branch;
      ghost var s, p, n := bus.devices, Rom(), idBitNumber - 1;
      lastZero' := lastZero;
      var idBit, cmpIdBit, searchDirection := ReadBranch(idBitNumber, romByteNumber, romByteMask, rom);
      none := idBit && cmpIdBit;
      if none {
        return;
      }
      if idBit == cmpIdBit && !searchDirection {
        lastZero' := idBitNumber;
        if lastZero' < 9 {
          lastFamilyDiscrepancy := lastZero';
        }
      }
      WalkedStep(s, rom, lastDiscrepancy, p, n, lastZero, old(lastFamilyDiscrepancy), stale);
      WriteRomBit(romByteNumber, romByteMask, searchDirection, n - 8 * romByteNumber);
      bus.WriteBit(searchDirection);
    }

    /** Moves the mask on, closing the byte with a CRC step when it is full. */
    method NextBit(romByteNumber: int, romByteMask: bv8, ghost k: nat)
        returns (romByteNumber': int, romByteMask': bv8)
      requires Valid() && 0 <= romByteNumber < 8 && k < 8 && romByteMask == Mask(k)
      requires crc8 == Fold(romNo[..romByteNumber])
      modifies this`crc8
      ensures romByteNumber' == (if k == 7 then romByteNumber + 1 else romByteNumber)
      ensures romByteMask' == Mask(if k == 7 then 0 else k + 1)
      ensures crc8 == Fold(romNo[..romByteNumber'])
    {
      MaskStep(k);
      romByteNumber', romByteMask' := romByteNumber, romByteMask << 1;
      if romByteMask' == 0 {
        assert romNo[..romByteNumber + 1][..romByteNumber] == romNo[..romByteNumber];
        DoCrc8(romNo[romByteNumber]);
        romByteNumber', romByteMask' := romByteNumber + 1, 1;
      }
    }

    /** The do-while loop of the search: walks one path through the tree of devices. */
    method WalkTree() returns (idBitNumber: int, lastZero: int)
      requires Valid() && bus.devices != {}
      requires bus.listening == bus.devices && bus.position == 0 && bus.slot == 0
      modifies romNo, bus, this`crc8, this`lastFamilyDiscrepancy
      ensures idBitNumber == 65 && lastZero == LastZero(bus.devices, Rom(), 64)
      ensures Path(bus.devices, old(Rom()), lastDiscrepancy, Rom())
      ensures lastFamilyDiscrepancy == FamilyZero(bus.devices, Rom(), 8, old(lastFamilyDiscrepancy))
      ensures crc8 == Fold(romNo[..])
    {
      hide Active, LastZero, FamilyZero, Walked, Path, Bits, Fold;
      var romByteNumber := 0;
      var romByteMask: bv8 := 1;
      idBitNumber, lastZero, crc8 := 1, 0, 0;
      ghost var rom, stale := Rom(), lastFamilyDiscrepancy;
      WalkStart(bus.devices, rom, lastDiscrepancy, stale);
      FoldNothing(romNo[..0]);
      while romByteNumber < 8
        invariant 0 <= romByteNumber <= 8 && 0 <= idBitNumber - 1 - 8 * romByteNumber < 8 && 1 <= idBitNumber <= 65
        invariant romByteMask == Mask(idBitNumber - 1 - 8 * romByteNumber)
        invariant AtLevel(rom, idBitNumber - 1, lastZero, stale)
        invariant crc8 == Fold(romNo[..romByteNumber])
        decreases 65 - idBitNumber
      {
        var none;
        none, lastZero := WalkLevel(idBitNumber, romByteNumber, romByteMask, lastZero, rom, stale);
        if none {
          break;
        }
        romByteNumber, romByteMask := NextBit(romByteNumber, romByteMask, idBitNumber - 1 - 8 * romByteNumber);
        idBitNumber := idBitNumber + 1;
      }
      WalkEnd(bus.devices, rom, lastDiscrepancy, Rom(), lastZero, lastFamilyDiscrepancy, stale);
      assert romNo[..8] == romNo[..];
    }

    method OWSearch() returns (searchResult: bool)
      requires Valid()
      modifies this, romNo, bus
      // without a device, or past the last one: nothing found, and the buffer is left alone
      ensures old(lastDeviceFlag) || bus.devices == {} ==> !searchResult && romNo[..] == old(romNo[..])
      // otherwise the buffer holds the device on the path of the search
      ensures !old(lastDeviceFlag) && bus.devices != {} ==>
                && Path(bus.devices, old(Rom()), old(lastDiscrepancy), Rom())
                && searchResult == Acceptable(Rom())
      // a failure makes the next search like a first
      ensures !searchResult ==> Idle()
      // a success leaves the deepest 0-fork of the device found
      ensures searchResult ==>
                && lastDiscrepancy == LastZero(bus.devices, Rom(), 64)
                && lastDeviceFlag == (lastDiscrepancy == 0)
                && lastFamilyDiscrepancy == FamilyZero(bus.devices, Rom(), 8, old(lastFamilyDiscrepancy))
    {
      var idBitNumber, lastZero := 1, 0;
      searchResult := false;
      crc8 := 0;
      if !lastDeviceFlag {
        var absent := bus.Reset();
        if absent {
          lastDiscrepancy, lastDeviceFlag, lastFamilyDiscrepancy := 0, false, 0;
          return false;
        }
        bus.WriteByte(SEARCH_ROM);
        idBitNumber, lastZero := WalkTree();
        FoldIsSerial(romNo[..]);
        FamilyByte(romNo[..]);
        if !(idBitNumber < 65 || crc8 != 0) {
          lastDiscrepancy := lastZero;
          if lastDiscrepancy == 0 {
            lastDeviceFlag := true;
          }
          searchResult := true;
        }
      }
      if !searchResult || romNo[0] == 0 {
        lastDiscrepancy, lastDeviceFlag, lastFamilyDiscrepancy := 0, false, 0;
        searchResult := false;
      }
    }

    /** The master stands at a device it has found, ready to look for the next one. */
    ghost predicate At()
      requires Valid()
      reads this, romNo, bus
    {
      && Rom() in bus.devices && Acceptable(Rom())
      && lastDiscrepancy == LastZero(bus.devices, Rom(), 64)
      && lastDeviceFlag == (lastDiscrepancy == 0)
    }

    /** ... or for the next family. */
    ghost predicate AtFamily()
      requires Valid()
      reads this, romNo, bus
    {
      At() && lastFamilyDiscrepancy == LastZero(bus.devices, Rom(), 8)
    }

    /** Finds the least device on the bus. */
    method OWFirst() returns (found: bool)
      requires Valid()
      modifies this, romNo, bus
      ensures bus.devices == {} ==> !found
      ensures bus.devices != {} ==> IsLeast(bus.devices, Rom()) && found == Acceptable(Rom())
      ensures if found then AtFamily() else Idle()
    {
      lastDiscrepancy, lastDeviceFlag, lastFamilyDiscrepancy := 0, false, 0;
      ghost var rom := Rom();
      found := OWSearch();
      if bus.devices != {} {
        forall d | d in bus.devices
          ensures d == Rom() || Less(Rom(), d)
        {
          PathFromZero(bus.devices, rom, Rom(), d);
        }
      }
    }

    /** From a found device, finds its successor in enumeration order. */
    method OWNext() returns (found: bool)
      requires Valid() && At()
      modifies this, romNo, bus
      ensures !HasNext(bus.devices, old(Rom()), 64) ==> !found
      ensures HasNext(bus.devices, old(Rom()), 64) ==>
                IsNext(bus.devices, old(Rom()), Rom(), 64) && found == Acceptable(Rom())
      ensures if found then At() else Idle()
      ensures found ==>
                (lastFamilyDiscrepancy == LastZero(bus.devices, Rom(), 8) <==>
                 old(lastFamilyDiscrepancy) == 0 || LastZero(bus.devices, Rom(), 8) > 0)
      ensures found && Marks(bus.devices, old(Rom()), old(lastFamilyDiscrepancy)) ==>
                Marks(bus.devices, Rom(), lastFamilyDiscrepancy)
    {
      hide Path, Bits, Acceptable, LastZero, Marks;
      ghost var s, r, f := bus.devices, Rom(), lastFamilyDiscrepancy;
      HasNextIff(s, r, 64);
      if lastDeviceFlag {
        found := OWSearch();
      } else {
        found := OWSearch();
        NextIsSuccessor(s, r, Rom(), 64);
        if Marks(s, r, f) {
          MarksKept(s, r, f, Rom());
        }
      }
    }

    /** Checks that the device whose number is in the buffer is on the bus; the search is not disturbed. */
    method OWVerify() returns (verified: bool)
      requires Valid()
      modifies this, romNo, bus
      ensures romNo[..] == old(romNo[..])
      ensures lastDiscrepancy == old(lastDiscrepancy) && lastDeviceFlag == old(lastDeviceFlag)
      ensures lastFamilyDiscrepancy == old(lastFamilyDiscrepancy)
      ensures verified <==>
                && Rom() in bus.devices && Acceptable(Rom())
                && (Rom()[63] || Rom()[63 := true] !in bus.devices)
      ensures (forall d | d in bus.devices :: Acceptable(d)) ==> (verified <==> Rom() in bus.devices)
      // so a scan goes on as if nothing had happened
      ensures (old(At()) ==> At()) && (old(AtFamily()) ==> AtFamily())
    {
      hide Path, Bits, Acceptable, LastZero, FamilyZero;
      var romBackup := new bv8[8];
      CopyRom(romNo, romBackup);
      var ldBackup, ldfBackup, lfdBackup := lastDiscrepancy, lastDeviceFlag, lastFamilyDiscrepancy;
      ghost var s, r := bus.devices, Rom();

      lastDiscrepancy := 64;
      lastDeviceFlag := false;
      var found := OWSearch();
      if found {
        verified := SameRom(romBackup, romNo);
      } else {
        verified := false;
      }
      if s != {} {
        VerifyMeans(s, r, Rom());
      }

      CopyRom(romBackup, romNo);
      lastDiscrepancy, lastDeviceFlag, lastFamilyDiscrepancy := ldBackup, ldfBackup, lfdBackup;
    }

    /** Aims the search at a family. */
    method OWTargetSetup(familyCode: bv8)
      requires Valid()
      modifies this, romNo
      ensures Bits(romNo[..]) == ByteBits(familyCode) + seq(56, _ => false)
      ensures lastDiscrepancy == 64 && lastFamilyDiscrepancy == 0 && !lastDeviceFlag
    {
      romNo[0] := familyCode;
      for i := 1 to 8
        invariant romNo[0] == familyCode
        invariant forall j | 1 <= j < i :: romNo[j] == 0
      {
        romNo[i] := 0;
      }
      TargetBits(romNo[..], familyCode);
      lastDiscrepancy, lastFamilyDiscrepancy, lastDeviceFlag := 64, 0, false;
    }

    /** Aims the search past the current family. */
    method OWFamilySkipSetup()
      modifies this
      ensures lastDiscrepancy == old(lastFamilyDiscrepancy) && lastFamilyDiscrepancy == 0
      ensures lastDeviceFlag == (old(lastDeviceFlag) || old(lastFamilyDiscrepancy) == 0)
      ensures crc8 == old(crc8)
    {
      lastDiscrepancy := lastFamilyDiscrepancy;
      lastFamilyDiscrepancy := 0;
      if lastDiscrepancy == 0 {
        lastDeviceFlag := true;
      }
    }

    /**
      A family skip followed by a search, from any device that searches have found. It goes to the least
      device of the next family, or ends after the last one, exactly if the family discrepancy is not stale,
      or the device is the last on the bus; otherwise it goes back, and is saved only by a rejection.
    */
    method SkipFamily() returns (found: bool)
      requires Valid() && At() && Marks(bus.devices, Rom(), lastFamilyDiscrepancy)
      modifies this, romNo, bus
      ensures old(NotStale()) ==> SkipRight(bus.devices, old(Rom()), found, Rom())
      ensures !old(NotStale()) ==>
                && !HasNext(bus.devices, old(Rom()), 8)
                && IsLeast(Active(bus.devices, old(Rom()), old(lastFamilyDiscrepancy)), Rom())
                && found == Acceptable(Rom())
      ensures (forall d | d in bus.devices :: Acceptable(d)) ==>
                (SkipRight(bus.devices, old(Rom()), found, Rom()) <==> old(NotStale()))
      ensures if found then AtFamily() else Idle()
    {
      hide Path, Bits, Acceptable, LastZero;
      ghost var s, r, f := bus.devices, Rom(), lastFamilyDiscrepancy;
      LastZeroMonotone(s, r, 8, 64);
      HasNextIff(s, r, 8);
      StaleMark(s, r, f);
      OWFamilySkipSetup();
      if lastDeviceFlag {
        found := OWSearch();
      } else {
        found := OWSearch();
        if f == LastZero(s, r, 8) {
          NextIsSuccessor(s, r, Rom(), 8);
        } else {
          StaleSkipGoesBack(s, r, f, Rom());
          assert Rom() in Active(s, r, f);
        }
      }
    }

    /**
      What the master can check before a skip: where the family discrepancy points, 0 was taken for the device
      in the buffer, or there is no further device anyway.
    */
    ghost predicate NotStale()
      requires Valid() && 0 <= lastFamilyDiscrepancy <= 64
      reads this, romNo, bus
    {
      lastFamilyDiscrepancy == 0 || !Rom()[lastFamilyDiscrepancy - 1] || lastDeviceFlag
    }

    /**
      A targeted search. If the family is on the bus, the search comes to its least device, or to that
      device's twin in the last bit; else it comes to some other device.
    */
    method FindFamily(familyCode: bv8) returns (found: bool)
      requires Valid()
      modifies this, romNo, bus
      ensures bus.devices == {} ==> !found
      ensures bus.devices != {} ==> Rom() in bus.devices && found == Acceptable(Rom())
      ensures forall d | LeastOfFamily(bus.devices, d) && d[..8] == ByteBits(familyCode) ::
                Rom() == Shadow(bus.devices, d)
      // a family of acceptable devices is found, if it is there, and by its least device
      ensures forall d | LeastOfFamily(bus.devices, d) && d[..8] == ByteBits(familyCode) ::
                (forall e | e in bus.devices && Agree(e, d, 8) :: Acceptable(e)) ==> found && Rom() == d
      // and the scan can go on from there
      ensures if found then AtFamily() else Idle()
    {
      hide Path, Bits, ByteBits, Acceptable, Less, LastZero;
      OWTargetSetup(familyCode);
      ghost var s, rom, code := bus.devices, Rom(), ByteBits(familyCode);
      found := OWSearch();
      if s != {} {
        PathOnBus(s, rom, 64, Rom());
      }
      forall d | LeastOfFamily(s, d) && d[..8] == code
        ensures Rom() == Shadow(s, d)
        ensures (forall e | e in s && Agree(e, d, 8) :: Acceptable(e)) ==> Acceptable(Rom()) && Rom() == d
      {
        FamilyFound(s, rom, Rom(), code, d);
      }
    }

    /**
      Scans the whole bus: lists every device up to the first one the search rejects, each exactly once and
      in increasing order, and counts them; so all devices are found exactly when none is rejected.
    */
    method ScanBus() returns (ids: seq<Id>, cnt: nat)
      requires Valid()
      modifies this, romNo, bus
      ensures ListsReachable(bus.devices, ids) && cnt == |ids|
      ensures (forall d | d in bus.devices :: d in ids) <==> (forall d | d in bus.devices :: Acceptable(d))
      ensures (forall d | d in bus.devices :: Acceptable(d)) ==> cnt == |bus.devices|
    {
      ghost var s := bus.devices;
      ids, cnt := [], 0;
      var res := OWFirst();
      if s != {} {
        ListStart(s, Rom());
        if !res {
          ListUpTo(s, ids, Rom());
        }
      }
      ghost var left := s;
      while res
        invariant cnt == |ids| && left <= s
        invariant if res then At() && ListsBefore(s, ids, Rom()) && Rom() in left else ListsReachable(s, ids)
        invariant forall d | d in s && d !in left :: d in ids
        decreases left, res
      {
        ghost var r := Rom();
        var next := ids + [Rom()];
        cnt := cnt + 1;
        res := OWNext();
        if !HasNext(s, r, 64) {
          ListAll(s, ids, r);
        } else {
          ListStep(s, ids, r, Rom());
          if !res {
            ListUpTo(s, next, Rom());
          }
        }
        left := left - {r};
        ids := next;
      }
      AllReachable(s, ids);
    }

    /**
      Scans the families on the bus. It lists the least device of each family up to the first family whose
      least device the search rejects, in increasing family order; so there is exactly one device for each
      family exactly when none of these is rejected.
    */
    method ScanFamilies() returns (ids: seq<Id>)
      requires Valid()
      modifies this, romNo, bus
      ensures FamiliesReachable(bus.devices, ids)
      ensures FamiliesAll(bus.devices, ids) <==> forall d | LeastOfFamily(bus.devices, d) :: Acceptable(d)
    {
      hide Bits, Acceptable, LastZero;
      ghost var s := bus.devices;
      ids := [];
      var res := OWFirst();
      ghost var left := s;
      if s != {} {
        FamilyStart(s, Rom());
        if !res {
          FamilyUpTo(s, ids, Rom());
        }
      }
      while res
        invariant left <= s
        invariant if res then AtFamily() && FamiliesBefore(s, ids, Rom()) && Rom() in left
                  else FamiliesReachable(s, ids)
        invariant forall d | d in s && d !in left :: d in ids
        decreases left, res
      {
        ghost var r := Rom();
        var next := ids + [Rom()];
        StaleMark(s, r, lastFamilyDiscrepancy);
        res := SkipFamily();
        if !HasNext(s, r, 8) {
          FamilyEnd(s, ids, r);
        } else {
          FamilyNext(s, ids, r, Rom());
          if !res {
            FamilyUpTo(s, next, Rom());
          }
        }
        left := left - {r};
        ids := next;
      }
      AllFamilies(s, ids);
    }
  }

  method CopyRom(from: array<bv8>, to: array<bv8>)
    requires from.Length == 8 && to.Length == 8 && from != to
    modifies to
    ensures to[..] == from[..]
  {
    for i := 0 to 8
      invariant to[..i] == from[..i]
    {
      to[i] := from[i];
    }
  }

  method SameRom(a: array<bv8>, b: array<bv8>) returns (same: bool)
    requires a.Length == 8 && b.Length == 8
    ensures same <==> Bits(a[..]) == Bits(b[..])
  {
    same := true;
    for i := 0 to 8
      invariant same ==> a[..i] == b[..i]
      invariant !same ==> a[..] != b[..]
    {
      if a[i] != b[i] {
        same := false;
        break;
      }
    }
    if Bits(a[..]) == Bits(b[..]) {
      BitsInjective(a[..], b[..]);
    }
  }

  lemma BitsInjective(a: seq<bv8>, b: seq<bv8>)
    requires |a| == |b| && Bits(a) == Bits(b)
    ensures a == b
  {
    forall j | 0 <= j < |a|
      ensures a[j] == b[j]
    {
      forall k: nat | k < 8
        ensures BitOf(a[j], k) == BitOf(b[j], k)
      {
        SpreadAt(ByteBits, a, j, k);
        SpreadAt(ByteBits, b, j, k);
      }
      ByteInjective(a[j], b[j]);
    }
  }

  lemma ByteInjective(x: bv8, y: bv8)
    requires forall k: nat | k < 8 :: BitOf(x, k) == BitOf(y, k)
    ensures x == y
  {
    assert BitOf(x, 0) == BitOf(y, 0) && BitOf(x, 1) == BitOf(y, 1);
    assert BitOf(x, 2) == BitOf(y, 2) && BitOf(x, 3) == BitOf(y, 3);
    assert BitOf(x, 4) == BitOf(y, 4) && BitOf(x, 5) == BitOf(y, 5);
    assert BitOf(x, 6) == BitOf(y, 6) && BitOf(x, 7) == BitOf(y, 7);
  }

  lemma TargetBits(rom: seq<bv8>, familyCode: bv8)
    requires |rom| == 8 && rom[0] == familyCode && forall j | 1 <= j < 8 :: rom[j] == 0
    ensures Bits(rom) == ByteBits(familyCode) + seq(56, _ => false)
  {
    forall i | 0 <= i < 64
      ensures Bits(rom)[i] == (ByteBits(familyCode) + seq(56, _ => false))[i]
    {
      SpreadAt(ByteBits, rom, i / 8, i % 8);
      ZeroByte(0);
    }
  }

  /** The device that a search from `r` and its deepest 0-fork within `w` bits finds, if there is a fork. */
  lemma NextIsSuccessor(s: set<Id>, r: Id, p: Id, w: nat)
    requires w <= 64 && r in s && LastZero(s, r, w) > 0 && Path(s, r, LastZero(s, r, w), p)
    ensures IsNext(s, r, p, w)
  {
    PathTurns(s, r, p, w);
    forall d | d in s && Before(r, d, w)
      ensures d == p || Less(p, d)
    {
      PathIsSuccessor(s, r, p, w, d);
    }
  }

  /** A search targeted at a device finds that device exactly if it is there and no twin shadows it. */
  lemma VerifyMeans(s: set<Id>, r: Id, p: Id)
    requires Path(s, r, 64, p)
    ensures p == r <==> r in s && (r[63] || r[63 := true] !in s)
    ensures Acceptable(r) && (forall d | d in s :: Acceptable(d)) ==> r[63] || r[63 := true] !in s
  {
    if r in s {
      PathTo(s, r, p);
    }
    if !r[63] && Acceptable(r) {
      NoTwin(r);
    }
  }

  lemma PathOnBus(s: set<Id>, rom: Id, ld: int, p: Id)
    requires Path(s, rom, ld, p)
    ensures p in s
  {
  }

  /** A search targeted at a family finds its least device, or the twin of it. */
  lemma FamilyFound(s: set<Id>, rom: Id, p: Id, code: seq<bool>, d: Id)
    requires |code| == 8 && rom == code + seq(56, _ => false)
    requires Path(s, rom, 64, p) && LeastOfFamily(s, d) && d[..8] == code
    ensures p in s && p == Shadow(s, d)
    ensures (forall e | e in s && Agree(e, d, 8) :: Acceptable(e)) ==> Acceptable(p) && p == d
  {
    assert forall j | 0 <= j < 8 :: d[j] == d[..8][j] == rom[j];
    PathToFamily(s, rom, p, d);
    assert Agree(p, d, 8) && Agree(d, d, 8);
    if !d[63] && Acceptable(d) {
      NoTwin(d);
    }
  }

  /** Level `n` of a walk is reached with path `p` and its deepest 0-forks. */
  ghost predicate Walked(s: set<Id>, rom: Id, ld: int, p: Id, n: nat, lastZero: int, family: int, stale: int) {
    PartialPath(s, rom, ld, p, n) && lastZero == LastZero(s, p, n) && family == FamilyZero(s, p, n, stale)
  }

  /** The family discrepancy recorded by a search that has reached level `n`, starting from `stale`. */
  ghost function FamilyZero(s: set<Id>, p: Id, n: nat, stale: int): int
    requires n <= 64
  {
    var z := LastZero(s, p, if n < 8 then n else 8);
    if z > 0 then z else stale
  }

  lemma WalkStart(s: set<Id>, rom: Id, ld: int, stale: int)
    requires s != {}
    ensures Walked(s, rom, ld, rom, 0, 0, stale, stale) && Active(s, rom, 0) == s
  {
    assert Active(s, rom, 0) == s;
  }

  lemma FoldNothing(s: seq<bv8>)
    requires s == []
    ensures Fold(s) == 0
  {
  }

  lemma WalkEnd(s: set<Id>, rom: Id, ld: int, p: Id, lastZero: int, family: int, stale: int)
    requires Walked(s, rom, ld, p, 64, lastZero, family, stale)
    ensures Path(s, rom, ld, p) && lastZero == LastZero(s, p, 64) && family == FamilyZero(s, p, 8, stale)
  {
    PathComplete(s, rom, ld, p);
  }

  lemma WalkedStep(s: set<Id>, rom: Id, ld: int, p: Id, n: nat, lastZero: int, family: int, stale: int)
    requires n < 64 && Walked(s, rom, ld, p, n, lastZero, family, stale)
    ensures var b := Branch(s, rom, ld, p, n);
            var zero := Fork(s, p, n) && !b;
            && Walked(s, rom, ld, p[n := b], n + 1, if zero then n + 1 else lastZero,
                      if zero && n + 1 < 9 then n + 1 else family, stale)
            && Active(s, p[n := b], n + 1) == (set d | d in Active(s, p, n) && d[n] == b)
  {
    PathStep(s, rom, ld, p, n);
  }

  /** The first byte of the buffer is zero exactly when the first eight bits are. */
  lemma FamilyByte(rom: seq<bv8>)
    requires |rom| == 8
    ensures rom[0] == 0 <==> Bits(rom)[..8] == seq(8, _ => false)
  {
    forall k: nat | k < 8
      ensures Bits(rom)[k] == BitOf(rom[0], k)
    {
      SpreadAt(ByteBits, rom, 0, k);
    }
    ZeroByte(rom[0]);
    if forall k: nat | k < 8 :: !BitOf(rom[0], k) {
      assert Bits(rom)[..8] == seq(8, _ => false);
    } else {
      var k: nat :| k < 8 && BitOf(rom[0], k);
      assert Bits(rom)[..8][k];
    }
  }

  lemma ZeroByte(x: bv8)
    ensures x == 0 <==> forall k: nat | k < 8 :: !BitOf(x, k)
  {
    if forall k: nat | k < 8 :: !BitOf(x, k) {
      assert !BitOf(x, 0) && !BitOf(x, 1) && !BitOf(x, 2) && !BitOf(x, 3);
      assert !BitOf(x, 4) && !BitOf(x, 5) && !BitOf(x, 6) && !BitOf(x, 7);
    }
  }
}
