/**
  The file allocation table: reading an entry from the sectors of the volume, for the three FAT widths,
  and the mapping from cluster numbers to sectors.
*/
module Fat {
  import opened Bytes
  import opened Arith
  import opened DiskIo

  datatype FatType = Fat12 | Fat16 | Fat32

  /** What mounting establishes about a volume. `dirbase` is a cluster on FAT32, otherwise a sector. */
  datatype Volume = Volume(fsType: FatType, csize: byte, nRootdir: u32, nFatent: u32,
                           fatbase: u32, dirbase: u32, database: u32)

  // ---------- FAT entries ----------

  function Decode12(clst: int, word: int): (e: int)
    requires 0 <= word < 0x1_0000
    ensures 0 <= e < 0x1000
  {
    if clst % 2 == 1 then word / 0x10 else word % 0x1000
  }

  /** `n` bytes of a sector, if the sector can be read. */
  function Peek(sectors: seq<Sector>, s: u32, ofs: nat, n: nat): (b: Option<seq<byte>>)
    requires ofs + n <= SECTOR_SIZE
    ensures b.Some? ==> |b.value| == n
  {
    if s < |sectors| then Some(sectors[s][ofs..ofs + n]) else None
  }

  function Entry12(v: Volume, sectors: seq<Sector>, clst: u32): u32 {
    var bc := U32(clst + clst / 2);
    if bc % 512 != 511 then
      match Peek(sectors, U32(v.fatbase + bc / 512), bc % 512, 2)
      case Some(w) => Decode12(clst, LdWord(w))
      case None => 1
    else
      match (Peek(sectors, U32(v.fatbase + bc / 512), 511, 1), Peek(sectors, U32(v.fatbase + bc / 512 + 1), 0, 1))
      case (Some(lo), Some(hi)) => Decode12(clst, LdWord(lo + hi))
      case _ => 1
  }

  function Entry16(v: Volume, sectors: seq<Sector>, clst: u32): u32 {
    match Peek(sectors, U32(v.fatbase + clst / 256), clst % 256 * 2, 2)
    case Some(w) => LdWord(w)
    case None => 1
  }

  function Entry32(v: Volume, sectors: seq<Sector>, clst: u32): u32 {
    match Peek(sectors, U32(v.fatbase + clst / 128), clst % 128 * 4, 4)
    case Some(w) => LdDword(w) % 0x1000_0000
    case None => 1
  }

  /** The value of a FAT entry; 1 for a cluster number out of range or a sector that cannot be read. */
  function FatEntry(v: Volume, sectors: seq<Sector>, clst: u32): u32 {
    if clst < 2 || clst >= v.nFatent then 1
    else
      match v.fsType
      case Fat12 => Entry12(v, sectors, clst)
      case Fat16 => Entry16(v, sectors, clst)
      case Fat32 => Entry32(v, sectors, clst)
  }

  /** Reads a FAT entry; a transfer error reads as 1. */
  method GetFat(disk: Disk, v: Volume, clst: u32) returns (e: u32)
    requires !disk.writing
    modifies disk`block, disk`pos
    ensures e == FatEntry(v, disk.sectors, clst) || (e == 1 && !disk.healthy)
  {
    hide LdWord, LdDword, Entry12;
    if clst < 2 || clst >= v.nFatent {
      return 1;
    }
    var buf := new byte[4](_ => 0);
    var ok;
    match v.fsType {
      case Fat12 =>
        e := GetFat12(disk, v, clst, buf);
        return;
      case Fat16 =>
        ok := disk.ReadP(buf, 0, U32(v.fatbase + clst / 256), clst % 256 * 2, 2);
        if !ok { return 1; }
        return LdWord(buf[0..2]);
      case Fat32 =>
        ok := disk.ReadP(buf, 0, U32(v.fatbase + clst / 128), clst % 128 * 4, 4);
        if !ok { return 1; }
        return LdDword(buf[0..4]) % 0x1000_0000;
    }
  }

  /** Reads a 12-bit entry, which may straddle two sectors. */
  method GetFat12(disk: Disk, v: Volume, clst: u32, buf: array<byte>) returns (e: u32)
    requires !disk.writing && buf.Length == 4
    modifies disk`block, disk`pos, buf
    ensures e == Entry12(v, disk.sectors, clst) || (e == 1 && !disk.healthy)
  {
    hide LdWord, Decode12;
    var ok;
    var bc := U32(clst + clst / 2);
    var ofs := bc % 512;
    bc := bc / 512;
    if ofs != 511 {
      ok := disk.ReadP(buf, 0, U32(v.fatbase + bc), ofs, 2);
      if !ok { return 1; }
    } else {
      ok := disk.ReadP(buf, 0, U32(v.fatbase + bc), 511, 1);
      if !ok { return 1; }
      ghost var lo := buf[0..1];
      ok := disk.ReadP(buf, 1, U32(v.fatbase + bc + 1), 0, 1);
      if !ok { return 1; }
      assert buf[0..2] == lo + buf[1..2];
    }
    e := Decode12(clst, LdWord(buf[0..2]));
  }

  // ---------- a table packed onto the volume ----------

  /** The on-disk form of a table: packed pairs of 12-bit entries, or little-endian words. */
  function Pack(fsType: FatType, t: seq<u32>): seq<byte> {
    match fsType
    case Fat12 => Pack12(t)
    case Fat16 => Pack16(t)
    case Fat32 => Pack32(t)
  }

  /** Two entries in three bytes. */
  function Triple12(x: u32, y: u32): (b: seq<byte>)
    ensures |b| == 3
  {
    [x % 0x100, x / 0x100 % 0x10 + y % 0x10 * 0x10, y / 0x10 % 0x100]
  }

  function Pack12(t: seq<u32>): seq<byte> {
    if |t| == 0 then []
    else if |t| == 1 then [t[0] % 0x100, t[0] / 0x100 % 0x10]
    else Triple12(t[0], t[1]) + Pack12(t[2..])
  }

  function Pack16(t: seq<u32>): (b: seq<byte>)
    ensures |b| == 2 * |t|
  {
    if t == [] then [] else [t[0] % 0x100, t[0] / 0x100 % 0x100] + Pack16(t[1..])
  }

  function Pack32(t: seq<u32>): (b: seq<byte>)
    ensures |b| == 4 * |t|
  {
    if t == [] then []
    else Word32(t[0]) + Pack32(t[1..])
  }

  /** The entries a table of each width can hold; on FAT32 the upper four bits are reserved. */
  predicate Holds(fsType: FatType, t: seq<u32>) {
    match fsType
    case Fat12 => forall i | 0 <= i < |t| :: t[i] < 0x1000
    case Fat16 => forall i | 0 <= i < |t| :: t[i] < 0x1_0000
    case Fat32 => true
  }

  /** The FAT of the volume starts with these bytes, laid out over consecutive sectors. */
  ghost predicate OnFat(v: Volume, sectors: seq<Sector>, bytes: seq<byte>) {
    && |sectors| <= TWO32
    && forall k | 0 <= k < |bytes| ::
         v.fatbase + k / 512 < |sectors| && sectors[v.fatbase + k / 512][k % 512] == bytes[k]
  }

  lemma Split12(x: int, y: int)
    requires 0 <= x < 0x1000 && 0 <= y < 0x1000
    ensures ((x / 0x100 % 0x10 + y % 0x10 * 0x10) * 0x100 + x % 0x100) % 0x1000 == x
    ensures (x / 0x100 % 0x10 * 0x100 + x % 0x100) % 0x1000 == x
    ensures (y / 0x10 % 0x100 * 0x100 + (x / 0x100 % 0x10 + y % 0x10 * 0x10)) / 0x10 == y
  {
    assert x / 0x100 % 0x10 == x / 0x100;
    assert y / 0x10 % 0x100 == y / 0x10;
  }

  lemma Pack12First(t: seq<u32>, i: nat)
    requires i < |t| && i < 2 && Holds(Fat12, t)
    ensures i + i / 2 + 2 <= |Pack12(t)|
    ensures Decode12(i, LdWord(Pack12(t)[i + i / 2..i + i / 2 + 2])) == t[i]
  {
    if |t| == 1 {
      Split12(t[0], 0);
    } else {
      FirstPair(t, i);
    }
  }

  lemma FirstPair(t: seq<u32>, i: nat)
    requires |t| >= 2 && i < 2 && t[0] < 0x1000 && t[1] < 0x1000
    ensures i + i / 2 + 2 <= |Pack12(t)|
    ensures Decode12(i, LdWord(Pack12(t)[i + i / 2..i + i / 2 + 2])) == t[i]
  {
    hide Pack12, Triple12, LdWord, Decode12;
    Pair12(t[0], t[1]);
    Pack12Pair(t);
    assert i + i / 2 == i;
  }

  lemma Pack12Pair(t: seq<u32>)
    requires |t| >= 2
    ensures |Pack12(t)| >= 3
    ensures Pack12(t)[0..2] == Triple12(t[0], t[1])[0..2] && Pack12(t)[1..3] == Triple12(t[0], t[1])[1..3]
  {
  }

  lemma Pair12(x: u32, y: u32)
    requires x < 0x1000 && y < 0x1000
    ensures Decode12(0, LdWord(Triple12(x, y)[0..2])) == x
    ensures Decode12(1, LdWord(Triple12(x, y)[1..3])) == y
  {
    Split12(x, y);
  }

  lemma {:induction false} Pack12At(t: seq<u32>, i: nat)
    requires i < |t| && Holds(Fat12, t)
    ensures i + i / 2 + 2 <= |Pack12(t)|
    ensures Decode12(i, LdWord(Pack12(t)[i + i / 2..i + i / 2 + 2])) == t[i]
  {
    if i < 2 {
      Pack12First(t, i);
    } else {
      Pack12At(t[2..], i - 2);
      Pack12Skip(t, i + i / 2);
      assert i + i / 2 - 3 == (i - 2) + (i - 2) / 2;
    }
  }

  lemma Pack12Skip(t: seq<u32>, b: nat)
    requires |t| >= 2 && 3 <= b && b - 3 + 2 <= |Pack12(t[2..])|
    ensures b + 2 <= |Pack12(t)| && Pack12(t)[b..b + 2] == Pack12(t[2..])[b - 3..b - 1]
  {
    assert Pack12(t)[3..] == Pack12(t[2..]);
  }

  lemma {:induction false} Pack16At(t: seq<u32>, i: nat)
    requires i < |t| && Holds(Fat16, t)
    ensures LdWord(Pack16(t)[2 * i..2 * i + 2]) == t[i]
  {
    if i > 0 {
      Pack16At(t[1..], i - 1);
      assert Pack16(t)[2 * i..2 * i + 2] == Pack16(t[1..])[2 * (i - 1)..2 * (i - 1) + 2];
    }
  }

  lemma {:induction false} Pack32At(t: seq<u32>, i: nat)
    requires i < |t|
    ensures LdDword(Pack32(t)[4 * i..4 * i + 4]) == t[i]
  {
    var p := Pack32(t);
    if i == 0 {
      LdWord32(t[0]);
      assert p[0..4] == Word32(t[0]);
    } else {
      Pack32At(t[1..], i - 1);
      assert p[4..] == Pack32(t[1..]);
      assert p[4 * i..4 * i + 4] == Pack32(t[1..])[4 * (i - 1)..4 * (i - 1) + 4];
    }
  }

  /** Bytes `b` to `b + n` of the FAT are found in one sector if they do not cross its end. */
  lemma OnFatSlice(v: Volume, sectors: seq<Sector>, bytes: seq<byte>, b: nat, n: nat)
    requires OnFat(v, sectors, bytes) && 0 < n && b + n <= |bytes| && b % 512 + n <= 512
    ensures v.fatbase + b / 512 < |sectors| <= TWO32
    ensures sectors[v.fatbase + b / 512][b % 512..b % 512 + n] == bytes[b..b + n]
  {
    assert bytes[b] == bytes[b];
    var s := sectors[v.fatbase + b / 512];
    forall k | b <= k < b + n
      ensures s[k - b + b % 512] == bytes[k]
    {
      assert k / 512 == b / 512 && k % 512 == k - b + b % 512;
    }
  }

  lemma Reads12(v: Volume, sectors: seq<Sector>, bytes: seq<byte>, i: u32)
    requires OnFat(v, sectors, bytes) && i < 0x1000 && i + i / 2 + 2 <= |bytes|
    ensures Entry12(v, sectors, i) == Decode12(i, LdWord(bytes[i + i / 2..i + i / 2 + 2]))
  {
    hide OnFat, LdWord, Entry12, Decode12;
    var b := i + i / 2;
    if b % 512 != 511 {
      OnFatSlice(v, sectors, bytes, b, 2);
      Within12(v, sectors, i, b, bytes[b..b + 2]);
    } else {
      StraddlingBytes(v, sectors, bytes, b);
      Across12(v, sectors, i, b, bytes[b..b + 2]);
    }
  }

  lemma Within12(v: Volume, sectors: seq<Sector>, i: u32, b: u32, w: seq<byte>)
    requires i < 0x1000 && b == i + i / 2 && b % 512 != 511 && |w| == 2
    requires v.fatbase + b / 512 < |sectors| <= TWO32
    requires sectors[v.fatbase + b / 512][b % 512..b % 512 + 2] == w
    ensures Entry12(v, sectors, i) == Decode12(i, LdWord(w))
  {
    assert U32(b) == b && U32(v.fatbase + b / 512) == v.fatbase + b / 512;
  }

  lemma Across12(v: Volume, sectors: seq<Sector>, i: u32, b: u32, w: seq<byte>)
    requires i < 0x1000 && b == i + i / 2 && b % 512 == 511 && |w| == 2
    requires v.fatbase + b / 512 + 1 < |sectors| <= TWO32
    requires sectors[v.fatbase + b / 512][511..512] + sectors[v.fatbase + b / 512 + 1][0..1] == w
    ensures Entry12(v, sectors, i) == Decode12(i, LdWord(w))
  {
    assert U32(b) == b && U32(v.fatbase + b / 512) == v.fatbase + b / 512;
    assert U32(v.fatbase + b / 512 + 1) == v.fatbase + b / 512 + 1;
  }

  /** The two bytes of an entry that straddles a sector boundary. */
  lemma StraddlingBytes(v: Volume, sectors: seq<Sector>, bytes: seq<byte>, b: nat)
    requires OnFat(v, sectors, bytes) && b + 2 <= |bytes| && b % 512 == 511
    ensures v.fatbase + b / 512 + 1 < |sectors| <= TWO32
    ensures sectors[v.fatbase + b / 512][511..512] + sectors[v.fatbase + b / 512 + 1][0..1] == bytes[b..b + 2]
  {
    NextSector(b);
    OnFatSlice(v, sectors, bytes, b, 1);
    OnFatSlice(v, sectors, bytes, b + 1, 1);
    assert bytes[b..b + 2] == bytes[b..b + 1] + bytes[b + 1..b + 2];
  }

  lemma NextSector(b: nat)
    requires b % 512 == 511
    ensures (b + 1) / 512 == b / 512 + 1 && (b + 1) % 512 == 0
  {
  }

  lemma Reads16(v: Volume, sectors: seq<Sector>, bytes: seq<byte>, i: u32)
    requires OnFat(v, sectors, bytes) && 2 * i + 2 <= |bytes|
    ensures Entry16(v, sectors, i) == LdWord(bytes[2 * i..2 * i + 2])
  {
    hide OnFat, LdWord;
    Scale(i, 2, 256);
    OnFatSlice(v, sectors, bytes, 2 * i, 2);
    assert U32(v.fatbase + i / 256) == v.fatbase + i / 256;
  }

  lemma Reads32(v: Volume, sectors: seq<Sector>, bytes: seq<byte>, i: u32)
    requires OnFat(v, sectors, bytes) && 4 * i + 4 <= |bytes|
    ensures Entry32(v, sectors, i) == LdDword(bytes[4 * i..4 * i + 4]) % 0x1000_0000
  {
    hide OnFat, LdDword;
    Scale(i, 4, 128);
    OnFatSlice(v, sectors, bytes, 4 * i, 4);
    assert U32(v.fatbase + i / 128) == v.fatbase + i / 128;
  }

  lemma Scale(i: nat, width: nat, perSector: nat)
    requires (width == 2 && perSector == 256) || (width == 4 && perSector == 128)
    ensures width * i / 512 == i / perSector && width * i % 512 == i % perSector * width
  {
  }

  /** Reading entry `i` of a packed table gives the entry back, also when it straddles two sectors. */
  lemma FatEntryDecodes(v: Volume, sectors: seq<Sector>, t: seq<u32>, i: u32)
    requires Holds(v.fsType, t) && OnFat(v, sectors, Pack(v.fsType, t))
    requires 2 <= i < v.nFatent && i < |t| && (v.fsType == Fat12 ==> v.nFatent <= 0x1000)
    ensures FatEntry(v, sectors, i) == if v.fsType == Fat32 then t[i] % 0x1000_0000 else t[i]
  {
    match v.fsType {
      case Fat12 =>
        Pack12At(t, i);
        Reads12(v, sectors, Pack12(t), i);
      case Fat16 =>
        Pack16At(t, i);
        Reads16(v, sectors, Pack16(t), i);
      case Fat32 =>
        Pack32At(t, i);
        Reads32(v, sectors, Pack32(t), i);
    }
  }

  /** There are no entries 0 and 1, and none behind the last cluster; an entry that cannot be read is 1. */
  lemma NoEntry(v: Volume, sectors: seq<Sector>, c: u32)
    ensures c == 0 || c == 1 || c >= v.nFatent ==> FatEntry(v, sectors, c) == 1
    ensures |sectors| == 0 ==> FatEntry(v, sectors, c) == 1
  {
  }

  // ---------- clusters and sectors ----------

  /** The first sector of a cluster; 0 for an invalid cluster number. */
  function Clust2Sect(v: Volume, clst: u32): (s: u32) {
    var c := U32(clst - 2);
    if c >= U32(v.nFatent - 2) then 0 else U32(c * v.csize + v.database)
  }

  predicate PowerOfTwo(c: int) {
    c == 1 || c == 2 || c == 4 || c == 8 || c == 16 || c == 32 || c == 64 || c == 128
  }

  /** The data area of the volume lies on the disk, after sector 0, within 32-bit sector numbers. */
  predicate DataOnDisk(v: Volume, size: nat) {
    && PowerOfTwo(v.csize) && v.nFatent >= 2 && v.database > 0
    && v.database + (v.nFatent - 2) * v.csize <= size
    && size <= TWO32
  }

  predicate IsCluster(v: Volume, clst: u32) {
    2 <= clst < v.nFatent
  }

  lemma OutsideUnmapped(v: Volume, clst: u32)
    requires v.nFatent >= 2 && !IsCluster(v, clst)
    ensures Clust2Sect(v, clst) == 0
  {
    assert U32(v.nFatent - 2) == v.nFatent - 2;
    assert U32(clst - 2) == if clst < 2 then clst - 2 + TWO32 else clst - 2;
  }

  /** On such a volume, a cluster number maps to a run of data sectors exactly when it is in range. */
  lemma ClusterRange(v: Volume, size: nat, clst: u32)
    requires DataOnDisk(v, size)
    ensures Clust2Sect(v, clst) != 0 <==> IsCluster(v, clst)
    ensures IsCluster(v, clst) ==>
              && Clust2Sect(v, clst) == (clst - 2) * v.csize + v.database
              && v.database <= Clust2Sect(v, clst)
              && Clust2Sect(v, clst) + v.csize <= v.database + (v.nFatent - 2) * v.csize <= size
  {
    if IsCluster(v, clst) {
      hide PowerOfTwo;
      MulStep(clst - 2, v.nFatent - 2, v.csize);
      assert U32(clst - 2) == clst - 2 && U32(v.nFatent - 2) == v.nFatent - 2;
      assert U32((clst - 2) * v.csize + v.database) == (clst - 2) * v.csize + v.database;
    } else {
      OutsideUnmapped(v, clst);
    }
  }

  /** Different clusters have no sector in common. */
  lemma ClustersDisjoint(v: Volume, size: nat, a: u32, b: u32, i: nat, j: nat)
    requires DataOnDisk(v, size) && IsCluster(v, a) && IsCluster(v, b) && a != b
    requires i < v.csize && j < v.csize
    ensures Clust2Sect(v, a) + i != Clust2Sect(v, b) + j
  {
    hide DataOnDisk, Clust2Sect;
    ClusterRange(v, size, a);
    ClusterRange(v, size, b);
    if a < b {
      MulStep(a - 2, b - 2, v.csize);
    } else {
      MulStep(b - 2, a - 2, v.csize);
    }
  }
}
