/**
  Mounting: finding the FAT volume on the disk and working out its layout from the boot sector.
*/
module Mount {
  import opened Bytes
  import opened Arith
  import opened DiskIo
  import opened Fat
  import opened Directory
  import opened FileWrite

  /** Which FAT widths are compiled in. */
  datatype Config = Config(fat12: bool, fat16: bool, fat32: bool) {
    predicate Only32() {
      fat32 && !fat12 && !fat16
    }
  }

  datatype BootKind = FatBoot | OtherBoot | NoBoot | Unreadable

  const SIGNATURE := 0xAA55
  const FA := 0x4146

  // ---------- the boot sector ----------

  predicate IsFatBoot(cfg: Config, boot: Sector) {
    || (!cfg.Only32() && LdWord(boot[54..56]) == FA)
    || (cfg.fat32 && LdWord(boot[82..84]) == FA)
  }

  function KindOf(cfg: Config, sectors: seq<Sector>, sect: u32): BootKind {
    if sect >= |sectors| then Unreadable
    else if LdWord(sectors[sect][510..512]) != SIGNATURE then NoBoot
    else if IsFatBoot(cfg, sectors[sect]) then FatBoot
    else OtherBoot
  }

  /** Where the volume starts: at sector 0, or at the first entry of a partition table found there. */
  function VolumeStart(cfg: Config, sectors: seq<Sector>): u32 {
    if KindOf(cfg, sectors, 0) == OtherBoot && sectors[0][450] != 0 then LdDword(sectors[0][454..458]) else 0
  }

  /** Unsigned division as the processor does it: all ones when the divisor is zero. */
  function DivU(a: nat, b: nat): nat {
    if b == 0 then TWO32 - 1 else a / b
  }

  function TypeOf(cfg: Config, mclst: u32): Option<FatType> {
    if cfg.fat32 && mclst >= 0xFFF7 then Some(Fat32)
    else if cfg.fat16 && 0xFF8 <= mclst < 0xFFF7 then Some(Fat16)
    else if cfg.fat12 && mclst < 0xFF7 then Some(Fat12)
    else None
  }

  /** The fields of the boot sector that fix the layout. */
  datatype Bpb = Bpb(csize: byte, rsvd: u32, fatArea: nat, rootEnt: u32, tsect: u32, rootClus: u32)

  function BpbOf(boot: Sector): Bpb {
    var fatSectors := if LdWord(boot[22..24]) != 0 then LdWord(boot[22..24]) else LdDword(boot[36..40]);
    var tsect := if LdWord(boot[19..21]) != 0 then LdWord(boot[19..21]) else LdDword(boot[32..36]);
    Bpb(boot[13], LdWord(boot[14..16]), fatSectors * boot[16], LdWord(boot[17..19]), tsect, LdDword(boot[44..48]))
  }

  /** The number of the last cluster plus one. */
  function LastCluster(p: Bpb): u32 {
    U32(DivU(U32(p.tsect - p.rsvd - U32(p.fatArea) - p.rootEnt / 16), p.csize) + 2)
  }

  /** The layout of the volume, all sums in 32-bit arithmetic. */
  function Layout(cfg: Config, bsect: u32, p: Bpb): Option<Volume> {
    var fatbase := U32(bsect + p.rsvd);
    match TypeOf(cfg, LastCluster(p))
    case None => None
    case Some(t) =>
      var dirbase := if t == Fat32 then p.rootClus else U32(fatbase + U32(p.fatArea));
      Some(Volume(t, p.csize, p.rootEnt, LastCluster(p), fatbase, dirbase,
                  U32(fatbase + U32(p.fatArea) + p.rootEnt / 16)))
  }

  /**
    The volume with its boot sector at `bsect`, where mounting may look for it: at sector 0 or where the first
    entry of the partition table points, on a healthy card only at the one of them that `VolumeStart` says.
  */
  predicate MayMount(cfg: Config, healthy: bool, sectors: seq<Sector>, bsect: u32, v: Volume) {
    && (bsect == 0 || (|sectors| > 0 && bsect == LdDword(sectors[0][454..458])))
    && (healthy ==> bsect == VolumeStart(cfg, sectors))
    && KindOf(cfg, sectors, bsect) == FatBoot
    && Layout(cfg, bsect, BpbOf(sectors[bsect])) == Some(v)
  }

  // ---------- mounting ----------

  method CheckFs(disk: Disk, cfg: Config, sect: u32) returns (kind: BootKind)
    requires !disk.writing
    modifies disk`block, disk`pos
    ensures disk.healthy ==> kind == KindOf(cfg, disk.sectors, sect)
    ensures kind == FatBoot ==> sect < |disk.sectors| && KindOf(cfg, disk.sectors, sect) == FatBoot
    ensures kind == OtherBoot ==> sect < |disk.sectors|
  {
    var buf := new byte[2](_ => 0);
    var ok := disk.ReadP(buf, 0, sect, 510, 2);
    if !ok { return Unreadable; }
    assert buf[..] == disk.sectors[sect][510..512];
    if LdWord(buf[..]) != SIGNATURE { return NoBoot; }
    if !cfg.Only32() {
      ok := disk.ReadP(buf, 0, sect, 54, 2);
      assert ok ==> buf[..] == disk.sectors[sect][54..56];
      if ok && LdWord(buf[..]) == FA { return FatBoot; }
    }
    if cfg.fat32 {
      ok := disk.ReadP(buf, 0, sect, 82, 2);
      assert ok ==> buf[..] == disk.sectors[sect][82..84];
      if ok && LdWord(buf[..]) == FA { return FatBoot; }
    }
    kind := OtherBoot;
  }

  datatype MountResult = Mounted(vol: Volume) | MountNotReady | MountDiskErr | NoFat

  /** What mounting finds on a disk that can be read. */
  function MountOf(cfg: Config, sectors: seq<Sector>): MountResult {
    var bsect := VolumeStart(cfg, sectors);
    match KindOf(cfg, sectors, bsect)
    case Unreadable => MountDiskErr
    case FatBoot =>
      (match Layout(cfg, bsect, BpbOf(sectors[bsect]))
       case Some(v) => Mounted(v)
       case None => NoFat)
    case _ => NoFat
  }

  /** The first entry of the partition table, as the 16 bytes read into memory. */
  lemma VolumeStartMeans(cfg: Config, sectors: seq<Sector>)
    ensures KindOf(cfg, sectors, 0) != OtherBoot ==> VolumeStart(cfg, sectors) == 0
    ensures KindOf(cfg, sectors, 0) == OtherBoot ==>
              |sectors| > 0 && var entry := sectors[0][446..462];
              VolumeStart(cfg, sectors) == if entry[4] != 0 then LdDword(entry[8..12]) else 0
    ensures |sectors| > 0 ==> LdDword(sectors[0][446..462][8..12]) == LdDword(sectors[0][454..458])
  {
    if |sectors| > 0 {
      SubSlice(sectors[0], 446, 462, 8, 12);
    }
  }

  method FindVolume(disk: Disk, cfg: Config, ready: bool) returns (r: MountResult)
    requires !disk.writing
    modifies disk`block, disk`pos
    ensures !ready <==> r == MountNotReady
    ensures r.Mounted? ==> exists bsect: u32 :: MayMount(cfg, disk.healthy, disk.sectors, bsect, r.vol)
    ensures ready && disk.healthy ==> r == MountOf(cfg, disk.sectors)
  {
    hide KindOf, VolumeStart, Layout, BpbOf, LdDword;
    if !ready { return MountNotReady; }
    VolumeStartMeans(cfg, disk.sectors);
    var buf := new byte[36](_ => 0);
    var bsect: u32 := 0;
    var kind := CheckFs(disk, cfg, bsect);
    if kind == OtherBoot {
      var ok := disk.ReadP(buf, 0, bsect, 446, 16);
      if !ok {
        kind := Unreadable;
      } else {
        assert buf[4] == buf[0..16][4];
        SubSlice(buf[..], 0, 16, 8, 12);
        if buf[4] != 0 {
          bsect := LdDword(buf[8..12]);
          kind := CheckFs(disk, cfg, bsect);
        }
      }
    }
    if kind == Unreadable { return MountDiskErr; }
    if kind != FatBoot { return NoFat; }
    var ok := disk.ReadP(buf, 0, bsect, 13, 36);
    if !ok { return MountDiskErr; }
    ghost var boot := disk.sectors[bsect];
    var layout := LayoutFromBuffer(cfg, bsect, buf[0..36], boot);
    r := if layout.None? then NoFat else Mounted(layout.value);
    if layout.Some? {
      assert MayMount(cfg, disk.healthy, disk.sectors, bsect, layout.value);
    }
  }

  /** The same layout, from the 36 bytes of the boot sector that are kept in memory. */
  method LayoutFromBuffer(cfg: Config, bsect: u32, buf: seq<byte>, ghost boot: Sector) returns (v: Option<Volume>)
    requires |buf| == 36 && buf == boot[13..49]
    ensures v == Layout(cfg, bsect, BpbOf(boot))
  {
    hide LdWord, LdDword, TypeOf, DivU, U32;
    SubSlice(boot, 13, 49, 9, 11);
    SubSlice(boot, 13, 49, 23, 27);
    SubSlice(boot, 13, 49, 1, 3);
    SubSlice(boot, 13, 49, 4, 6);
    SubSlice(boot, 13, 49, 6, 8);
    SubSlice(boot, 13, 49, 19, 23);
    SubSlice(boot, 13, 49, 31, 35);
    var fsize: u32 := LdWord(buf[22 - 13..24 - 13]);
    if fsize == 0 {
      fsize := LdDword(buf[36 - 13..40 - 13]);
    }
    fsize := U32(fsize * buf[16 - 13]);
    var rsvd, rootdir := LdWord(buf[14 - 13..16 - 13]), LdWord(buf[17 - 13..19 - 13]);
    var fatbase := U32(bsect + rsvd);
    var csize := buf[13 - 13];
    var tsect: u32 := LdWord(buf[19 - 13..21 - 13]);
    if tsect == 0 {
      tsect := LdDword(buf[32 - 13..36 - 13]);
    }
    var mclst := U32(DivU(U32(tsect - rsvd - fsize - rootdir / 16), csize) + 2);
    var fsType := TypeOf(cfg, mclst);
    if fsType.None? {
      return None;
    }
    var dirbase := if fsType.value == Fat32 then LdDword(buf[44 - 13..48 - 13]) else U32(fatbase + fsize);
    v := Some(Volume(fsType.value, csize, rootdir, mclst, fatbase, dirbase, U32(fatbase + fsize + rootdir / 16)));
  }

  // ---------- the layout of a proper volume ----------

  function DataSectors(p: Bpb): int {
    p.tsect - p.rsvd - p.fatArea - p.rootEnt / 16
  }

  /** A boot sector whose areas fit in the volume, none of whose sums leaves 32 bits. */
  predicate Fits(bsect: u32, p: Bpb) {
    PowerOfTwo(p.csize) && p.rsvd >= 1 && p.fatArea >= 1 && DataSectors(p) >= 0 && bsect + p.tsect < TWO32
  }

  lemma LastClusterExact(bsect: u32, p: Bpb)
    requires Fits(bsect, p)
    ensures LastCluster(p) == DataSectors(p) / p.csize + 2
  {
    var data := DataSectors(p);
    DivBounds(data, p.csize);
    assert U32(data) == data;
    assert 0 <= data / p.csize + 2 < TWO32;
  }

  /** The data area is what the reserved, FAT and root areas leave, cut to whole clusters. */
  lemma LayoutGeometry(cfg: Config, bsect: u32, p: Bpb)
    requires Fits(bsect, p) && Layout(cfg, bsect, p).Some?
    ensures var v := Layout(cfg, bsect, p).value;
            && v.fatbase == bsect + p.rsvd
            && v.database == v.fatbase + p.fatArea + p.rootEnt / 16
            && DataOnDisk(v, bsect + p.tsect)
            && bsect + p.tsect < v.database + (v.nFatent - 2) * v.csize + v.csize
  {
    hide LastCluster, TypeOf;
    var v, q := Layout(cfg, bsect, p).value, DataSectors(p) / p.csize;
    LastClusterExact(bsect, p);
    DivBounds(DataSectors(p), p.csize);
    assert v.nFatent - 2 == q && (v.nFatent - 2) * v.csize == q * p.csize;
  }

  /**
    After mounting a proper volume, every cluster number of the volume has its own run of sectors inside
    the volume and behind the FATs, and every other number has none.
  */
  lemma ClustersOfVolume(cfg: Config, bsect: u32, p: Bpb, a: u32, b: u32)
    requires Fits(bsect, p) && Layout(cfg, bsect, p).Some?
    ensures var v := Layout(cfg, bsect, p).value;
            && (IsCluster(v, a) <==> Clust2Sect(v, a) != 0)
            && (IsCluster(v, a) ==>
                  && bsect + p.rsvd + p.fatArea + p.rootEnt / 16 <= Clust2Sect(v, a)
                  && Clust2Sect(v, a) + v.csize <= bsect + p.tsect)
            && (IsCluster(v, a) && IsCluster(v, b) && a != b ==>
                  Clust2Sect(v, a) + v.csize <= Clust2Sect(v, b) || Clust2Sect(v, b) + v.csize <= Clust2Sect(v, a))
  {
    hide Layout, Clust2Sect;
    var v, size := Layout(cfg, bsect, p).value, bsect + p.tsect;
    LayoutGeometry(cfg, bsect, p);
    ClusterRange(v, size, a);
    if IsCluster(v, a) && IsCluster(v, b) {
      if a < b {
        ClusterOrder(v, size, a, b);
      } else if b < a {
        ClusterOrder(v, size, b, a);
      }
    }
  }

  lemma ClusterOrder(v: Volume, size: nat, a: u32, b: u32)
    requires DataOnDisk(v, size) && IsCluster(v, a) && IsCluster(v, b) && a < b
    ensures Clust2Sect(v, a) + v.csize <= Clust2Sect(v, b)
  {
    hide Clust2Sect;
    ClusterRange(v, size, a);
    ClusterRange(v, size, b);
    assert (a - 2) * v.csize + v.csize == (a - 1) * v.csize;
    assert (a - 1) * v.csize <= (b - 2) * v.csize;
  }

  /** A proper volume that lies on a disk of `size` sectors. */
  predicate Formatted(bsect: u32, p: Bpb, size: nat) {
    Fits(bsect, p) && bsect + p.tsect <= size <= TWO32
  }

  /** The root directory has a cluster of the volume, or, before FAT32, fills the sectors counted for it. */
  predicate HasRoot(v: Volume, p: Bpb) {
    if v.fsType == Fat32 then IsCluster(v, p.rootClus) else p.rootEnt > 0 && p.rootEnt % 16 == 0
  }

  /** A volume mounted from a proper boot sector has its data, and its root directory, on the disk. */
  lemma TablesOfVolume(cfg: Config, bsect: u32, p: Bpb, size: nat)
    requires Formatted(bsect, p, size) && Layout(cfg, bsect, p).Some?
    ensures var v := Layout(cfg, bsect, p).value;
            DataOnDisk(v, size) && (HasRoot(v, p) ==> TablesOnDisk(v, size))
  {
    hide Layout, DataOnDisk, StaticSectors;
    var v := Layout(cfg, bsect, p).value;
    LayoutGeometry(cfg, bsect, p);
    DataGrows(v, bsect + p.tsect, size);
    RootPlace(cfg, bsect, p);
  }

  lemma DataGrows(v: Volume, m: nat, n: nat)
    requires DataOnDisk(v, m) && m <= n <= TWO32
    ensures DataOnDisk(v, n) && v.database <= n
  {
    NonNegative(v.nFatent - 2, v.csize);
  }

  /** The root directory, where it is a run of sectors, lies between the FATs and the data. */
  lemma RootPlace(cfg: Config, bsect: u32, p: Bpb)
    requires Fits(bsect, p) && Layout(cfg, bsect, p).Some?
    ensures var v := Layout(cfg, bsect, p).value;
            && (v.fsType == Fat32 ==> v.dirbase == p.rootClus)
            && (v.fsType != Fat32 ==> 0 < v.dirbase && v.dirbase + p.rootEnt / 16 == v.database)
            && (p.rootEnt > 0 && p.rootEnt % 16 == 0 ==> StaticSectors(v) == p.rootEnt / 16)
  {
    hide LastCluster, TypeOf, PowerOfTwo, U32, TWO32;
    NoWrap(p.fatArea);
    NoWrap(bsect + p.rsvd);
    NoWrap(bsect + p.rsvd + p.fatArea);
    NoWrap(bsect + p.rsvd + p.fatArea + p.rootEnt / 16);
  }

  /** If the FAT area of a proper boot sector has room for all entries, the FAT lies before the data. */
  lemma FatFitsOfVolume(cfg: Config, bsect: u32, p: Bpb)
    requires Fits(bsect, p) && Layout(cfg, bsect, p).Some?
    ensures var v := Layout(cfg, bsect, p).value;
            LastFatSector(v) < p.fatArea && v.nFatent <= 0x1000_0000 ==> FatFits(v)
  {
    hide Layout, LastFatSector;
    LayoutGeometry(cfg, bsect, p);
  }
}
