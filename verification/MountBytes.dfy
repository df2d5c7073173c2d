/**
  Mounting, by the bytes of the boot sector and of the partition table.
*/
module MountBytes {
  import opened Bytes
  import opened Arith
  import opened Fat
  import opened Mount

  /** Two bytes of a sector, the lower one first. */
  function Word(b: Sector, i: nat): (w: u32)
    requires i + 2 <= 512
    ensures w < 0x1_0000
  {
    b[i] as int + 0x100 * b[i + 1] as int
  }

  /** Four bytes of a sector, the lowest one first. */
  function Dword(b: Sector, i: nat): u32
    requires i + 4 <= 512
  {
    b[i] as int + 0x100 * b[i + 1] as int + 0x1_0000 * b[i + 2] as int + 0x100_0000 * b[i + 3] as int
  }

  lemma WordValue(b: Sector, i: nat)
    requires i + 2 <= 512
    ensures LdWord(b[i..i + 2]) == Word(b, i)
  {
  }

  lemma DwordValue(b: Sector, i: nat)
    requires i + 4 <= 512
    ensures LdDword(b[i..i + 4]) == Dword(b, i)
  {
  }

  // ---------- where the volume is ----------

  predicate Signed(sector: Sector) {
    sector[510] == 0x55 && sector[511] == 0xAA
  }

  /** Sector `s` is the boot sector of a FAT volume: signature, and "FA" where one of the FAT widths has it. */
  predicate FatAt(cfg: Config, sectors: seq<Sector>, s: u32) {
    && s < |sectors| && Signed(sectors[s])
    && ((cfg.fat32 && sectors[s][82] == 0x46 && sectors[s][83] == 0x41)
        || ((cfg.fat12 || cfg.fat16 || !cfg.fat32) && sectors[s][54] == 0x46 && sectors[s][55] == 0x41))
  }

  /** The volume starts at sector 0, or where the first entry of the partition table says. */
  predicate StartsAt(cfg: Config, sectors: seq<Sector>, s: u32) {
    && FatAt(cfg, sectors, s)
    && (if FatAt(cfg, sectors, 0) then s == 0
        else sectors != [] && Signed(sectors[0]) && sectors[0][450] != 0 && s == Dword(sectors[0], 454))
  }

  lemma KindByBytes(cfg: Config, sectors: seq<Sector>, s: u32)
    ensures KindOf(cfg, sectors, s) == FatBoot <==> FatAt(cfg, sectors, s)
    ensures KindOf(cfg, sectors, s) == Unreadable <==> s >= |sectors|
    ensures KindOf(cfg, sectors, s) == NoBoot <==> s < |sectors| && !Signed(sectors[s])
  {
    if s < |sectors| {
      WordBytes(sectors[s], 510, 0x55, 0xAA);
      WordBytes(sectors[s], 54, 0x46, 0x41);
      WordBytes(sectors[s], 82, 0x46, 0x41);
    }
  }

  lemma WordBytes(sector: Sector, i: nat, lo: byte, hi: byte)
    requires i + 2 <= 512
    ensures LdWord(sector[i..i + 2]) == hi * 0x100 + lo <==> sector[i] == lo && sector[i + 1] == hi
  {
  }

  lemma OnDisk(cfg: Config, sectors: seq<Sector>, s: u32)
    requires StartsAt(cfg, sectors, s)
    ensures s < |sectors|
  {
  }

  /** This is where mounting finds the volume. */
  lemma StartByBytes(cfg: Config, sectors: seq<Sector>)
    ensures forall s: u32 :: StartsAt(cfg, sectors, s) <==>
              s == VolumeStart(cfg, sectors) && KindOf(cfg, sectors, s) == FatBoot
  {
    hide FatAt, KindOf, LdDword, Dword, Signed;
    KindByBytes(cfg, sectors, 0);
    if sectors != [] {
      DwordValue(sectors[0], 454);
    }
    forall s: u32
      ensures StartsAt(cfg, sectors, s) <==> s == VolumeStart(cfg, sectors) && KindOf(cfg, sectors, s) == FatBoot
    {
      KindByBytes(cfg, sectors, s);
      NotBoth(cfg, sectors);
    }
  }

  lemma NotBoth(cfg: Config, sectors: seq<Sector>)
    ensures FatAt(cfg, sectors, 0) ==> sectors != [] && Signed(sectors[0])
    ensures sectors != [] && KindOf(cfg, sectors, 0) == OtherBoot ==> Signed(sectors[0]) && !FatAt(cfg, sectors, 0)
    ensures sectors != [] && KindOf(cfg, sectors, 0) != OtherBoot ==> !Signed(sectors[0]) || FatAt(cfg, sectors, 0)
  {
    KindByBytes(cfg, sectors, 0);
  }

  // ---------- what the volume is ----------

  /** The sectors of one FAT and of the volume: a 16-bit field, or a 32-bit field if that is zero. */
  function FatSize(boot: Sector): u32 {
    if Word(boot, 22) != 0 then Word(boot, 22) else Dword(boot, 36)
  }

  function TotalSize(boot: Sector): u32 {
    if Word(boot, 19) != 0 then Word(boot, 19) else Dword(boot, 32)
  }

  /** The sectors before the data area: reserved ones, all copies of the FAT, and the root directory. */
  function Overhead(boot: Sector): nat {
    NonNegative(FatSize(boot), boot[16]);
    Word(boot, 14) + FatSize(boot) * boot[16] + Word(boot, 17) / 16
  }

  lemma FieldsByBytes(boot: Sector)
    ensures 0 <= FatSize(boot) * boot[16]
    ensures BpbOf(boot) == Bpb(boot[13], Word(boot, 14), FatSize(boot) * boot[16], Word(boot, 17),
                               TotalSize(boot), Dword(boot, 44))
  {
    hide LdWord, LdDword, Word, Dword;
    WordValue(boot, 14);
    WordValue(boot, 17);
    WordValue(boot, 19);
    WordValue(boot, 22);
    DwordValue(boot, 32);
    DwordValue(boot, 36);
    DwordValue(boot, 44);
  }

  /** The FAT width that so many clusters have, among those compiled in. */
  function WidthOf(cfg: Config, clusters: nat): Option<FatType> {
    if clusters < 4085 then (if cfg.fat12 then Some(Fat12) else None)
    else if clusters == 4085 then None
    else if clusters < 65525 then (if cfg.fat16 then Some(Fat16) else None)
    else if cfg.fat32 then Some(Fat32) else None
  }

  /** The volume of a boot sector at `s`, if there is room for the areas that the boot sector names. */
  function VolumeOf(cfg: Config, s: u32, boot: Sector): Option<Volume>
    requires boot[13] != 0 && Overhead(boot) <= TotalSize(boot) && s + TotalSize(boot) < 0xFFFF_FFFE
  {
    NumbersFit(s, boot);
    var clusters := (TotalSize(boot) - Overhead(boot)) / boot[13];
    var fats := s + Word(boot, 14);
    match WidthOf(cfg, clusters)
    case None => None
    case Some(t) =>
      Some(Volume(t, boot[13], Word(boot, 17), clusters + 2, fats,
                  if t == Fat32 then Dword(boot, 44) else fats + FatSize(boot) * boot[16], s + Overhead(boot)))
  }

  lemma NumbersFit(s: u32, boot: Sector)
    requires boot[13] != 0 && Overhead(boot) <= TotalSize(boot) && s + TotalSize(boot) < 0xFFFF_FFFE
    ensures 0 <= FatSize(boot) * boot[16] && Word(boot, 14) + FatSize(boot) * boot[16] <= Overhead(boot)
    ensures 0 <= (TotalSize(boot) - Overhead(boot)) / boot[13] <= TotalSize(boot) - Overhead(boot)
  {
    NonNegative(FatSize(boot), boot[16]);
    DivBounds(TotalSize(boot) - Overhead(boot), boot[13]);
  }

  /** What is mounted is this volume. */
  lemma MountByBytes(cfg: Config, sectors: seq<Sector>, s: u32)
    requires StartsAt(cfg, sectors, s)
    requires var boot := sectors[s];
             boot[13] != 0 && Overhead(boot) <= TotalSize(boot) && s + TotalSize(boot) < 0xFFFF_FFFE
    ensures MountOf(cfg, sectors) == match VolumeOf(cfg, s, sectors[s])
                                     case Some(v) => Mounted(v)
                                     case None => NoFat
  {
    hide KindOf, VolumeStart, StartsAt, BpbOf, Layout, VolumeOf;
    OnDisk(cfg, sectors, s);
    StartByBytes(cfg, sectors);
    LayoutByBytes(cfg, s, sectors[s]);
  }

  lemma LayoutByBytes(cfg: Config, s: u32, boot: Sector)
    requires boot[13] != 0 && Overhead(boot) <= TotalSize(boot) && s + TotalSize(boot) < 0xFFFF_FFFE
    ensures Layout(cfg, s, BpbOf(boot)) == VolumeOf(cfg, s, boot)
  {
    hide BpbOf, LastCluster, TypeOf, WidthOf, U32, FatSize, TotalSize, Word, Dword;
    FieldsByBytes(boot);
    NumbersFit(s, boot);
    var n := (TotalSize(boot) - Overhead(boot)) / boot[13];
    ClustersByBytes(s, boot);
    WidthIsType(cfg, n);
    NoWrap(FatSize(boot) * boot[16]);
    NoWrap(s + Word(boot, 14));
    NoWrap(s + Word(boot, 14) + FatSize(boot) * boot[16]);
    NoWrap(s + Overhead(boot));
  }

  lemma ClustersByBytes(s: u32, boot: Sector)
    requires boot[13] != 0 && Overhead(boot) <= TotalSize(boot) && s + TotalSize(boot) < 0xFFFF_FFFE
    ensures LastCluster(BpbOf(boot)) == (TotalSize(boot) - Overhead(boot)) / boot[13] + 2
  {
    hide BpbOf, U32, FatSize, TotalSize, Word, Dword;
    FieldsByBytes(boot);
    NumbersFit(s, boot);
    NoWrap(FatSize(boot) * boot[16]);
    NoWrap(TotalSize(boot) - Overhead(boot));
    NoWrap((TotalSize(boot) - Overhead(boot)) / boot[13] + 2);
  }

  lemma WidthIsType(cfg: Config, n: nat)
    requires n + 2 < 0x1_0000_0000
    ensures TypeOf(cfg, n + 2) == WidthOf(cfg, n)
  {
  }

  /** Without a boot sector in one of the two places nothing is mounted. */
  lemma NothingToMount(cfg: Config, sectors: seq<Sector>)
    requires forall s: u32 :: !StartsAt(cfg, sectors, s)
    ensures !MountOf(cfg, sectors).Mounted?
  {
    hide KindOf, VolumeStart, StartsAt, BpbOf, Layout;
    StartByBytes(cfg, sectors);
    assert !StartsAt(cfg, sectors, VolumeStart(cfg, sectors));
  }

  /** A cluster size of zero divides as all ones do: only FAT12 would mount it, as a volume without clusters. */
  lemma NoClusterSize(cfg: Config, sectors: seq<Sector>, s: u32)
    requires StartsAt(cfg, sectors, s) && sectors[s][13] == 0
    ensures cfg.fat12 ==> MountOf(cfg, sectors).Mounted? && MountOf(cfg, sectors).vol.nFatent == 1
    ensures !cfg.fat12 ==> MountOf(cfg, sectors) == NoFat
  {
    hide KindOf, VolumeStart, StartsAt, BpbOf, LdWord, LdDword;
    OnDisk(cfg, sectors, s);
    StartByBytes(cfg, sectors);
    FieldsByBytes(sectors[s]);
    AllOnes(BpbOf(sectors[s]));
  }

  lemma AllOnes(p: Bpb)
    requires p.csize == 0
    ensures LastCluster(p) == 1
  {
  }

  /**
    An ordinary card: the partition table points to sector 8192; 8 sectors to a cluster, 32 reserved sectors,
    two FATs of 15360 sectors, 15597568 sectors in all.
  */
  lemma OrdinaryCard(sectors: seq<Sector>)
    requires 8192 < |sectors| && Signed(sectors[0]) && !(sectors[0][82] == 0x46 && sectors[0][83] == 0x41)
    requires sectors[0][450] == 0x0C && sectors[0][454..458] == [0, 0x20, 0, 0]
    requires var boot := sectors[8192];
             && Signed(boot) && boot[82..84] == [0x46, 0x41] && boot[13..17] == [8, 32, 0, 2]
             && boot[17..19] == [0, 0] && boot[19..21] == [0, 0] && boot[22..24] == [0, 0]
             && boot[32..36] == [0, 0, 0xEE, 0] && boot[36..40] == [0, 0x3C, 0, 0] && boot[44..48] == [2, 0, 0, 0]
    ensures MountOf(Config(false, false, true), sectors)
         == Mounted(Volume(Fat32, 8, 0, 1945854, 8224, 2, 38944))
  {
    hide MountOf, Signed;
    var boot := sectors[8192];
    assert boot[13] == boot[13..17][0] && boot[14] == boot[13..17][1];
    assert boot[15] == boot[13..17][2] && boot[16] == boot[13..17][3];
    WordIs(boot, 17, 0, 0);
    WordIs(boot, 19, 0, 0);
    WordIs(boot, 22, 0, 0);
    WordIs(boot, 82, 0x46, 0x41);
    DwordIs(boot, 32, 0, 0, 0xEE, 0);
    DwordIs(boot, 36, 0, 0x3C, 0, 0);
    DwordIs(boot, 44, 2, 0, 0, 0);
    DwordIs(sectors[0], 454, 0, 0x20, 0, 0);
    MountByBytes(Config(false, false, true), sectors, 8192);
  }

  lemma WordIs(b: Sector, i: nat, x: byte, y: byte)
    requires i + 2 <= 512 && b[i..i + 2] == [x, y]
    ensures b[i] == x && b[i + 1] == y
  {
    assert b[i] == b[i..i + 2][0] && b[i + 1] == b[i..i + 2][1];
  }

  lemma DwordIs(b: Sector, i: nat, x: byte, y: byte, z: byte, w: byte)
    requires i + 4 <= 512 && b[i..i + 4] == [x, y, z, w]
    ensures b[i] == x && b[i + 1] == y && b[i + 2] == z && b[i + 3] == w
  {
    assert b[i] == b[i..i + 4][0] && b[i + 1] == b[i..i + 4][1];
    assert b[i + 2] == b[i..i + 4][2] && b[i + 3] == b[i..i + 4][3];
  }
}
