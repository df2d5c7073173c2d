/**
  A card on which a write after a seek goes to the wrong sector: a FAT32 volume with one file of three clusters.
*/
module ResumeCase {
  import opened Bytes
  import opened DiskIo
  import opened Fat
  import opened FileImage
  import opened FileWrite
  import opened Names
  import opened Directory
  import opened Mount
  import opened PetitFat

  // ---------- the card ----------

  /** As many sectors as the smallest FAT32 volume with clusters of one sector has. */
  const SECTORS := 66038
  const ROOT := 513

  /** One reserved sector, one FAT of 512 sectors, the root directory in cluster 2. */
  function BootByte(i: nat): byte {
    if i == 13 || i == 14 || i == 16 then 1
    else if i == 32 then 0xF6
    else if i == 33 || i == 34 then 1
    else if i == 37 || i == 44 then 2
    else if i == 82 then 0x46
    else if i == 83 then 0x41
    else if i == 510 then 0x55
    else if i == 511 then 0xAA
    else 0
  }

  function BootSector(): Sector {
    seq(512, i requires 0 <= i < 512 => BootByte(i))
  }

  function Table(): seq<u32> {
    [0, 0, 0xFFF_FFFF, 4, 5, 0xFFF_FFFF]
  }

  function FatSector(): Sector {
    Pack32(Table()) + Zeros(488)
  }

  const BODY: seq<byte> := [0x62, 0x6F, 0x6F, 0x74]
  const EXT: seq<byte> := [0x62, 0x69, 0x6E]

  /** "boot.bin" */
  function Path(): seq<byte> {
    Text(BODY, EXT)
  }

  function FileName(): Sfn {
    [0x42, 0x4F, 0x4F, 0x54, 0x20, 0x20, 0x20, 0x20, 0x42, 0x49, 0x4E]
  }

  /** The file starts in cluster 3 and has 1536 bytes. */
  function FileEntry(): Entry {
    FileName() + [0x20] + Zeros(14) + [3, 0] + [0, 6, 0, 0]
  }

  function RootSector(): Sector {
    FileEntry() + Zeros(480)
  }

  function CardSector(i: nat): Sector {
    if i == 0 then BootSector() else if i == 1 then FatSector() else if i == ROOT then RootSector() else Zeros(512)
  }

  function Card(): seq<Sector> {
    seq(SECTORS, i requires 0 <= i < SECTORS => CardSector(i))
  }

  lemma CardSectors()
    ensures |Card()| == SECTORS && Card()[0] == BootSector() && Card()[1] == FatSector()
    ensures Card()[ROOT] == RootSector()
  {
  }

  // ---------- mounting ----------

  function CardVolume(): Volume {
    Volume(Fat32, 1, 0, 65527, 1, 2, 513)
  }

  lemma BootFields()
    ensures BpbOf(BootSector()) == Bpb(1, 1, 512, 0, SECTORS, 2)
    ensures LdWord(BootSector()[510..512]) == SIGNATURE && LdWord(BootSector()[82..84]) == FA
  {
    hide BootSector, LdWord, LdDword;
    BootWord(14);
    BootWord(17);
    BootWord(19);
    BootWord(22);
    BootWord(82);
    BootWord(510);
    BootWord(13);
    BootWord(16);
    BootDword(32);
    BootDword(36);
    BootDword(44);
  }

  lemma BootWord(i: nat)
    requires i + 2 <= 512
    ensures BootSector()[i] == BootByte(i)
    ensures LdWord(BootSector()[i..i + 2]) == BootByte(i + 1) as int * 0x100 + BootByte(i)
  {
    hide BootByte;
  }

  lemma BootDword(i: nat)
    requires i + 4 <= 512
    ensures LdDword(BootSector()[i..i + 4])
         == ((BootByte(i + 3) as int * 0x100 + BootByte(i + 2)) * 0x100 + BootByte(i + 1)) * 0x100 + BootByte(i)
  {
    hide BootByte;
  }

  lemma CardLayout(cfg: Config)
    requires cfg.fat32
    ensures Layout(cfg, 0, Bpb(1, 1, 512, 0, SECTORS, 2)) == Some(CardVolume())
    ensures DataOnDisk(CardVolume(), SECTORS)
  {
  }

  /** With FAT32 compiled in, this is the volume that mounting finds. */
  lemma CardMounts(cfg: Config)
    requires cfg.fat32
    ensures MountOf(cfg, Card()) == Mounted(CardVolume())
  {
    hide Card, BootSector, Layout, BpbOf, LdWord;
    CardSectors();
    BootFields();
    CardLayout(cfg);
  }

  // ---------- the file ----------

  lemma CardLinks()
    ensures FatEntry(CardVolume(), Card(), 3) == 4 && FatEntry(CardVolume(), Card(), 4) == 5
  {
    hide FatEntry, Card, Pack32;
    CardSectors();
    var v, sectors, t := CardVolume(), Card(), Table();
    var bytes := Pack32(t);
    forall k | 0 <= k < |bytes|
      ensures v.fatbase + k / 512 < |sectors| && sectors[v.fatbase + k / 512][k % 512] == bytes[k]
    {
      assert FatSector()[k] == bytes[k];
    }
    assert OnFat(v, sectors, bytes);
    FatEntryDecodes(v, sectors, t, 3);
    FatEntryDecodes(v, sectors, t, 4);
  }

  lemma CardClusters(c: u32)
    requires 2 <= c < 65527
    ensures Clust2Sect(CardVolume(), c) == c + 511
  {
  }

  lemma CardChain()
    ensures ChainOf(CardVolume(), Card(), 3, 1536) == [3, 4, 5]
  {
    hide FatEntry, Card;
    var v, sectors := CardVolume(), Card();
    CardLinks();
    assert Links(v, sectors, 5, 1) == [5];
    assert Links(v, sectors, 4, 2) == [4, 5];
  }

  /** One more cluster of one sector. */
  lemma OneMore(v: Volume, chain: seq<u32>, c: u32, lba: nat)
    requires v.csize == 1 && Clust2Sect(v, c) == lba
    ensures TrackOf(v, chain + [c]) == Track(Lbas(v, chain) + [lba], Owners(v, chain) + [c])
  {
    assert (chain + [c])[..|chain|] == chain;
    assert ClusterLbas(v, c) == [lba] && seq(v.csize, _ => c) == [c];
  }

  lemma CardTrack()
    ensures TrackOf(CardVolume(), [3, 4, 5]) == Track([514, 515, 516], [3, 4, 5])
  {
    hide Clust2Sect, Lbas, Owners;
    var v := CardVolume();
    CardClusters(3);
    CardClusters(4);
    CardClusters(5);
    Lengths(v, []);
    OneMore(v, [], 3, 514);
    OneMore(v, [3], 4, 515);
    OneMore(v, [3, 4], 5, 516);
    assert [] + [3 as u32] == [3] && [3] + [4 as u32] == [3, 4] && [3, 4] + [5 as u32] == [3, 4, 5];
  }

  lemma EntryFields()
    ensures var e := FileEntry();
            && e[0] != 0 && !IsVolumeLabel(e) && !IsDirectory(e) && e[..11] == FileName()
            && EntryCluster(CardVolume(), e) == 3 && LdDword(e[28..32]) == 1536
  {
  }

  lemma PathName(cvt: CodePage)
    ensures PathStart(Path()) == 0 && !IsRootPath(Path())
    ensures PathNames(cvt, Path(), 0) == [FileName()]
  {
    assert At(Path(), 0) == 0x62;
    NameInPath(cvt, Path(), 0, BODY, EXT);
    assert Packed(UpperAll(cvt, BODY), UpperAll(cvt, EXT)) == FileName();
  }

  lemma FileThere(cvt: CodePage)
    ensures Resolve(CardVolume(), Card(), 0, PathNames(cvt, Path(), PathStart(Path()))) == Found(FileEntry())
  {
    hide Card, FileEntry, FileName, Path, IsVolumeLabel;
    PathName(cvt);
    CardSectors();
    CardClusters(2);
    EntryFields();
    assert RootSector()[0..32] == FileEntry();
  }

  // ---------- the run ----------

  /** The file is open, with its three sectors, and the cursor at its start. */
  ghost predicate FileOpen(fs: FatFs)
    reads fs, fs.disk
  {
    && fs.mounted && fs.Valid() && !fs.wip && fs.isOpen && fs.disk.healthy && fs.disk.sectors == Card()
    && fs.vol == CardVolume() && fs.orgClust == 3 && fs.fsize == 1536
    && fs.track == Track([514, 515, 516], [3, 4, 5])
  }

  method OpenFile(cfg: Config, cvt: CodePage) returns (fs: FatFs)
    requires cfg.fat32
    ensures fresh(fs) && fresh(fs.disk) && FileOpen(fs) && fs.fptr == 0
  {
    hide Card, FileEntry, MountOf, Resolve, PathNames, IsRootPath, IsDirectory, ChainOf, TrackOf, FatFs.Valid;
    hide DataOnDisk, EntryCluster, LdDword, MayMount;
    var disk := new Disk(Card(), true);
    fs := new FatFs(disk, CardVolume());
    CardMounts(cfg);
    CardLayout(cfg);
    CardSectors();
    var res := fs.PfMount(cfg, true);
    PathName(cvt);
    FileThere(cvt);
    EntryFields();
    CardChain();
    CardTrack();
    res := fs.PfOpen(cvt, Path());
  }

  method SeekInFile(cfg: Config, cvt: CodePage) returns (fs: FatFs)
    requires cfg.fat32
    ensures fresh(fs) && fresh(fs.disk) && FileOpen(fs) && fs.fptr == 513
  {
    hide Card, Content, FatFs.Valid;
    CardSectors();
    fs := OpenFile(cfg, cvt);
    InFile(fs);
    var res := fs.PfLseek(513);
  }

  lemma InFile(fs: FatFs)
    requires FileOpen(fs)
    ensures fs.Reachable() && |fs.FileBytes()| == 1536
  {
    fs.CursorReachable();
  }

  /** Writes a byte to a sector, and finishes it. */
  method WriteByte(disk: Disk, sector: u32, x: byte)
    requires !disk.writing && disk.healthy && 0 < sector < |disk.sectors|
    modifies disk
    ensures disk.sectors == old(disk.sectors)[sector := [x] + Zeros(511)]
  {
    var ok := disk.WriteStart(sector);
    var buff := new byte[1](_ => x);
    disk.WriteData(buff, 0, 1);
    assert disk.received == [x];
    ok := disk.WriteFinish();
  }

  /**
    Opens the file on a freshly mounted card, seeks to byte 513 and writes one byte, in the steps of `pf_write`:
    round down, locate the sector, write, finish. The seek stands in the second sector of the file, but the
    write goes to the third.
  */
  method WriteInSecondSector(cfg: Config, cvt: CodePage, x: byte) returns (seek: u32, sectors: seq<Sector>)
    requires cfg.fat32
    ensures seek == 515 && sectors == Card()[516 := [x] + Zeros(511)]
  {
    hide Card, LocatorOf;
    var fs := SeekInFile(cfg, cvt);
    seek := fs.dsect;
    CardSectors();
    SeekStands(fs);
    fs.fptr := fs.fptr - fs.fptr % 512;
    var ok := fs.Locate();
    WriteByte(fs.disk, fs.dsect, x);
    sectors := fs.disk.sectors;
  }

  lemma SeekStands(fs: FatFs)
    requires FileOpen(fs) && fs.fptr == 513
    ensures fs.currClust == 4 && fs.dsect == 515
    ensures LocatorOf(fs.vol, fs.disk.sectors, fs.orgClust)(4, 1) == Some((5, 516))
  {
    hide Follows;
    CardLinks();
    CardClusters(5);
    assert 512 / 512 == 1 && 513 / 512 == 1;
  }
}
