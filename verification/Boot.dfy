/**
  Loading an executable image from the SD card: the boot loader as a client of the file system.
*/
module Boot {
  import opened Bytes
  import opened DiskIo
  import opened Fat
  import opened FileImage
  import opened Names
  import opened Directory
  import opened Mount
  import opened PetitFat

  const BIN_SIGNATURE: u32 := 0x214F454E

  // ---------- images ----------

  function Words32(ws: seq<u32>): (b: seq<byte>)
    ensures |b| == 4 * |ws|
  {
    if ws == [] then [] else Words32(ws[..|ws| - 1]) + Word32(ws[|ws| - 1])
  }

  /** The sum of words in 32-bit arithmetic. */
  function Sum(ws: seq<u32>): u32 {
    if ws == [] then 0 else U32(Sum(ws[..|ws| - 1]) + ws[|ws| - 1])
  }

  function HeaderWords(base: u32, ws: seq<u32>): (h: seq<u32>)
    requires 4 * |ws| < TWO32
    ensures |h| == 4
  {
    [BIN_SIGNATURE, base, 4 * |ws|, TWO32 - 1 - Sum(ws)]
  }

  /** The executable file that the image generator makes of a program: header, then the program's words. */
  function ImageOf(base: u32, ws: seq<u32>): seq<byte>
    requires 4 * |ws| < TWO32
  {
    Words32(HeaderWords(base, ws)) + Words32(ws)
  }

  /** Word `n` of a file. */
  function WordAt(b: seq<byte>, n: nat): u32
    requires 4 * n + 4 <= |b|
  {
    LdDword(b[4 * n..4 * n + 4])
  }

  /** The first `n` words of the program in a file. */
  function Program(b: seq<byte>, n: nat): (ws: seq<u32>)
    requires 16 + 4 * n <= |b|
    ensures |ws| == n
  {
    if n == 0 then [] else Program(b, n - 1) + [WordAt(b, 4 + n - 1)]
  }

  function ProgramSize(b: seq<byte>): nat
    requires |b| >= 16
  {
    (WordAt(b, 2) + 3) / 4
  }

  datatype LoadResult = Loaded | ErrorDevice | ErrorSignature | ErrorChecksum

  /** The file is an executable: right signature, all announced words present, words and checksum cancel. */
  predicate Loadable(b: seq<byte>) {
    && |b| >= 16
    && WordAt(b, 0) == BIN_SIGNATURE
    && 16 + 4 * ProgramSize(b) <= |b|
    && U32(WordAt(b, 3) + Sum(Program(b, ProgramSize(b))) + 1) == 0
  }

  /** What loading a file reports. Where not even the signature is there, it is the signature that is wrong. */
  function Outcome(b: seq<byte>): LoadResult {
    if |b| < 4 || WordAt(b, 0) != BIN_SIGNATURE then ErrorSignature
    else if |b| < 16 || |b| < 16 + 4 * ProgramSize(b) then ErrorDevice
    else if Loadable(b) then Loaded
    else ErrorChecksum
  }

  /** Memory after storing words from an address on. */
  function Stored(mem: map<u32, u32>, base: u32, ws: seq<u32>): map<u32, u32> {
    if ws == [] then mem else Stored(mem, base, ws[..|ws| - 1])[U32(base + 4 * (|ws| - 1)) := ws[|ws| - 1]]
  }

  lemma AddressesDiffer(base: u32, i: nat, j: nat)
    requires i < j < TWO32
    ensures U32(base + i) != U32(base + j)
  {
    var d := (base + j) / TWO32 - (base + i) / TWO32;
    assert U32(base + j) - U32(base + i) == j - i - d * TWO32;
  }

  /** Every stored word is found at its address. */
  lemma {:induction false} StoredAt(mem: map<u32, u32>, base: u32, ws: seq<u32>, i: nat)
    requires i < |ws| && 4 * |ws| < TWO32
    ensures U32(base + 4 * i) in Stored(mem, base, ws) && Stored(mem, base, ws)[U32(base + 4 * i)] == ws[i]
  {
    var n := |ws| - 1;
    if i < n {
      StoredAt(mem, base, ws[..n], i);
      AddressesDiffer(base, 4 * i, 4 * n);
    }
  }

  lemma {:induction false} Words32At(ws: seq<u32>, i: nat)
    requires i < |ws|
    ensures Words32(ws)[4 * i..4 * i + 4] == Word32(ws[i])
  {
    var n := |ws| - 1;
    var front := Words32(ws[..n]);
    if i < n {
      Words32At(ws[..n], i);
      assert Words32(ws)[4 * i..4 * i + 4] == front[4 * i..4 * i + 4];
    } else {
      assert Words32(ws)[4 * n..4 * n + 4] == Word32(ws[n]);
    }
  }

  lemma {:induction false} ProgramOfImage(base: u32, ws: seq<u32>, n: nat)
    requires 4 * |ws| < TWO32 && n <= |ws|
    ensures Program(ImageOf(base, ws), n) == ws[..n]
  {
    if n > 0 {
      var b := ImageOf(base, ws);
      ProgramOfImage(base, ws, n - 1);
      Words32At(ws, n - 1);
      assert b[4 * (4 + n - 1)..4 * (4 + n - 1) + 4] == Words32(ws)[4 * (n - 1)..4 * (n - 1) + 4];
      LdWord32(ws[n - 1]);
    }
  }

  lemma HeaderOfImage(base: u32, ws: seq<u32>, i: nat)
    requires 4 * |ws| < TWO32 && i < 4
    ensures WordAt(ImageOf(base, ws), i) == HeaderWords(base, ws)[i]
  {
    hide HeaderWords, Words32, LdDword, Word32;
    var h, b := HeaderWords(base, ws), ImageOf(base, ws);
    Words32At(h, i);
    assert b[4 * i..4 * i + 4] == Words32(h)[4 * i..4 * i + 4];
    LdWord32(h[i]);
  }

  /** What the image generator makes, the boot loader accepts, and finds the program in. */
  lemma ImageLoadable(base: u32, ws: seq<u32>)
    requires 4 * |ws| < TWO32
    ensures var b := ImageOf(base, ws);
            Outcome(b) == Loaded && Loadable(b) && WordAt(b, 1) == base && Program(b, ProgramSize(b)) == ws
  {
    hide ImageOf, WordAt, Program, Sum;
    var b := ImageOf(base, ws);
    HeaderOfImage(base, ws, 0);
    HeaderOfImage(base, ws, 1);
    HeaderOfImage(base, ws, 2);
    HeaderOfImage(base, ws, 3);
    ImageLength(base, ws);
    ProgramOfImage(base, ws, |ws|);
    assert ws[..|ws|] == ws;
  }

  lemma ImageLength(base: u32, ws: seq<u32>)
    requires 4 * |ws| < TWO32
    ensures |ImageOf(base, ws)| == 16 + 4 * |ws|
  {
  }

  // ---------- loading ----------

  /** The bytes that can be read from the open file. */
  ghost function Data(fs: FatFs): seq<byte>
    requires fs.Reachable()
    reads fs, fs.disk
  {
    fs.FileBytes()[..Min(fs.fsize, |fs.FileBytes()|)]
  }

  /** The file system while a file is read as a stream. */
  ghost predicate Streaming(fs: FatFs)
    reads fs, fs.disk
  {
    fs.mounted && fs.Valid() && !fs.wip && fs.Reachable()
  }

  /** Reads the next word of the file; fails if the file has no further word. */
  method StreamGet(fs: FatFs) returns (rc: bool, rdata: u32)
    requires Streaming(fs)
    modifies fs.disk`block, fs.disk`pos
    modifies fs`isOpen, fs`wip, fs`fptr, fs`currClust, fs`dsect
    ensures Streaming(fs) && Data(fs) == old(Data(fs))
    ensures !rc ==>
              && old(fs.isOpen) && fs.isOpen && fs.fptr == old(fs.fptr) + 4 <= |Data(fs)|
              && rdata == LdDword(Data(fs)[old(fs.fptr)..fs.fptr])
    ensures rc && old(fs.isOpen) && fs.disk.healthy ==> |Data(fs)| < old(fs.fptr) + 4 && rdata < 0x100_0000
  {
    hide LdDword;
    var tmp := new byte[4](_ => 0);
    ghost var before := Data(fs);
    var res, len := fs.PfRead(tmp, 4);
    rdata := LdDword(tmp[..4]);
    TopByte(tmp[..4]);
    rc := res != Ok || len != 4;
    if !rc {
      Prefix(fs.FileBytes(), |Data(fs)|, old(fs.fptr), fs.fptr);
    }
  }

  lemma TopByte(b: seq<byte>)
    requires |b| == 4
    ensures b[3] == 0 ==> LdDword(b) < 0x100_0000
  {
  }

  lemma Prefix(s: seq<byte>, m: nat, a: nat, b: nat)
    requires a <= b <= m <= |s|
    ensures s[..m][a..b] == s[a..b]
  {
  }

  /** Where a stream stands that has read `n` words, unless it has failed (`rc`). */
  ghost predicate AtWord(fs: FatFs, rc: bool, b: seq<byte>, n: nat)
    reads fs, fs.disk
  {
    && Streaming(fs) && Data(fs) == b
    && (!rc ==> fs.isOpen && fs.fptr == 4 * n <= |b|)
    && (rc && fs.disk.healthy ==> |b| < 4 * n)
  }

  /** Reads the next word into the failure flag `rc`. */
  method NextWord(fs: FatFs, rc: bool, ghost b: seq<byte>, ghost n: nat) returns (rc': bool, w: u32)
    requires AtWord(fs, rc, b, n)
    modifies fs.disk`block, fs.disk`pos
    modifies fs`isOpen, fs`wip, fs`fptr, fs`currClust, fs`dsect
    ensures AtWord(fs, rc', b, n + 1)
    ensures !rc' ==> !rc && 4 * n + 4 <= |b| && w == WordAt(b, n)
    ensures rc' && !rc && fs.disk.healthy ==> w < 0x100_0000
  {
    var bad;
    bad, w := StreamGet(fs);
    rc' := rc || bad;
  }

  /** The first `n` words of the program are in the running sum and in memory. */
  ghost predicate Transferred(b: seq<byte>, base: u32, sum: u32, mem: map<u32, u32>, n: nat,
                              checksum: u32, mem': map<u32, u32>) {
    && 16 + 4 * n <= |b|
    && checksum == U32(sum as int + Sum(Program(b, n)))
    && mem' == Stored(mem, base, Program(b, n))
  }

  lemma TransferNothing(b: seq<byte>, base: u32, sum: u32, mem: map<u32, u32>)
    requires 16 <= |b|
    ensures Transferred(b, base, sum, mem, 0, sum, mem)
  {
  }

  lemma TransferNext(b: seq<byte>, base: u32, sum: u32, mem: map<u32, u32>, n: nat,
                     checksum: u32, mem': map<u32, u32>, w: u32)
    requires Transferred(b, base, sum, mem, n, checksum, mem')
    requires 16 + 4 * n + 4 <= |b| && w == WordAt(b, 4 + n)
    ensures Transferred(b, base, sum, mem, n + 1, U32(checksum as int + w), mem'[U32(base + 4 * n) := w])
  {
    hide U32, WordAt;
    var ws, front := Program(b, n + 1), Program(b, n);
    assert ws == front + [w] && ws[..n] == front;
    ModAdd(Sum(front) as int + w, sum as int);
    ModAdd(sum as int + Sum(front), w as int);
  }

  /** The transfer loop: copies the program word by word, summing it up, until a read fails. */
  method LoadProgram(fs: FatFs, rc0: bool, base: u32, size: u32, sum0: u32, mem: map<u32, u32>, ghost b: seq<byte>)
      returns (rc: bool, checksum: u32, mem': map<u32, u32>)
    requires AtWord(fs, rc0, b, 4) && |b| < TWO32
    modifies fs.disk`block, fs.disk`pos
    modifies fs`isOpen, fs`wip, fs`fptr, fs`currClust, fs`dsect
    ensures Streaming(fs)
    ensures !rc ==> !rc0 && Transferred(b, base, sum0, mem, (size as int + 3) / 4, checksum, mem')
    ensures rc && fs.disk.healthy ==> |b| < 16 || |b| < 16 + 4 * ((size as int + 3) / 4)
  {
    hide Data, WordAt, Sum, Stored, Program, AtWord, Transferred;
    WordFacts(fs, rc0, b, 4);
    rc, checksum, mem' := rc0, sum0, mem;
    ghost var n := 0;
    if !rc {
      TransferNothing(b, base, sum0, mem);
    }
    var i: u32 := 0;
    while i < size
      invariant i == 4 * n && AtWord(fs, rc, b, 4 + n)
      invariant n <= (size as int + 3) / 4
      invariant !rc ==> !rc0 && 16 + 4 * n <= |b| && Transferred(b, base, sum0, mem, n, checksum, mem')
      invariant rc ==> n == 0 || 16 + 4 * (n - 1) <= |b|
      decreases |b| + 8 - i
    {
      if rc {
        break;
      }
      var tmp;
      rc, tmp := NextWord(fs, rc, b, 4 + n);
      if !rc {
        TransferNext(b, base, sum0, mem, n, checksum, mem', tmp);
      }
      checksum := U32(checksum as int + tmp);
      mem' := mem'[U32(base + i) := tmp];
      i := U32(i + 4);
      n := n + 1;
    }
    WordFacts(fs, rc, b, 4 + n);
  }

  /** What a stream position means. */
  lemma WordFacts(fs: FatFs, rc: bool, b: seq<byte>, n: nat)
    requires AtWord(fs, rc, b, n)
    ensures Streaming(fs)
    ensures !rc ==> 4 * n <= |b|
    ensures rc && fs.disk.healthy ==> |b| < 4 * n
  {
  }

  /** Reads the four words of the header. */
  method ReadHeader(fs: FatFs, ghost b: seq<byte>)
      returns (rc: bool, signature: u32, base: u32, size: u32, checksum: u32)
    requires AtWord(fs, false, b, 0)
    modifies fs.disk`block, fs.disk`pos
    modifies fs`isOpen, fs`wip, fs`fptr, fs`currClust, fs`dsect
    ensures AtWord(fs, rc, b, 4)
    ensures !rc ==> 16 <= |b| && signature == WordAt(b, 0) && base == WordAt(b, 1)
                    && size == WordAt(b, 2) && checksum == WordAt(b, 3)
    ensures rc && fs.disk.healthy ==> |b| < 16
    ensures fs.disk.healthy ==> (signature == BIN_SIGNATURE <==> |b| >= 4 && WordAt(b, 0) == BIN_SIGNATURE)
  {
    hide Data, WordAt, AtWord;
    rc, signature := NextWord(fs, false, b, 0);
    WordFacts(fs, rc, b, 1);
    rc, base := NextWord(fs, rc, b, 1);
    rc, size := NextWord(fs, rc, b, 2);
    rc, checksum := NextWord(fs, rc, b, 3);
    WordFacts(fs, rc, b, 4);
  }

  /** Loads the executable in the file just opened into memory. */
  method LoadStream(fs: FatFs, mem: map<u32, u32>) returns (res: LoadResult, mem': map<u32, u32>)
    requires Streaming(fs) && fs.isOpen && fs.fptr == 0
    modifies fs.disk`block, fs.disk`pos
    modifies fs`isOpen, fs`wip, fs`fptr, fs`currClust, fs`dsect
    ensures Streaming(fs)
    ensures res == Outcome(old(Data(fs))) || (!fs.disk.healthy && (res == ErrorDevice || res == ErrorSignature))
    ensures res == Loaded ==>
              var b := old(Data(fs));
              Loadable(b) && mem' == Stored(mem, WordAt(b, 1), Program(b, ProgramSize(b)))
  {
    hide Streaming, Data, Loadable, WordAt, Sum, Stored, Program, AtWord, Transferred, U32, Outcome;
    mem' := mem;
    StreamStart(fs);
    ghost var b := Data(fs);
    OutcomeMeans(b);
    var rc, signature, base, size, checksum := ReadHeader(fs, b);
    WordFacts(fs, rc, b, 4);
    if signature != BIN_SIGNATURE {
      return ErrorSignature, mem';
    }
    ghost var sum0 := checksum;
    rc, checksum, mem' := LoadProgram(fs, rc, base, size, checksum, mem, b);
    if rc {
      return ErrorDevice, mem';
    }
    TransferMeans(b, base, sum0, mem, (size as int + 3) / 4, checksum, mem');
    if U32(checksum as int + 1) != 0 {
      return ErrorChecksum, mem';
    }
    res := Loaded;
  }

  lemma StreamStart(fs: FatFs)
    requires Streaming(fs) && fs.isOpen && fs.fptr == 0
    ensures fs.Reachable() && AtWord(fs, false, Data(fs), 0) && |Data(fs)| < TWO32
  {
  }

  lemma TransferMeans(b: seq<byte>, base: u32, sum: u32, mem: map<u32, u32>, n: nat,
                      checksum: u32, mem': map<u32, u32>)
    requires Transferred(b, base, sum, mem, n, checksum, mem')
    ensures 16 + 4 * n <= |b| && mem' == Stored(mem, base, Program(b, n))
    ensures U32(checksum as int + 1) == U32(sum as int + Sum(Program(b, n)) + 1)
  {
    hide U32, Sum, Program, Stored;
    ModAdd(sum as int + Sum(Program(b, n)), 1);
  }

  lemma OutcomeMeans(b: seq<byte>)
    ensures |b| < 4 || WordAt(b, 0) != BIN_SIGNATURE ==> Outcome(b) == ErrorSignature
    ensures |b| >= 4 && WordAt(b, 0) == BIN_SIGNATURE && (|b| < 16 || |b| < 16 + 4 * ProgramSize(b)) ==>
              Outcome(b) == ErrorDevice
    ensures |b| >= 16 && WordAt(b, 0) == BIN_SIGNATURE && 16 + 4 * ProgramSize(b) <= |b| ==>
              var sum := WordAt(b, 3) + Sum(Program(b, ProgramSize(b)));
              Outcome(b) == if U32(sum + 1) == 0 then Loaded else ErrorChecksum
    ensures Outcome(b) == Loaded <==> Loadable(b)
  {
    hide WordAt, Sum, Program, U32;
  }

  // ---------- from the card to memory ----------

  /** Every volume that mounting may find is a proper one. */
  ghost predicate ProperCard(cfg: Config, healthy: bool, sectors: seq<Sector>) {
    forall bsect: u32, v | MayMount(cfg, healthy, sectors, bsect, v) ::
      Formatted(bsect, BpbOf(sectors[bsect]), |sectors|)
  }

  /** The file in a volume that mounting may find; on a healthy card there is only one such volume. */
  ghost predicate FileOnCard(cfg: Config, healthy: bool, sectors: seq<Sector>, cvt: CodePage, path: seq<byte>,
                             b: seq<byte>) {
    exists bsect: u32, v ::
      MayMount(cfg, healthy, sectors, bsect, v) && NamedFile(v, sectors, cvt, path) == Some(b)
  }

  /** On a healthy card it is the file in the volume at `VolumeStart`, so there is at most one. */
  lemma FileOnHealthyCard(cfg: Config, sectors: seq<Sector>, cvt: CodePage, path: seq<byte>, b: seq<byte>)
    ensures FileOnCard(cfg, true, sectors, cvt, path, b) <==>
              match MountOf(cfg, sectors)
              case Mounted(v) => NamedFile(v, sectors, cvt, path) == Some(b)
              case _ => false
  {
    hide NamedFile, KindOf, VolumeStart, Layout, BpbOf;
    var m := MountOf(cfg, sectors);
    if m.Mounted? {
      assert MayMount(cfg, true, sectors, VolumeStart(cfg, sectors), m.vol) by { StartsThere(cfg, sectors); }
    }
  }

  lemma StartsThere(cfg: Config, sectors: seq<Sector>)
    ensures var bsect := VolumeStart(cfg, sectors);
            bsect == 0 || (|sectors| > 0 && bsect == LdDword(sectors[0][454..458]))
  {
  }

  lemma OpenedFile(fs: FatFs, cvt: CodePage, path: seq<byte>)
    requires !IsRootPath(path)
    requires var l := Resolve(fs.vol, fs.disk.sectors, 0, PathNames(cvt, path, PathStart(path)));
             l.Found? && l.entry[0] != 0 && !IsDirectory(l.entry) && fs.OpenedAs(l.entry)
    ensures NamedFile(fs.vol, fs.disk.sectors, cvt, path).Some?
    ensures fs.vol.csize > 0 && fs.Reachable() ==> NamedFile(fs.vol, fs.disk.sectors, cvt, path) == Some(Data(fs))
  {
    hide Resolve, PathNames, IsRootPath, IsDirectory, ChainOf, LdDword;
  }

  lemma VolumeProper(cfg: Config, healthy: bool, sectors: seq<Sector>, bsect: u32, v: Volume)
    requires ProperCard(cfg, healthy, sectors) && MayMount(cfg, healthy, sectors, bsect, v)
    ensures DataOnDisk(v, |sectors|)
  {
    hide Layout, BpbOf, Formatted, VolumeStart;
    TablesOfVolume(cfg, bsect, BpbOf(sectors[bsect]), |sectors|);
  }

  lemma NoFileOnCard(cfg: Config, sectors: seq<Sector>, cvt: CodePage, path: seq<byte>)
    requires match MountOf(cfg, sectors)
             case Mounted(v) => NamedFile(v, sectors, cvt, path) == None
             case _ => true
    ensures forall b :: !FileOnCard(cfg, true, sectors, cvt, path, b)
  {
    hide MountOf, NamedFile, FileOnCard;
    forall b
      ensures !FileOnCard(cfg, true, sectors, cvt, path, b)
    {
      FileOnHealthyCard(cfg, sectors, cvt, path, b);
    }
  }

  lemma NotNamed(v: Volume, sectors: seq<Sector>, cvt: CodePage, path: seq<byte>)
    requires IsRootPath(path) || match Resolve(v, sectors, 0, PathNames(cvt, path, PathStart(path)))
                                 case Found(e) => e[0] == 0 || IsDirectory(e)
                                 case _ => true
    ensures NamedFile(v, sectors, cvt, path) == None
  {
  }

  /**
    Mounts the card and opens the file, whatever volume is on the card. If its data area lies on the disk, the
    file can then be read as a stream.
  */
  method SdcardSetup(fs: FatFs, cfg: Config, cvt: CodePage, path: seq<byte>, spi: bool, ready: bool) returns (err: bool)
    requires !fs.disk.writing
    modifies fs, fs.disk`block, fs.disk`pos
    ensures !spi || !ready ==> err
    ensures err && spi && ready && fs.disk.healthy ==>
              forall b :: !FileOnCard(cfg, true, fs.disk.sectors, cvt, path, b)
    ensures !err ==>
              && fs.mounted && fs.isOpen && fs.fptr == 0
              && (exists bsect: u32 :: MayMount(cfg, fs.disk.healthy, fs.disk.sectors, bsect, fs.vol))
              && (exists b :: FileOnCard(cfg, fs.disk.healthy, fs.disk.sectors, cvt, path, b))
    ensures !err && DataOnDisk(fs.vol, |fs.disk.sectors|) ==>
              Streaming(fs) && FileOnCard(cfg, fs.disk.healthy, fs.disk.sectors, cvt, path, Data(fs))
  {
    hide Resolve, PathNames, IsRootPath, IsDirectory, MayMount, NamedFile, MountOf, FileOnCard;
    hide DataOnDisk, Data, Content, LdDword, PowerOfTwo;
    ghost var sectors := fs.disk.sectors;
    if !spi { return true; }
    var res := fs.PfMount(cfg, ready);
    if res != Ok {
      if ready && fs.disk.healthy {
        NoFileOnCard(cfg, sectors, cvt, path);
      }
      return true;
    }
    ghost var bsect: u32 :| MayMount(cfg, fs.disk.healthy, sectors, bsect, fs.vol);
    res := fs.PfOpen(cvt, path);
    err := res != Ok;
    if err {
      if fs.disk.healthy {
        NotNamed(fs.vol, sectors, cvt, path);
        NoFileOnCard(cfg, sectors, cvt, path);
      }
    } else {
      OpenedFile(fs, cvt, path);
      if DataOnDisk(fs.vol, |sectors|) {
        DataPositive(fs.vol, |sectors|);
        PowerPositive(fs.vol);
        fs.CursorReachable();
      }
      FoundOnCard(cfg, fs.disk.healthy, sectors, bsect, fs.vol, cvt, path,
                  NamedFile(fs.vol, sectors, cvt, path).value);
    }
  }

  lemma PowerPositive(v: Volume)
    requires PowerOfTwo(v.csize)
    ensures v.csize > 0
  {
  }

  lemma FoundOnCard(cfg: Config, healthy: bool, sectors: seq<Sector>, bsect: u32, v: Volume, cvt: CodePage,
              path: seq<byte>, b: seq<byte>)
    requires MayMount(cfg, healthy, sectors, bsect, v) && NamedFile(v, sectors, cvt, path) == Some(b)
    ensures FileOnCard(cfg, healthy, sectors, cvt, path, b)
  {
  }

  /**
    Loads the executable on the card into memory. On a healthy card the result is exact: an error of the
    device if there is no file, else what `Outcome` says of the file. Success, on any card, means that memory
    holds the program at its base address.
  */
  method AppLoad(fs: FatFs, cfg: Config, cvt: CodePage, path: seq<byte>, spi: bool, ready: bool, mem: map<u32, u32>)
      returns (res: LoadResult, mem': map<u32, u32>)
    requires !fs.disk.writing && ProperCard(cfg, fs.disk.healthy, fs.disk.sectors)
    modifies fs, fs.disk`block, fs.disk`pos
    ensures !spi || !ready ==> res == ErrorDevice && mem' == mem
    ensures spi && ready && fs.disk.healthy ==>
              && (forall b | FileOnCard(cfg, true, fs.disk.sectors, cvt, path, b) :: res == Outcome(b))
              && ((forall b :: !FileOnCard(cfg, true, fs.disk.sectors, cvt, path, b)) ==>
                    res == ErrorDevice && mem' == mem)
    ensures res == Loaded ==>
              exists b :: FileOnCard(cfg, fs.disk.healthy, fs.disk.sectors, cvt, path, b) && Loadable(b)
                          && mem' == Stored(mem, WordAt(b, 1), Program(b, ProgramSize(b)))
  {
    hide FileOnCard, MayMount, DataOnDisk, ProperCard, Streaming, Data;
    hide Outcome, Loadable, Stored, Program, WordAt, ProgramSize;
    var err := SdcardSetup(fs, cfg, cvt, path, spi, ready);
    if err {
      return ErrorDevice, mem;
    }
    ghost var bsect: u32 :| MayMount(cfg, fs.disk.healthy, fs.disk.sectors, bsect, fs.vol);
    VolumeProper(cfg, fs.disk.healthy, fs.disk.sectors, bsect, fs.vol);
    StreamStart(fs);
    ghost var b := Data(fs);
    res, mem' := LoadStream(fs, mem);
    if fs.disk.healthy {
      forall c | FileOnCard(cfg, true, fs.disk.sectors, cvt, path, c)
        ensures c == b
      {
        OneFile(cfg, fs.disk.sectors, cvt, path, b, c);
      }
    }
  }

  lemma OneFile(cfg: Config, sectors: seq<Sector>, cvt: CodePage, path: seq<byte>, b: seq<byte>, c: seq<byte>)
    requires FileOnCard(cfg, true, sectors, cvt, path, b) && FileOnCard(cfg, true, sectors, cvt, path, c)
    ensures b == c
  {
    hide FileOnCard, MountOf, NamedFile;
    FileOnHealthyCard(cfg, sectors, cvt, path, b);
    FileOnHealthyCard(cfg, sectors, cvt, path, c);
  }
}
