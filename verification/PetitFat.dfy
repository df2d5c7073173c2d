/**
  The file system object: reading, seeking and writing an open file without a sector buffer.
*/
module PetitFat {
  import opened Bytes
  import opened Arith
  import opened DiskIo
  import opened Fat
  import opened FileImage
  import opened FileWrite
  import opened Names
  import opened Directory
  import opened Mount

  datatype FResult = Ok | DiskErr | NotReady | NoFile | NotOpened | NotEnabled | NoFilesystem

  class FatFs {
    const disk: Disk
    var mounted: bool
    var vol: Volume
    // status flags of the file: open, and a sector write in progress
    var isOpen: bool
    var wip: bool
    var fptr: u32
    var fsize: u32
    var orgClust: u32
    var currClust: u32
    var dsect: u32
    // the sectors of the open file, as far as its links go or its size needs
    ghost var track: Track

    constructor (disk: Disk, vol: Volume)
      ensures this.disk == disk && !mounted && !isOpen && !wip
    {
      this.disk, this.vol := disk, vol;
      mounted, isOpen, wip := false, false, false;
      fptr, fsize, orgClust, currClust, dsect := 0, 0, 0, 0, 0;
      track := Track([], []);
    }

    // ---------- mounting and opening ----------

    /** Mounts the volume found on the disk; any open file is forgotten. */
    method PfMount(cfg: Config, ready: bool) returns (res: FResult)
      requires !disk.writing
      modifies this`mounted, this`vol, this`isOpen, this`wip, disk`block, disk`pos
      ensures Valid() && !wip && !isOpen
      ensures mounted == (res == Ok)
      ensures res == NotReady <==> !ready
      ensures res == Ok ==> exists bsect: u32 :: MayMount(cfg, disk.healthy, disk.sectors, bsect, vol)
      ensures ready && disk.healthy ==>
                match MountOf(cfg, disk.sectors)
                case Mounted(v) => res == Ok && vol == v
                case MountDiskErr => res == DiskErr
                case _ => res == NoFilesystem
    {
      mounted, isOpen, wip := false, false, false;
      var r := FindVolume(disk, cfg, ready);
      match r {
        case MountNotReady => return NotReady;
        case MountDiskErr => return DiskErr;
        case NoFat => return NoFilesystem;
        case Mounted(v) =>
          vol := v;
          mounted := true;
          return Ok;
      }
    }

    /** The file of a directory entry is open, with the cursor at its start. */
    ghost predicate OpenedAs(e: Entry)
      reads this, disk
    {
      && isOpen && fptr == 0
      && orgClust == EntryCluster(vol, e) && fsize == LdDword(e[28..32])
      && (vol.csize > 0 ==> track == TrackOf(vol, ChainOf(vol, disk.sectors, orgClust, fsize)))
    }

    /** Opens the file that a path names. */
    method PfOpen(cvt: CodePage, path: seq<byte>) returns (res: FResult)
      requires Valid() && !wip
      modifies this`isOpen, this`wip, this`fptr, this`fsize, this`orgClust, this`track, disk`block, disk`pos
      ensures !wip && !disk.writing
      // the cursor of an open file is a proper one if the data area lies on the disk
      ensures res != Ok || DataOnDisk(vol, |disk.sectors|) ==> Valid()
      ensures !mounted ==> res == NotEnabled
      ensures mounted ==> isOpen == (res == Ok)
      ensures mounted && IsRootPath(path) ==> res == if vol.nFatent > 0 then NoFile else DiskErr
      ensures mounted && !IsRootPath(path) ==>
                || (match Resolve(vol, disk.sectors, 0, PathNames(cvt, path, PathStart(path)))
                    case Missing => res == NoFile
                    case Damaged => res == DiskErr
                    case Found(e) => if e[0] == 0 || IsDirectory(e) then res == NoFile else res == Ok && OpenedAs(e))
                || (!disk.healthy && res == DiskErr)
    {
      hide DataOnDisk, Resolve, PathNames, IsRootPath, IsDirectory, OpenedAs, CursorOk;
      if !mounted { return NotEnabled; }
      isOpen, wip := false, false;
      var dj := new DirObj(disk, vol);
      var dir := new byte[32](_ => 0);
      var r := dj.FollowPath(cvt, path, dir);
      if r == DirNoFile { return NoFile; }
      if r == DirDiskErr { return DiskErr; }
      if dir[0] == 0 || IsDirectory(dir[..]) { return NoFile; }
      StartFile(dir[..]);
      res := Ok;
    }

    /** Takes over start cluster and size from a directory entry. */
    method StartFile(e: Entry)
      modifies this`isOpen, this`fptr, this`fsize, this`orgClust, this`track
      ensures OpenedAs(e)
      ensures DataOnDisk(vol, |disk.sectors|) ==> CursorOk()
    {
      orgClust := EntryCluster(vol, e);
      fsize := LdDword(e[28..32]);
      fptr := 0;
      isOpen := true;
      ghost var chain := if vol.csize > 0 then ChainOf(vol, disk.sectors, orgClust, fsize) else [];
      track := TrackOf(vol, chain);
      if DataOnDisk(vol, |disk.sectors|) {
        ChainOfProper(vol, disk.sectors, orgClust, fsize);
        ChainFollowed(vol, disk.sectors, orgClust, chain, fsize);
        VolumeMapsClusters(vol, |disk.sectors|);
      }
    }

    // ---------- the cursor ----------

    /** The open file has a proper track on the disk. */
    ghost predicate FileOk()
      reads this`vol, this`orgClust, this`track, this`fsize, disk`sectors
    {
      && PowerOfTwo(vol.csize) && MapsClusters(vol)
      && Follows(LocatorOf(vol, disk.sectors, orgClust), |disk.sectors|, track, fsize)
    }

    /** ... and the cursor stands in it. */
    ghost predicate CursorOk()
      reads this, disk`sectors
    {
      FileOk() && fptr <= fsize && AtByte(track, fptr, currClust, dsect)
    }

    /** The current cluster and data sector are those of the byte at the cursor. */
    ghost predicate OnSector()
      reads this
    {
      && fptr < 512 * |track.lbas| == 512 * |track.owners|
      && currClust == track.owners[fptr / 512] && dsect == track.lbas[fptr / 512]
    }

    /** A write in progress: the card and the cursor stand at the same byte of the same sector. */
    ghost predicate InSector()
      reads this, disk
    {
      && disk.InStep()
      && disk.target == dsect
      && |disk.received| == fptr % 512 != 0
    }

    ghost predicate Valid()
      reads this, disk
    {
      && (mounted && isOpen ==> CursorOk())
      && (wip ==> mounted && isOpen && InSector())
      && (!wip ==> !disk.writing)
    }

    ghost predicate Reachable()
      reads this`track, disk`sectors
    {
      OnDisk(disk.sectors, track.lbas)
    }

    /** The bytes of the file's sectors. */
    ghost function FileBytes(): seq<byte>
      requires Reachable()
      reads this`track, disk`sectors
    {
      Content(disk.sectors, track.lbas)
    }

    lemma CursorReachable()
      requires FileOk()
      ensures Reachable() && |FileBytes()| == 512 * |track.lbas|
    {
      TrackOnDisk(LocatorOf(vol, disk.sectors, orgClust), disk.sectors, track, fsize);
    }

    /** Closes the file after an error. */
    method Abort()
      modifies this`isOpen, this`wip
      ensures !isOpen && !wip
    {
      isOpen, wip := false, false;
    }

    /** At a sector boundary: works out the current cluster and data sector, or closes the file. */
    method Locate() returns (ok: bool)
      requires vol.csize > 0 && fptr % 512 == 0 && !disk.writing
      modifies this`isOpen, this`wip, this`currClust, this`dsect, disk`block, disk`pos
      ensures ok ==> LocatorOf(vol, disk.sectors, orgClust)(old(currClust), fptr / 512) == Some((currClust, dsect))
      ensures ok ==> isOpen == old(isOpen) && wip == old(wip)
      ensures !ok ==> !isOpen && !wip
      ensures !ok && disk.healthy ==> LocatorOf(vol, disk.sectors, orgClust)(old(currClust), fptr / 512) == None
    {
      var cs := fptr / 512 % vol.csize;
      if cs == 0 {
        var clst;
        if fptr == 0 {
          clst := orgClust;
        } else {
          clst := GetFat(disk, vol, currClust);
        }
        if clst <= 1 {
          Abort();
          return false;
        }
        currClust := clst;
      }
      var sect := Clust2Sect(vol, currClust);
      if sect == 0 {
        Abort();
        return false;
      }
      dsect := U32(sect + cs);
      ok := true;
    }

    /** The same, for a file whose cursor is proper. */
    method LocateByte() returns (ok: bool)
      requires CursorOk() && fptr % 512 == 0 && fptr < fsize && !disk.writing
      modifies this`isOpen, this`wip, this`currClust, this`dsect, disk`block, disk`pos
      ensures ok ==>
                && isOpen == old(isOpen) && wip == old(wip)
                && OnSector()
      ensures !ok ==> !isOpen && !wip
      ensures disk.healthy ==> (ok <==> fptr < 512 * |track.lbas|)
    {
      var locate := LocatorOf(vol, disk.sectors, orgClust);
      LocatedAtCursor(locate, |disk.sectors|, track, fsize, fptr, currClust, dsect);
      ok := Locate();
    }

    /** Reads up to the end of a sector into `buff` at `at`, from the sector of the cursor. */
    method ReadPiece(buff: array<byte>, at: nat, rcnt: nat) returns (ok: bool)
      requires FileOk() && OnSector() && !disk.writing
      requires 0 < rcnt && fptr % 512 + rcnt <= 512 && at + rcnt <= buff.Length && fptr + rcnt <= fsize
      modifies buff, disk`block, disk`pos, this`isOpen, this`wip, this`fptr
      ensures ok ==> CursorOk() && fptr == old(fptr) + rcnt && isOpen == old(isOpen) && wip == old(wip)
      ensures ok ==> Reachable() && old(fptr) + rcnt <= |FileBytes()|
      ensures ok ==>
                && (forall i | 0 <= i < buff.Length && !(at <= i < at + rcnt) :: buff[i] == old(buff[i]))
                && (forall i | at <= i < at + rcnt :: buff[i] == FileBytes()[old(fptr) - at + i])
      ensures !ok ==> !isOpen && !wip && buff[..] == old(buff[..]) && fptr == old(fptr)
      ensures disk.healthy ==> ok
    {
      hide Follows, LocatorOf, MapsClusters, AtByte, Content;
      CursorReachable();
      ContentSlice(disk.sectors, track.lbas, fptr, rcnt);
      AdvanceInSector(track, fptr, rcnt, currClust, dsect);
      ok := disk.ReadP(buff, at, dsect, fptr % 512, rcnt);
      if !ok {
        Abort();
        return;
      }
      ghost var piece := FileBytes()[fptr..fptr + rcnt];
      assert forall i | at <= i < at + rcnt :: buff[..][i] == piece[i - at];
      fptr := fptr + rcnt;
    }

    /** One round of the read loop: moves at most to the end of the current sector. */
    method ReadRound(buff: array<byte>, at: nat, left: nat) returns (ok: bool, rcnt: nat)
      requires CursorOk() && !disk.writing && 0 < left && fptr + left <= fsize && at + left <= buff.Length
      modifies buff, disk`block, disk`pos
      modifies this`isOpen, this`wip, this`fptr, this`currClust, this`dsect
      ensures old(Reachable())
      ensures ok ==>
                && CursorOk() && isOpen == old(isOpen) && wip == old(wip)
                && 0 < rcnt <= left && fptr == old(fptr) + rcnt <= |FileBytes()|
                && (forall i | 0 <= i < buff.Length && !(at <= i < at + rcnt) :: buff[i] == old(buff[i]))
                && (forall i | at <= i < at + rcnt :: buff[i] == FileBytes()[old(fptr) - at + i])
      ensures !ok ==> !isOpen && !wip && buff[..] == old(buff[..]) && fptr == old(fptr)
      ensures disk.healthy ==> (ok <==> old(fptr) < |FileBytes()|)
    {
      hide Follows, LocatorOf, MapsClusters, Content;
      CursorReachable();
      if fptr % 512 == 0 {
        ok := LocateByte();
        if !ok { return false, 0; }
      } else {
        InsideSector(track, fptr, currClust, dsect);
      }
      rcnt := Min(512 - fptr % 512, left);
      ok := ReadPiece(buff, at, rcnt);
    }

    /** Reads from the cursor on, up to `btr` bytes or the end of the file. */
    method PfRead(buff: array<byte>, btr: nat) returns (res: FResult, br: nat)
      requires Valid() && !wip && btr <= buff.Length
      modifies buff, disk`block, disk`pos
      modifies this`isOpen, this`wip, this`fptr, this`currClust, this`dsect
      ensures Valid() && !wip
      ensures !mounted ==> res == NotEnabled && br == 0
      ensures mounted && !old(isOpen) ==> res == NotOpened && br == 0
      ensures !mounted || !old(isOpen) ==> isOpen == old(isOpen) && fptr == old(fptr)
      ensures mounted && old(isOpen) ==>
                var f := old(fptr); var n := Min(btr, fsize - f);
                && Reachable() && br <= n && f + br <= |FileBytes()|
                && buff[..br] == FileBytes()[f..f + br] && buff[br..] == old(buff[br..])
                && (res == Ok ==> isOpen && br == n && fptr == f + n)
                && (res != Ok ==> res == DiskErr && !isOpen)
                && (disk.healthy ==> (res == Ok <==> f + n <= |FileBytes()|))
                && (disk.healthy && res != Ok ==> f + br == |FileBytes()|)
    {
      br := 0;
      if !mounted { return NotEnabled, 0; }
      if !isOpen { return NotOpened, 0; }
      var remain := fsize - fptr;
      var ok;
      ok, br := ReadLoop(buff, Min(btr, remain));
      res := if ok then Ok else DiskErr;
    }

    /** The read loop, for `n` bytes that do not go past the end of the file. */
    method ReadLoop(buff: array<byte>, n: nat) returns (ok: bool, br: nat)
      requires CursorOk() && isOpen && !wip && !disk.writing && fptr + n <= fsize && n <= buff.Length
      modifies buff, disk`block, disk`pos
      modifies this`isOpen, this`wip, this`fptr, this`currClust, this`dsect
      ensures !wip && isOpen == ok && Reachable()
      ensures br <= n && old(fptr) + br <= |FileBytes()|
      ensures buff[..br] == FileBytes()[old(fptr)..old(fptr) + br] && buff[br..] == old(buff[br..])
      ensures ok ==> CursorOk() && br == n && fptr == old(fptr) + n
      ensures disk.healthy && !ok ==> old(fptr) + br == |FileBytes()| < old(fptr) + n
    {
      hide Follows, LocatorOf, MapsClusters, Content;
      CursorReachable();
      var left := n;
      br := 0;
      ghost var f, bytes := fptr, FileBytes();
      while left > 0
        invariant isOpen && !wip && !disk.writing && CursorOk()
        invariant 0 <= left && br + left == n && fptr == f + br && f + br <= |bytes|
        invariant forall i | 0 <= i < br :: buff[i] == bytes[f + i]
        invariant forall i | br <= i < buff.Length :: buff[i] == old(buff[i])
        decreases left
      {
        var rcnt;
        ok, rcnt := ReadRound(buff, br, left);
        if !ok { return; }
        left, br := left - rcnt, br + rcnt;
      }
      ok := true;
    }

    /** Moves the cursor to `ofs`, or to the end of the file if that is nearer. */
    method PfLseek(ofs: u32) returns (res: FResult)
      requires Valid() && !wip
      modifies this`isOpen, this`wip, this`fptr, this`currClust, this`dsect, disk`block, disk`pos
      ensures Valid() && !wip
      ensures !mounted ==> res == NotEnabled
      ensures mounted && !old(isOpen) ==> res == NotOpened
      ensures !mounted || !old(isOpen) ==> isOpen == old(isOpen) && fptr == old(fptr)
      ensures mounted && old(isOpen) ==>
                && Reachable()
                && (res == Ok ==> isOpen && fptr == Min(ofs, fsize))
                && (res != Ok ==> res == DiskErr && !isOpen)
                && (disk.healthy ==> (res == Ok <==> Min(ofs, fsize) <= |FileBytes()|))
    {
      if !mounted { return NotEnabled; }
      if !isOpen { return NotOpened; }
      CursorReachable();
      var target := Min(ofs, fsize);
      if target == 0 {
        fptr := 0;
        return Ok;
      }
      var ok := SeekTo(target);
      res := if ok then Ok else DiskErr;
    }

    /** Picks the cluster to start from: the current one if the target is not before it, else the first. */
    method SeekStart(target: u32) returns (clst: u32, ghost k: nat)
      requires CursorOk() && 0 < target <= fsize
      modifies this`fptr, this`currClust
      ensures fptr == 512 * k < target
      ensures clst == currClust && AtCluster(vol, track, k, clst)
    {
      var ifptr, bcs := fptr, vol.csize * 512;
      k := 0;
      SameOrLater(target - 1, if ifptr > 0 then ifptr - 1 else 0, bcs);
      if ifptr > 0 && (target - 1) / bcs >= (ifptr - 1) / bcs {
        RoundDown(ifptr - 1, vol.csize);
        BackToCluster(vol, disk.sectors, orgClust, track, fsize, ifptr, currClust, dsect);
        k := (ifptr - 1) / 512 - InCluster(vol, (ifptr - 1) / 512);
        fptr := ifptr - 1 - (ifptr - 1) % bcs;
        clst := currClust;
      } else {
        FirstCluster(vol, disk.sectors, orgClust, track, fsize);
        fptr := 0;
        clst := orgClust;
        currClust := clst;
      }
    }

    /** Follows the chain to a target past the start of the file. */
    method SeekTo(target: u32) returns (ok: bool)
      requires CursorOk() && isOpen && !wip && !disk.writing && 0 < target <= fsize
      modifies this`isOpen, this`wip, this`fptr, this`currClust, this`dsect, disk`block, disk`pos
      ensures isOpen == ok && !wip && Reachable()
      ensures ok ==> CursorOk() && fptr == target <= |FileBytes()|
      ensures disk.healthy && !ok ==> |FileBytes()| < target
    {
      hide Follows, LocatorOf, MapsClusters, AtByte, InCluster, Clust2Sect, FatEntry, Content;
      CursorReachable();
      var bcs := vol.csize * 512;
      var clst;
      ghost var k;
      clst, k := SeekStart(target);
      var left := target - fptr;
      while left > bcs
        invariant FileOk() && isOpen && !wip && !disk.writing
        invariant fptr == 512 * k && left > 0 && fptr + left == target
        invariant clst == currClust && AtCluster(vol, track, k, clst)
        decreases left
      {
        FollowCluster(vol, disk.sectors, orgClust, track, fsize, k, clst);
        clst := GetFat(disk, vol, clst);
        if clst <= 1 || clst >= vol.nFatent {
          Abort();
          return false;
        }
        currClust := clst;
        fptr := fptr + bcs;
        left := left - bcs;
        k := k + vol.csize;
      }
      fptr := fptr + left;
      ok := SeekEnd(k);
    }

    /** Works out the sector of the byte reached in the current cluster. */
    method SeekEnd(ghost k: nat) returns (ok: bool)
      requires FileOk() && isOpen && !wip && AtCluster(vol, track, k, currClust)
      requires 512 * k < fptr <= 512 * (k + vol.csize) && fptr <= fsize
      modifies this`isOpen, this`wip, this`dsect
      ensures isOpen == ok && !wip
      ensures ok ==> CursorOk() && fptr <= 512 * |track.lbas|
      ensures !ok ==> 512 * |track.lbas| < fptr
    {
      hide Clust2Sect, InCluster, Follows, LocatorOf, AtByte, MapsClusters;
      if k < |track.lbas| {
        ReachByte(vol, disk.sectors, orgClust, track, fsize, k, currClust, fptr);
      } else {
        NotMapped(vol, currClust);
      }
      var sect := Clust2Sect(vol, currClust);
      if sect == 0 {
        Abort();
        return false;
      }
      dsect := U32(sect + InCluster(vol, fptr / 512));
      ok := true;
    }

    // ---------- writing ----------

    /** The sectors as they will be once the write in progress is finished. */
    ghost function Image(): seq<Sector>
      reads this`wip, disk`sectors, disk`target, disk`received
    {
      if wip && disk.target < |disk.sectors| && |disk.received| <= SECTOR_SIZE
      then disk.sectors[disk.target := disk.Padded()] else disk.sectors
    }

    /** The bytes of the file as they will be once the write in progress is finished. */
    ghost function ImageBytes(): seq<byte>
      requires Reachable()
      reads this`wip, this`track, disk`sectors, disk`target, disk`received
    {
      Content(Image(), track.lbas)
    }

    /** No sector outside the file has changed. */
    twostate predicate OthersKept()
      reads this, disk
    {
      && |disk.sectors| == old(|disk.sectors|)
      && forall i | 0 <= i < |disk.sectors| && i !in track.lbas :: disk.sectors[i] == old(disk.sectors[i])
    }

    /** Starts the write of the sector at the cursor. */
    method StartSector() returns (ok: bool)
      requires CursorOk() && isOpen && !wip && !disk.writing && fptr % 512 == 0 && fptr < fsize
      requires Writable(vol, track.lbas) && vol.database > 0
      modifies this`isOpen, this`wip, this`currClust, this`dsect, disk`block, disk`pos
      modifies disk`writing, disk`target, disk`received, disk`wc
      ensures ok ==> isOpen && wip && OnSector() && disk.InStep() && disk.target == dsect && disk.received == []
      ensures !ok ==> !isOpen && !wip && !disk.writing
      ensures disk.healthy ==> (ok <==> fptr < 512 * |track.lbas|)
    {
      CursorReachable();
      ok := LocateByte();
      if ok {
        ok := disk.WriteStart(dsect);
        if ok {
          wip := true;
        } else {
          Abort();
        }
      }
    }

    /** Finishes the sector write in progress; the disk then holds what was announced for it. */
    method CloseSector() returns (ok: bool)
      requires FileOk() && isOpen && wip && Writable(vol, track.lbas)
      requires disk.InStep() && disk.target in track.lbas
      modifies disk`sectors, disk`received, disk`writing, this`isOpen, this`wip
      ensures OthersKept() && !wip && !disk.writing && isOpen == ok
      ensures ok ==> FileOk() && disk.sectors == old(Image())
      ensures disk.healthy ==> ok
    {
      ghost var before := disk.sectors;
      ok := disk.WriteFinish();
      if !ok {
        Abort();
        return;
      }
      wip := false;
      TrackKept(vol, before, disk.sectors, orgClust, track, fsize);
    }

    /** Sends a piece that stays within the current sector; at the sector's end, finishes the sector. */
    method PutPiece(buff: array<byte>, at: nat, wcnt: nat, ghost base: seq<Sector>) returns (ok: bool)
      requires FileOk() && isOpen && wip && OnSector() && Writable(vol, track.lbas)
      requires disk.InStep() && disk.target == dsect && |disk.received| == fptr % 512
      requires 0 < wcnt && fptr % 512 + wcnt <= 512 && fptr + wcnt <= fsize && at + wcnt <= buff.Length
      requires |base| == |disk.sectors|
      requires forall i | 0 <= i < |base| && i != dsect :: base[i] == disk.sectors[i]
      requires base[dsect][..fptr % 512] == disk.received
      modifies disk`sectors, disk`received, disk`writing, disk`wc, this`isOpen, this`wip, this`fptr
      ensures OthersKept()
      ensures ok ==> isOpen && InOrder() && fptr == old(fptr) + wcnt
      ensures ok ==> Reachable() && OnDisk(base, track.lbas) && fptr <= |ImageBytes()|
      ensures ok ==> ImageBytes() == Overwrite(Content(base, track.lbas), old(fptr), buff[at..at + wcnt])
      ensures ok && fptr % 512 != 0 ==> wip
      ensures !ok ==> !isOpen && !wip && !disk.writing
      ensures disk.healthy ==> ok
    {
      hide Follows, LocatorOf, MapsClusters, AtByte, Content, Overwrite, Distinct, FatFits;
      CursorReachable();
      ghost var head, piece := disk.received, buff[at..at + wcnt];
      ghost var x: Sector := head + piece + Zeros(512 - |head| - |piece|);
      PieceWritten(base, track.lbas, fptr, head, piece);
      AdvanceInSector(track, fptr, wcnt, currClust, dsect);
      disk.WriteData(buff, at, wcnt);
      assert disk.received + Zeros(512 - |disk.received|) == x;
      fptr := fptr + wcnt;
      assert Image() == base[dsect := x];
      ok := true;
      if fptr % 512 == 0 {
        ok := CloseSector();
      }
    }

    /** The invariant of an open file during a write. */
    ghost predicate InOrder()
      reads this, disk
    {
      CursorOk() && (wip ==> InSector()) && (!wip ==> !disk.writing)
    }

    /** ... and the cursor stands in mid-sector only while a write is in progress. */
    ghost predicate WriteReady()
      reads this, disk
    {
      InOrder() && isOpen && (fptr % 512 != 0 ==> wip) && Writable(vol, track.lbas) && vol.database > 0
    }

    lemma WriteFacts()
      requires WriteReady()
      ensures Reachable() && fptr <= |ImageBytes()| == 512 * |track.lbas|
    {
      CursorReachable();
    }

    /** The announced sectors are those of the disk, except for the part of the current one already sent. */
    lemma ImageBase()
      requires InOrder()
      ensures |Image()| == |disk.sectors|
      ensures forall i | 0 <= i < |disk.sectors| && i != dsect :: Image()[i] == disk.sectors[i]
      ensures if wip then dsect < |Image()| && Image()[dsect][..fptr % 512] == disk.received
              else Image() == disk.sectors
    {
    }

    /** One round of the write loop: writes at most to the end of the current sector. */
    method WriteRound(buff: array<byte>, at: nat, left: nat) returns (ok: bool, wcnt: nat)
      requires WriteReady()
      requires 0 < left && fptr + left <= fsize && at + left <= buff.Length
      modifies disk, this`isOpen, this`wip, this`fptr, this`currClust, this`dsect
      ensures OthersKept()
      ensures ok ==> WriteReady() && 0 < wcnt <= left && fptr == old(fptr) + wcnt
      ensures ok ==> old(Reachable()) && Reachable() && fptr <= |ImageBytes()|
      ensures ok ==> ImageBytes() == Overwrite(old(ImageBytes()), old(fptr), buff[at..at + wcnt])
      ensures !ok ==> !isOpen && !wip && !disk.writing
      ensures disk.healthy ==> (ok <==> old(fptr) < 512 * |track.lbas|)
      ensures disk.healthy && !ok ==> wcnt == 0 && old(fptr) == 512 * |track.lbas| && disk.sectors == old(Image())
    {
      hide Overwrite, Content, Follows, LocatorOf, MapsClusters, Writable, Image;
      WriteFacts();
      ImageBase();
      ghost var base := Image();
      assert Content(base, track.lbas) == ImageBytes();
      wcnt := 0;
      if fptr % 512 == 0 {
        ok := StartSector();
        if !ok { return; }
      } else {
        InsideSector(track, fptr, currClust, dsect);
      }
      wcnt := Min(512 - fptr % 512, left);
      ok := PutPiece(buff, at, wcnt, base);
    }

    /** The write loop, for `n` bytes that do not go past the end of the file. */
    method WriteLoop(buff: array<byte>, n: nat) returns (ok: bool, bw: nat)
      requires WriteReady()
      requires fptr + n <= fsize && n <= buff.Length
      modifies disk, this`isOpen, this`wip, this`fptr, this`currClust, this`dsect
      ensures OthersKept() && bw <= n
      ensures ok ==> WriteReady() && bw == n && fptr == old(fptr) + n
      ensures ok ==> old(Reachable()) && Reachable() && fptr <= |ImageBytes()|
      ensures ok ==> ImageBytes() == Overwrite(old(ImageBytes()), old(fptr), buff[..n])
      ensures !ok ==> !isOpen && !wip && !disk.writing
      ensures disk.healthy ==> (ok <==> old(fptr) + n <= 512 * |track.lbas|)
      ensures disk.healthy && !ok ==>
                && old(Reachable()) && Reachable() && old(fptr) + bw == |FileBytes()|
                && FileBytes() == Overwrite(old(ImageBytes()), old(fptr), buff[..bw])
    {
      hide WriteReady, Overwrite, Content, Image;
      WriteFacts();
      var left := n;
      bw := 0;
      ghost var f, c, d := fptr, ImageBytes(), buff[..n];
      OverwriteNothing(c, f);
      assert d[..0] == [];
      while left > 0
        invariant WriteReady() && OthersKept()
        invariant 0 <= left && bw + left == n && fptr == f + bw
        invariant Reachable() && fptr <= |c|
        invariant ImageBytes() == Overwrite(c, f, d[..bw])
        decreases left
      {
        var wcnt;
        ok, wcnt := WriteRound(buff, bw, left);
        if !ok {
          assert d[..bw] == buff[..bw];
          return;
        }
        OverwriteNext(c, f, d, bw, bw + wcnt);
        assert d[bw..bw + wcnt] == buff[bw..bw + wcnt];
        left, bw := left - wcnt, bw + wcnt;
      }
      assert d[..n] == d;
      ok := true;
    }

    /** Where a write begins: in mid-sector only if a write is in progress. */
    function WriteStartPos(): u32
      reads this`wip, this`fptr
    {
      if wip then fptr else fptr - fptr % 512
    }

    /** The sector where a write begins is the one the cursor is in (see `ResumeSector`). */
    predicate ResumesInSector()
      requires vol.csize > 0
      reads this`wip, this`fptr, this`vol
    {
      wip || fptr % 512 == 0 || fptr / 512 == 0 || InCluster(vol, fptr / 512) != 0
    }

    /**
      Writes up to `btw` bytes, not past the end of the file; `btw == 0` finishes the write in progress.
    */
    method PfWrite(buff: array<byte>, btw: nat) returns (res: FResult, bw: nat)
      requires Valid() && btw <= buff.Length
      requires mounted && isOpen ==>
                 Writable(vol, track.lbas) && vol.database > 0 && (btw > 0 ==> ResumesInSector())
      modifies disk, this`isOpen, this`wip, this`fptr, this`currClust, this`dsect
      ensures Valid() && OthersKept()
      ensures !mounted ==> res == NotEnabled && bw == 0
      ensures mounted && !old(isOpen) ==> res == NotOpened && bw == 0
      ensures !mounted || !old(isOpen) ==>
                isOpen == old(isOpen) && fptr == old(fptr) && disk.sectors == old(disk.sectors)
      ensures mounted && old(isOpen) && res == Ok ==> isOpen && old(Reachable()) && Reachable()
      ensures mounted && old(isOpen) && res != Ok ==> res == DiskErr
      // finishing makes the announced content the content of the disk
      ensures mounted && old(isOpen) && btw == 0 ==>
                && bw == 0 && (disk.healthy ==> res == Ok)
                && (res == Ok ==> !wip && disk.sectors == old(Image()) && fptr == old(fptr))
      // writing replaces exactly the range and zero-fills the rest of the last sector
      ensures mounted && old(isOpen) && btw > 0 ==>
                var f := old(WriteStartPos()); var n := Min(btw, fsize - f);
                && bw <= n
                && (res == Ok ==> bw == n && fptr == f + n <= |ImageBytes()|
                                  && ImageBytes() == Overwrite(old(ImageBytes()), f, buff[..n]))
                && (disk.healthy ==> (res == Ok <==> f + n <= 512 * |track.lbas|))
                // a chain that is too short has taken all that fits
                && (disk.healthy && res != Ok ==>
                      && old(Reachable()) && Reachable() && f + bw == |FileBytes()|
                      && FileBytes() == Overwrite(old(ImageBytes()), f, buff[..bw]))
      // the driver's counter follows the cursor
      ensures wip ==> disk.wc == 512 - fptr % 512
      // afterwards, the cursor stands in mid-sector only if the write is in progress
      ensures mounted && old(isOpen) && btw > 0 && res == Ok ==> fptr % 512 == 0 || wip
      ensures res != Ok ==> !isOpen || !mounted
    {
      hide Overwrite, Content, Follows, LocatorOf, MapsClusters, Writable, AtByte, InCluster, Image, WriteReady;
      bw := 0;
      if !mounted { return NotEnabled, 0; }
      if !isOpen { return NotOpened, 0; }
      CursorReachable();
      if btw == 0 {
        var ok := EndWrite();
        return if ok then Ok else DiskErr, 0;
      }
      Resume();
      var ok;
      ok, bw := WriteLoop(buff, Min(btw, fsize - fptr));
      WriteEnds();
      res := if ok then Ok else DiskErr;
    }

    lemma WriteEnds()
      requires WriteReady() || (!isOpen && !wip && !disk.writing)
      requires mounted
      ensures Valid()
      ensures WriteReady() ==> isOpen && (fptr % 512 == 0 || wip)
    {
    }

    /** Where no write is in progress, goes back to the start of the sector. */
    method Resume()
      requires Valid() && mounted && isOpen && Writable(vol, track.lbas) && vol.database > 0 && ResumesInSector()
      modifies this`fptr
      ensures WriteReady() && fptr == old(WriteStartPos())
    {
      if !wip {
        ResumeKeepsCursor(vol, disk.sectors, orgClust, track, fsize, fptr, currClust, dsect);
        fptr := fptr - fptr % 512;
      }
    }

    /** Finishes the write in progress, if there is one. */
    method EndWrite() returns (ok: bool)
      requires Valid() && mounted && isOpen && Writable(vol, track.lbas)
      modifies disk`sectors, disk`received, disk`writing, this`isOpen, this`wip
      ensures Valid() && OthersKept() && !wip && isOpen == ok
      ensures ok ==> disk.sectors == old(Image()) && Reachable()
      ensures disk.healthy ==> ok
    {
      hide Content, Follows, LocatorOf, MapsClusters, Writable, AtByte;
      CursorReachable();
      ok := true;
      if wip {
        ok := FinishSector();
      }
    }

    /** Finishes a sector in mid-sector. */
    method FinishSector() returns (ok: bool)
      requires InOrder() && isOpen && wip && Writable(vol, track.lbas)
      modifies disk`sectors, disk`received, disk`writing, this`isOpen, this`wip
      ensures OthersKept() && !wip && !disk.writing && isOpen == ok
      ensures ok ==> CursorOk() && disk.sectors == old(Image())
      ensures disk.healthy ==> ok
    {
      InsideSector(track, fptr, currClust, dsect);
      ok := CloseSector();
    }
  }
}
