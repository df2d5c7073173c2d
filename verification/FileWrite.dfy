/**
  Writing into a file sector by sector: the effect on the file's bytes, and what stays unchanged.
*/
module FileWrite {
  import opened Bytes
  import opened Arith
  import opened Fat
  import opened FileImage

  // ---------- what a write does to the bytes of a file ----------

  function RoundUp(p: nat): (e: nat)
    ensures p <= e < p + 512 && e % 512 == 0
  {
    (p + 511) / 512 * 512
  }

  /** The bytes `c` with `d` written at `f`; the rest of the last sector written becomes zero. */
  function Overwrite(c: seq<byte>, f: nat, d: seq<byte>): (r: seq<byte>)
    ensures |r| == |c|
  {
    var e := RoundUp(f + |d|);
    if d == [] || e > |c| then c else c[..f] + d + Zeros(e - f - |d|) + c[e..]
  }

  lemma OverwriteAt(c: seq<byte>, f: nat, d: seq<byte>, i: nat)
    requires f + |d| <= |c| && |c| % 512 == 0 && i < |c|
    ensures Overwrite(c, f, d)[i]
         == if d == [] then c[i] else if f <= i < f + |d| then d[i - f]
            else if f + |d| <= i < RoundUp(f + |d|) then 0 else c[i]
  {
  }

  lemma RoundUpMonotone(p: nat, q: nat)
    requires p <= q
    ensures RoundUp(p) <= RoundUp(q)
  {
  }

  /** Writing in two pieces, the second where the first stopped, is writing once. */
  lemma OverwriteTwice(c: seq<byte>, f: nat, d1: seq<byte>, d2: seq<byte>)
    requires f + |d1| + |d2| <= |c| && |c| % 512 == 0
    ensures Overwrite(Overwrite(c, f, d1), f + |d1|, d2) == Overwrite(c, f, d1 + d2)
  {
    hide Overwrite, RoundUp;
    var c1 := Overwrite(c, f, d1);
    RoundUpMonotone(f + |d1|, f + |d1| + |d2|);
    forall i | 0 <= i < |c|
      ensures Overwrite(c1, f + |d1|, d2)[i] == Overwrite(c, f, d1 + d2)[i]
    {
      OverwriteAt(c, f, d1, i);
      OverwriteAt(c1, f + |d1|, d2, i);
      OverwriteAt(c, f, d1 + d2, i);
    }
  }

  lemma OverwriteNothing(c: seq<byte>, f: nat)
    ensures Overwrite(c, f, []) == c
  {
  }

  lemma OverwriteNext(c: seq<byte>, f: nat, d: seq<byte>, a: nat, b: nat)
    requires a <= b <= |d| && f + b <= |c| && |c| % 512 == 0
    ensures Overwrite(Overwrite(c, f, d[..a]), f + a, d[a..b]) == Overwrite(c, f, d[..b])
  {
    hide Overwrite;
    OverwriteTwice(c, f, d[..a], d[a..b]);
    assert d[..a] + d[a..b] == d[..b];
  }

  predicate Distinct(lbas: seq<nat>) {
    forall i, j | 0 <= i < j < |lbas| :: lbas[i] != lbas[j]
  }

  /** Replacing one sector of a file replaces its 512 bytes of the file and nothing else. */
  lemma {:induction false} ContentUpdate(sectors: seq<Sector>, lbas: seq<nat>, k: nat, x: Sector)
    requires OnDisk(sectors, lbas) && Distinct(lbas) && k < |lbas|
    ensures OnDisk(sectors[lbas[k] := x], lbas)
    ensures Content(sectors[lbas[k] := x], lbas)
         == Content(sectors, lbas)[..512 * k] + x + Content(sectors, lbas)[512 * (k + 1)..]
  {
    var m := |lbas| - 1;
    var after := sectors[lbas[k] := x];
    var front := Content(sectors, lbas[..m]);
    if k < m {
      ContentUpdate(sectors, lbas[..m], k, x);
      assert after[lbas[m]] == sectors[lbas[m]];
    } else {
      ContentFrame(sectors, after, lbas[..m]);
      assert Content(sectors, lbas)[..512 * k] == front;
    }
  }

  /** The content of a file depends on its own sectors only. */
  lemma {:induction false} ContentFrame(before: seq<Sector>, after: seq<Sector>, lbas: seq<nat>)
    requires OnDisk(before, lbas) && OnDisk(after, lbas)
    requires forall i | 0 <= i < |lbas| :: before[lbas[i]] == after[lbas[i]]
    ensures Content(before, lbas) == Content(after, lbas)
  {
    if lbas != [] {
      ContentFrame(before, after, lbas[..|lbas| - 1]);
    }
  }

  /** Writing a piece that stays within sector `k`, where the sector holds `head` before the piece. */
  lemma PieceWritten(sectors: seq<Sector>, lbas: seq<nat>, f: nat, head: seq<byte>, piece: seq<byte>)
    requires OnDisk(sectors, lbas) && Distinct(lbas) && f < 512 * |lbas|
    requires |head| == f % 512 && 0 < |piece| && |head| + |piece| <= 512
    requires lbas[f / 512] < |sectors| && sectors[lbas[f / 512]][..|head|] == head
    ensures var x: Sector := head + piece + Zeros(512 - |head| - |piece|);
            && f + |piece| <= 512 * |lbas|
            && OnDisk(sectors[lbas[f / 512] := x], lbas)
            && Content(sectors[lbas[f / 512] := x], lbas) == Overwrite(Content(sectors, lbas), f, piece)
  {
    hide Overwrite, Content, Distinct, OnDisk, Zeros;
    var k := f / 512;
    var x: Sector := head + piece + Zeros(512 - |head| - |piece|);
    ContentUpdate(sectors, lbas, k, x);
    ContentSlice(sectors, lbas, 512 * k, |head|);
    Splice(Content(sectors, lbas), k, head, piece);
  }

  lemma Splice(c: seq<byte>, k: nat, head: seq<byte>, piece: seq<byte>)
    requires 512 * (k + 1) <= |c| && 0 < |piece| && |head| + |piece| <= 512
    requires c[512 * k..512 * k + |head|] == head
    ensures c[..512 * k] + (head + piece + Zeros(512 - |head| - |piece|)) + c[512 * (k + 1)..]
         == Overwrite(c, 512 * k + |head|, piece)
  {
    hide RoundUp, Overwrite, Zeros;
    RoundUpIn(k, |head| + |piece|);
    OverwriteMeans(c, 512 * k + |head|, piece, 512 * (k + 1));
    Extend(c, 512 * k, head);
    Regroup(c[..512 * k], head, piece, Zeros(512 - |head| - |piece|), c[512 * (k + 1)..]);
  }

  lemma OverwriteMeans(c: seq<byte>, f: nat, d: seq<byte>, e: nat)
    requires d != [] && e == RoundUp(f + |d|) <= |c|
    ensures Overwrite(c, f, d) == c[..f] + d + Zeros(e - f - |d|) + c[e..]
  {
  }

  lemma Extend(c: seq<byte>, a: nat, d: seq<byte>)
    requires a + |d| <= |c| && c[a..a + |d|] == d
    ensures c[..a + |d|] == c[..a] + d
  {
  }

  lemma RoundUpIn(k: nat, x: nat)
    requires 0 < x <= 512
    ensures RoundUp(512 * k + x) == 512 * (k + 1)
  {
  }

  lemma Regroup(a: seq<byte>, b: seq<byte>, c: seq<byte>, d: seq<byte>, e: seq<byte>)
    ensures a + (b + c + d) + e == (a + b) + c + d + e
  {
  }

  // ---------- what a write leaves alone ----------

  /** The sector of the FAT that holds the end of its last entry. */
  function LastFatSector(v: Volume): int {
    var last := v.nFatent - 1;
    match v.fsType
    case Fat12 => (last + last / 2 + 1) / 512
    case Fat16 => last / 256
    case Fat32 => last / 128
  }

  /** The FAT, for all cluster numbers of the volume, lies before the data area. */
  predicate FatFits(v: Volume) {
    2 <= v.nFatent <= 0x1000_0000 && v.fatbase + LastFatSector(v) < v.database
  }

  /** The disks agree before the data area. */
  ghost predicate SameBefore(before: seq<Sector>, after: seq<Sector>, limit: nat) {
    |before| == |after| && forall i | 0 <= i < |before| && i < limit :: before[i] == after[i]
  }

  lemma PeekSame(before: seq<Sector>, after: seq<Sector>, limit: nat, s: u32, ofs: nat, n: nat)
    requires SameBefore(before, after, limit) && s < limit && ofs + n <= SECTOR_SIZE
    ensures Peek(before, s, ofs, n) == Peek(after, s, ofs, n)
  {
  }

  /** Two disks of the same size that agree before the data area have the same FAT. */
  lemma FatFrame(v: Volume, before: seq<Sector>, after: seq<Sector>, clst: u32)
    requires FatFits(v) && SameBefore(before, after, v.database)
    ensures FatEntry(v, before, clst) == FatEntry(v, after, clst)
  {
    hide Peek, SameBefore, LdWord, LdDword, Entry12;
    if IsCluster(v, clst) {
      match v.fsType {
        case Fat12 => FatFrame12(v, before, after, clst);
        case Fat16 =>
          assert U32(v.fatbase + clst / 256) < v.database;
          PeekSame(before, after, v.database, U32(v.fatbase + clst / 256), clst % 256 * 2, 2);
        case Fat32 =>
          assert U32(v.fatbase + clst / 128) < v.database;
          PeekSame(before, after, v.database, U32(v.fatbase + clst / 128), clst % 128 * 4, 4);
      }
    }
  }

  lemma FatFrame12(v: Volume, before: seq<Sector>, after: seq<Sector>, clst: u32)
    requires FatFits(v) && v.fsType == Fat12 && SameBefore(before, after, v.database) && clst < v.nFatent
    ensures Entry12(v, before, clst) == Entry12(v, after, clst)
  {
    hide Peek, SameBefore, LdWord, Decode12, U32, FatFits;
    var bc := U32(clst + clst / 2);
    Sectors12(v, clst);
    if bc % 512 != 511 {
      PeekSame(before, after, v.database, U32(v.fatbase + bc / 512), bc % 512, 2);
    } else {
      PeekSame(before, after, v.database, U32(v.fatbase + bc / 512), 511, 1);
      PeekSame(before, after, v.database, U32(v.fatbase + bc / 512 + 1), 0, 1);
    }
  }

  lemma Sectors12(v: Volume, clst: u32)
    requires FatFits(v) && v.fsType == Fat12 && clst < v.nFatent
    ensures var bc := U32(clst + clst / 2);
            && U32(v.fatbase + bc / 512) < v.database
            && (bc % 512 == 511 ==> U32(v.fatbase + bc / 512 + 1) < v.database)
  {
    hide U32;
    var bc, last := clst + clst / 2, v.nFatent - 1;
    assert bc + 1 <= last + last / 2 + 1;
    NoWrap(bc);
    Quotients(bc, last + last / 2 + 1);
    Quotients(bc + 1, last + last / 2 + 1);
    NoWrap(v.fatbase + bc / 512);
    if bc % 512 == 511 {
      NextSector(bc);
      NoWrap(v.fatbase + bc / 512 + 1);
    }
  }

  lemma Quotients(a: nat, b: nat)
    requires a <= b
    ensures a / 512 <= b / 512
  {
  }

  /** The file may be written: its sectors are distinct and lie in the data area, behind the FAT. */
  predicate Writable(v: Volume, lbas: seq<nat>) {
    FatFits(v) && Distinct(lbas) && forall i | 0 <= i < |lbas| :: v.database <= lbas[i]
  }

  /** A write to the file does not change the track of the file. */
  lemma TrackKept(v: Volume, before: seq<Sector>, after: seq<Sector>, org: u32, t: Track, fsize: nat)
    requires v.csize > 0 && Writable(v, t.lbas) && |before| == |after|
    requires forall i | 0 <= i < |before| && i !in t.lbas :: before[i] == after[i]
    requires Follows(LocatorOf(v, before, org), |before|, t, fsize)
    ensures Follows(LocatorOf(v, after, org), |after|, t, fsize)
  {
    assert SameBefore(before, after, v.database);
    forall curr: u32, k: nat
      ensures LocatorOf(v, before, org)(curr, k) == LocatorOf(v, after, org)(curr, k)
    {
      FatFrame(v, before, after, curr);
      LocatedFrame(v, before, after, org, curr, k);
    }
    FollowsFrame(LocatorOf(v, before, org), LocatorOf(v, after, org), |before|, t, fsize);
  }

  lemma LocatedFrame(v: Volume, before: seq<Sector>, after: seq<Sector>, org: u32, curr: u32, k: nat)
    requires v.csize > 0 && FatEntry(v, before, curr) == FatEntry(v, after, curr)
    ensures Located(v, before, org, curr, k) == Located(v, after, org, curr, k)
  {
  }

  lemma FollowsFrame(before: Locator, after: Locator, size: nat, t: Track, fsize: nat)
    requires forall curr: u32, k: nat :: before(curr, k) == after(curr, k)
    requires Follows(before, size, t, fsize)
    ensures Follows(after, size, t, fsize)
  {
    forall k | 0 <= k < |t.lbas|
      ensures StepsTo(after, size, t, k)
    {
      assert StepsTo(before, size, t, k);
    }
  }

  /** A chain of different clusters on a proper volume may be written. */
  lemma ChainWritable(v: Volume, sectors: seq<Sector>, chain: seq<u32>)
    requires DataOnDisk(v, |sectors|) && FatFits(v)
    requires forall i | 0 <= i < |chain| :: IsCluster(v, chain[i])
    requires forall i, j | 0 <= i < j < |chain| :: chain[i] != chain[j]
    ensures Writable(v, Lbas(v, chain))
  {
    LbasOnDisk(v, sectors, chain);
    ChainDistinct(v, sectors, chain);
  }

  lemma {:induction false} ChainDistinct(v: Volume, sectors: seq<Sector>, chain: seq<u32>)
    requires DataOnDisk(v, |sectors|)
    requires forall i | 0 <= i < |chain| :: IsCluster(v, chain[i])
    requires forall i, j | 0 <= i < j < |chain| :: chain[i] != chain[j]
    ensures Distinct(Lbas(v, chain))
  {
    if chain != [] {
      var m := |chain| - 1;
      var front, last := Lbas(v, chain[..m]), ClusterLbas(v, chain[m]);
      ChainDistinct(v, sectors, chain[..m]);
      forall i, j | 0 <= i < |front| && 0 <= j < |last|
        ensures front[i] != last[j]
      {
        Lengths(v, chain[..m]);
        SectorOfChain(v, chain[..m], i);
        var c := Owners(v, chain[..m])[i];
        assert c in chain[..m];
        ClustersDisjoint(v, |sectors|, c, chain[m], InCluster(v, i), j);
      }
    }
  }

  // ---------- where a write that is not in progress resumes ----------

  /** Stepping back to the start of the current sector leaves a proper cursor, except in the first sector of
      a later cluster. */
  lemma ResumeKeepsCursor(v: Volume, sectors: seq<Sector>, org: u32, t: Track, fsize: nat,
                          p: nat, curr: u32, dsect: u32)
    requires v.csize > 0 && Follows(LocatorOf(v, sectors, org), |sectors|, t, fsize)
    requires AtByte(t, p, curr, dsect) && MapsClusters(v)
    requires p % 512 == 0 || p / 512 == 0 || InCluster(v, p / 512) != 0
    ensures AtByte(t, p - p % 512, curr, dsect)
  {
    hide Follows, LocatorOf, MapsClusters, Clust2Sect;
    var k := p / 512;
    if p % 512 != 0 && k > 0 {
      InsideSector(t, p, curr, dsect);
      assert (p - p % 512 - 1) / 512 == k - 1;
      var j := InCluster(v, k);
      RoundDown(p, v.csize);
      ClusterSectors(v, sectors, org, t, fsize, k - j, j);
      ClusterSectors(v, sectors, org, t, fsize, k - j, j - 1);
    }
  }

  /**
    The write resumes in the sector it was in exactly if that is not the first sector of a later cluster, or
    if the cluster happens to be linked to itself.
  */
  lemma ResumeSector(v: Volume, sectors: seq<Sector>, org: u32, t: Track, fsize: nat, p: nat, curr: u32, dsect: u32)
    requires v.csize > 0 && Follows(LocatorOf(v, sectors, org), |sectors|, t, fsize)
    requires AtByte(t, p, curr, dsect) && MapsClusters(v) && p % 512 != 0 && p < fsize
    ensures Located(v, sectors, org, curr, p / 512) == Some((t.owners[p / 512], t.lbas[p / 512]))
       <==> p / 512 == 0 || InCluster(v, p / 512) != 0 || FatEntry(v, sectors, curr) == curr
  {
    hide Follows, MapsClusters, FatEntry, Clust2Sect, InCluster, Located;
    var k := p / 512;
    InsideSector(t, p, curr, dsect);
    if k == 0 || InCluster(v, k) != 0 {
      ResumeKeepsCursor(v, sectors, org, t, fsize, p, curr, dsect);
      LocatedAtCursor(LocatorOf(v, sectors, org), |sectors|, t, fsize, p - p % 512, curr, dsect);
    } else {
      LocatedAtCluster(v, sectors, org, curr, k);
      ClusterStart(v, sectors, org, t, fsize, k);
    }
  }

  /**
    In the other cases the code follows the link of the current cluster once more: it goes to the first sector
    of the next cluster, or gives up where there is none. If the file goes on past the current cluster, that
    is one cluster too far in the file.
  */
  lemma ResumeTooFar(v: Volume, sectors: seq<Sector>, org: u32, t: Track, fsize: nat, p: nat, curr: u32, dsect: u32)
    requires v.csize > 0 && Follows(LocatorOf(v, sectors, org), |sectors|, t, fsize)
    requires AtByte(t, p, curr, dsect) && MapsClusters(v) && p % 512 != 0
    requires p / 512 > 0 && InCluster(v, p / 512) == 0
    ensures var e := FatEntry(v, sectors, curr);
            Located(v, sectors, org, curr, p / 512) == if IsCluster(v, e) then Some((e, Clust2Sect(v, e))) else None
    ensures var k := p / 512 + v.csize;
            512 * k < fsize ==>
              Located(v, sectors, org, curr, p / 512) == if k < |t.lbas| then Some((t.owners[k], t.lbas[k])) else None
  {
    hide Follows, MapsClusters, FatEntry, Clust2Sect, Located;
    var k := p / 512;
    InsideSector(t, p, curr, dsect);
    LocatedAtCluster(v, sectors, org, curr, k);
    NotMapped(v, FatEntry(v, sectors, curr));
    if 512 * (k + v.csize) < fsize {
      NextCluster(v, sectors, org, t, fsize, k);
      if k + v.csize < |t.lbas| {
        ModNext(k, v.csize);
        ClusterStart(v, sectors, org, t, fsize, k + v.csize);
        ClusterSectors(v, sectors, org, t, fsize, k, v.csize - 1);
      }
    }
  }

  /**
    From there on, the write goes on as a write of another file: the one that begins with the current cluster,
    with its cursor at the start of the second cluster, as far as that file is taken to reach.
  */
  lemma ResumeElsewhere(v: Volume, sectors: seq<Sector>, org: u32, t: Track, fsize: nat, p: nat, curr: u32, dsect: u32,
                        size: nat)
    requires DataOnDisk(v, |sectors|) && Follows(LocatorOf(v, sectors, org), |sectors|, t, fsize)
    requires AtByte(t, p, curr, dsect) && p % 512 != 0 && p / 512 > 0 && v.csize > 0 && InCluster(v, p / 512) == 0
    requires 512 * v.csize <= size
    ensures var tail := TrackOf(v, ChainOf(v, sectors, curr, size));
            && Follows(LocatorOf(v, sectors, curr), |sectors|, tail, size)
            && AtByte(tail, 512 * v.csize, curr, dsect)
    ensures forall c: u32, j: nat | j >= p / 512 ::
              Located(v, sectors, org, c, j) == Located(v, sectors, curr, c, j - p / 512 + v.csize)
  {
    hide DataOnDisk, FatEntry, Clust2Sect, Follows, LocatorOf, ChainOf, Located, AtByte;
    var k, chain := p / 512, ChainOf(v, sectors, curr, size);
    var tail := TrackOf(v, chain);
    VolumeMapsClusters(v, |sectors|);
    InsideSector(t, p, curr, dsect);
    ClusterStart(v, sectors, org, t, fsize, k);
    ChainOfProper(v, sectors, curr, size);
    ChainFollowed(v, sectors, curr, chain, size);
    ClusterStart(v, sectors, curr, tail, size, 0);
    ClusterSectors(v, sectors, curr, tail, size, 0, v.csize - 1);
    AtClusterEnd(tail, v.csize, curr, dsect);
    forall c: u32, j: nat | j >= k
      ensures Located(v, sectors, org, c, j) == Located(v, sectors, curr, c, j - k + v.csize)
    {
      SameStep(v, sectors, org, curr, c, k, j - k);
    }
  }

  lemma AtClusterEnd(t: Track, n: nat, curr: u32, dsect: u32)
    requires 0 < n <= |t.lbas| == |t.owners| && t.owners[n - 1] == curr
    ensures AtByte(t, 512 * n, curr, dsect)
  {
    assert (512 * n - 1) / 512 == n - 1;
  }

  /** Behind the start of a file, only the place in the cluster matters to the boundary step. */
  lemma SameStep(v: Volume, sectors: seq<Sector>, org: u32, other: u32, c: u32, k: nat, i: nat)
    requires v.csize > 0 && k > 0 && InCluster(v, k) == 0
    ensures Located(v, sectors, org, c, k + i) == Located(v, sectors, other, c, v.csize + i)
  {
    hide FatEntry, Clust2Sect;
    ModMultiples(k, i, v.csize);
    ModMultiples(v.csize, i, v.csize);
  }
}
