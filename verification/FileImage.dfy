/**
  The content of a file as an abstract byte string: the concatenation of the sectors of the clusters of
  its chain. The read/write cursor of the driver is measured against it.
*/
module FileImage {
  import opened Bytes
  import opened Fat
  import opened Arith

  // ---------- chains ----------

  /** A run of linked clusters that starts at `org`. */
  ghost predicate IsChain(v: Volume, sectors: seq<Sector>, org: u32, chain: seq<u32>) {
    && (forall i | 0 <= i < |chain| :: IsCluster(v, chain[i]))
    && (chain != [] ==> chain[0] == org)
    && (forall i | 0 < i < |chain| :: Linked(v, sectors, chain, i))
  }

  predicate Linked(v: Volume, sectors: seq<Sector>, chain: seq<u32>, i: int)
    requires 0 < i < |chain|
  {
    chain[i] == FatEntry(v, sectors, chain[i - 1])
  }

  /** The cluster number that comes after the run. */
  function After(v: Volume, sectors: seq<Sector>, org: u32, chain: seq<u32>): u32 {
    if chain == [] then org else FatEntry(v, sectors, chain[|chain| - 1])
  }

  /** The run is long enough for `size` bytes, or the links end there. */
  ghost predicate Complete(v: Volume, sectors: seq<Sector>, org: u32, chain: seq<u32>, size: nat) {
    size <= 512 * |Lbas(v, chain)| || !IsCluster(v, After(v, sectors, org, chain))
  }

  /** The clusters linked from `c` on, at most `n` of them. */
  function Links(v: Volume, sectors: seq<Sector>, c: u32, n: nat): (chain: seq<u32>)
    ensures |chain| <= n
    decreases n
  {
    if n == 0 || !IsCluster(v, c) then [] else [c] + Links(v, sectors, FatEntry(v, sectors, c), n - 1)
  }

  function ClustersFor(v: Volume, size: nat): nat
    requires v.csize > 0
  {
    ((size + 511) / 512 + v.csize - 1) / v.csize
  }

  /** The chain of a file of `size` bytes that starts at `org`: as long as it must be, or can be. */
  function ChainOf(v: Volume, sectors: seq<Sector>, org: u32, size: nat): seq<u32>
    requires v.csize > 0
  {
    Links(v, sectors, org, ClustersFor(v, size))
  }

  lemma {:induction false} LinksChain(v: Volume, sectors: seq<Sector>, c: u32, n: nat)
    ensures var chain := Links(v, sectors, c, n);
            IsChain(v, sectors, c, chain) && (|chain| == n || !IsCluster(v, After(v, sectors, c, chain)))
    decreases n
  {
    if n > 0 && IsCluster(v, c) {
      var next := FatEntry(v, sectors, c);
      var rest := Links(v, sectors, next, n - 1);
      var chain := [c] + rest;
      LinksChain(v, sectors, next, n - 1);
      forall i | 0 < i < |chain|
        ensures Linked(v, sectors, chain, i)
      {
        if i > 1 {
          assert Linked(v, sectors, rest, i - 1);
        }
      }
    }
  }

  /** Every start cluster has such a chain, whatever the FAT holds. */
  lemma ChainOfProper(v: Volume, sectors: seq<Sector>, org: u32, size: nat)
    requires v.csize > 0
    ensures var chain := ChainOf(v, sectors, org, size);
            IsChain(v, sectors, org, chain) && Complete(v, sectors, org, chain, size)
  {
    var chain, n, m := ChainOf(v, sectors, org, size), ClustersFor(v, size), (size + 511) / 512;
    LinksChain(v, sectors, org, n);
    Lengths(v, chain);
    DivBounds(m + v.csize - 1, v.csize);
    assert n * v.csize >= m;
  }

  // ---------- content ----------

  /** The sectors of a cluster. */
  function ClusterLbas(v: Volume, clst: u32): (s: seq<nat>)
    ensures |s| == v.csize
  {
    seq<nat>(v.csize, i requires 0 <= i < v.csize => (Clust2Sect(v, clst) + i) as nat)
  }

  /** The sectors of a chain, in file order. */
  function Lbas(v: Volume, chain: seq<u32>): seq<nat> {
    if chain == [] then [] else Lbas(v, chain[..|chain| - 1]) + ClusterLbas(v, chain[|chain| - 1])
  }

  /** The cluster that each sector of the chain belongs to. */
  function Owners(v: Volume, chain: seq<u32>): seq<u32> {
    if chain == [] then [] else Owners(v, chain[..|chain| - 1]) + seq(v.csize, _ => chain[|chain| - 1])
  }

  predicate OnDisk(sectors: seq<Sector>, lbas: seq<nat>) {
    forall i | 0 <= i < |lbas| :: lbas[i] < |sectors|
  }

  /** The bytes of a list of sectors. */
  function Content(sectors: seq<Sector>, lbas: seq<nat>): (b: seq<byte>)
    requires OnDisk(sectors, lbas)
    ensures |b| == 512 * |lbas|
  {
    if lbas == [] then [] else Content(sectors, lbas[..|lbas| - 1]) + sectors[lbas[|lbas| - 1]]
  }

  // ---------- where a byte of the file lies ----------

  /** The place of sector `k` of a file in its cluster. */
  function InCluster(v: Volume, k: nat): (j: nat)
    requires v.csize > 0
    ensures j < v.csize
  {
    k % v.csize
  }

  lemma InClusterZero(v: Volume)
    requires v.csize > 0
    ensures InCluster(v, 0) == 0
  {
  }

  lemma {:induction false} Lengths(v: Volume, chain: seq<u32>)
    ensures |Lbas(v, chain)| == |Owners(v, chain)| == |chain| * v.csize
  {
    if chain != [] {
      Lengths(v, chain[..|chain| - 1]);
    }
  }

  /** Sector `k` of a chain is sector `k mod csize` of its cluster, and clusters change every `csize` sectors. */
  lemma {:induction false} SectorOfChain(v: Volume, chain: seq<u32>, k: nat)
    requires v.csize > 0 && k < |Lbas(v, chain)| == |Owners(v, chain)|
    ensures Lbas(v, chain)[k] == Clust2Sect(v, Owners(v, chain)[k]) + InCluster(v, k)
    ensures Owners(v, chain)[k] in chain
    ensures InCluster(v, k) != 0 ==> Owners(v, chain)[k] == Owners(v, chain)[k - 1]
  {
    var n := |chain| - 1;
    Lengths(v, chain[..n]);
    if k < n * v.csize {
      SectorOfChain(v, chain[..n], k);
    } else {
      DivUnique(k, n, v.csize);
      assert n * v.csize == |Owners(v, chain[..n])|;
    }
  }

  /** At the boundary between two clusters of a chain, their numbers are linked in the FAT. */
  lemma {:induction false} ClusterBoundary(v: Volume, sectors: seq<Sector>, org: u32, chain: seq<u32>, k: nat)
    requires v.csize > 0 && IsChain(v, sectors, org, chain)
    requires k <= |Lbas(v, chain)| == |Owners(v, chain)| && InCluster(v, k) == 0
    ensures k == 0 < |Owners(v, chain)| ==> Owners(v, chain)[0] == org
    ensures 0 < k < |Owners(v, chain)| ==> Owners(v, chain)[k] == FatEntry(v, sectors, Owners(v, chain)[k - 1])
    ensures k == |Owners(v, chain)| ==>
              After(v, sectors, org, chain) == if k == 0 then org else FatEntry(v, sectors, Owners(v, chain)[k - 1])
  {
    if chain != [] {
      var n := |chain| - 1;
      var front := chain[..n];
      Lengths(v, front);
      Lengths(v, chain);
      assert n * v.csize + v.csize == |Owners(v, chain)|;
      if k <= n * v.csize {
        forall i | 0 < i < n
          ensures Linked(v, sectors, front, i)
        {
          assert Linked(v, sectors, chain, i);
        }
        if n > 0 {
          assert Linked(v, sectors, chain, n);
        }
        ClusterBoundary(v, sectors, org, front, k);
      } else {
        MultipleAbove(k, n, v.csize);
      }
    } else {
      Lengths(v, chain);
    }
  }

  lemma LbasOnDisk(v: Volume, sectors: seq<Sector>, chain: seq<u32>)
    requires DataOnDisk(v, |sectors|) && forall i | 0 <= i < |chain| :: IsCluster(v, chain[i])
    ensures OnDisk(sectors, Lbas(v, chain))
    ensures forall k | 0 <= k < |Lbas(v, chain)| :: v.database <= Lbas(v, chain)[k] < TWO32
  {
    Lengths(v, chain);
    forall k | 0 <= k < |Lbas(v, chain)|
      ensures v.database <= Lbas(v, chain)[k] < |sectors|
    {
      SectorOfChain(v, chain, k);
      ClusterRange(v, |sectors|, Owners(v, chain)[k]);
    }
  }

  lemma {:induction false} ContentSlice(sectors: seq<Sector>, lbas: seq<nat>, f: nat, n: nat)
    requires OnDisk(sectors, lbas) && f % 512 + n <= 512 && f < 512 * |lbas|
    ensures f + n <= 512 * |lbas|
    ensures Content(sectors, lbas)[f..f + n] == sectors[lbas[f / 512]][f % 512..f % 512 + n]
  {
    var m := |lbas| - 1;
    var front, last := Content(sectors, lbas[..m]), sectors[lbas[m]];
    if f < 512 * m {
      ContentSlice(sectors, lbas[..m], f, n);
      assert Content(sectors, lbas)[f..f + n] == front[f..f + n];
    } else {
      assert f / 512 == m && f % 512 == f - 512 * m;
      assert Content(sectors, lbas)[f..f + n] == last[f - 512 * m..f - 512 * m + n];
    }
  }

  // ---------- the walk of the cursor ----------

  /** What the code works out at the start of sector `k` of a file: its cluster and sector, or a failure. */
  function Located(v: Volume, sectors: seq<Sector>, org: u32, curr: u32, k: nat): Option<(u32, u32)>
    requires v.csize > 0
  {
    var cs := InCluster(v, k);
    var clst := if cs != 0 then curr else if k == 0 then org else FatEntry(v, sectors, curr);
    if cs == 0 && clst <= 1 then None
    else
      var sect := Clust2Sect(v, clst);
      if sect == 0 then None else Some((clst, U32(sect + cs)))
  }

  /** A list of sectors with the cluster of each. */
  datatype Track = Track(lbas: seq<nat>, owners: seq<u32>)

  type Locator = (u32, nat) -> Option<(u32, u32)>

  /** The boundary step of a file, as a function of the current cluster and the sector index. */
  function LocatorOf(v: Volume, sectors: seq<Sector>, org: u32): Locator
    requires v.csize > 0
  {
    (curr, k) => Located(v, sectors, org, curr, k)
  }

  /** The boundary step from sector `k - 1` of the track leads to sector `k`. */
  ghost predicate StepsTo(locate: Locator, size: nat, t: Track, k: nat)
    requires k < |t.lbas| == |t.owners|
  {
    && t.lbas[k] < size && t.lbas[k] < TWO32
    && forall curr: u32 | k > 0 ==> curr == t.owners[k - 1] ::
         locate(curr, k) == Some((t.owners[k], t.lbas[k]))
  }

  /** The boundary step after the last sector of the track fails. */
  ghost predicate StopsAfter(locate: Locator, t: Track)
    requires |t.lbas| == |t.owners|
  {
    var k := |t.lbas|;
    forall curr: u32 | k > 0 ==> curr == t.owners[k - 1] :: locate(curr, k) == None
  }

  /** The boundary steps follow this track: for all of a file of `fsize` bytes, or until they fail. */
  ghost predicate Follows(locate: Locator, size: nat, t: Track, fsize: nat) {
    && |t.lbas| == |t.owners|
    && (forall k | 0 <= k < |t.lbas| :: StepsTo(locate, size, t, k))
    && (512 * |t.lbas| < fsize ==> StopsAfter(locate, t))
  }

  function TrackOf(v: Volume, chain: seq<u32>): Track {
    Track(Lbas(v, chain), Owners(v, chain))
  }

  lemma StepTo(v: Volume, sectors: seq<Sector>, org: u32, curr: u32, k: nat, c: u32, lba: u32)
    requires v.csize > 0 && c >= 2 && Clust2Sect(v, c) != 0 && lba == Clust2Sect(v, c) + InCluster(v, k)
    requires c == if InCluster(v, k) != 0 then curr else if k == 0 then org else FatEntry(v, sectors, curr)
    ensures Located(v, sectors, org, curr, k) == Some((c, lba))
  {
    hide Clust2Sect, InCluster, FatEntry;
  }

  lemma StepFails(v: Volume, sectors: seq<Sector>, org: u32, curr: u32, k: nat, c: u32)
    requires v.csize > 0 && InCluster(v, k) == 0 && Clust2Sect(v, c) == 0
    requires c == if k == 0 then org else FatEntry(v, sectors, curr)
    ensures Located(v, sectors, org, curr, k) == None
  {
    hide Clust2Sect, InCluster, FatEntry;
  }

  lemma ChainSector(v: Volume, sectors: seq<Sector>, org: u32, chain: seq<u32>, k: nat)
    requires DataOnDisk(v, |sectors|) && IsChain(v, sectors, org, chain)
    requires k < |Lbas(v, chain)| == |Owners(v, chain)|
    ensures var c := Owners(v, chain)[k];
            c >= 2 && Clust2Sect(v, c) != 0 && Lbas(v, chain)[k] == Clust2Sect(v, c) + InCluster(v, k)
    ensures Lbas(v, chain)[k] < TWO32
  {
    hide Clust2Sect, Lbas, Owners;
    LbasOnDisk(v, sectors, chain);
    SectorOfChain(v, chain, k);
    ClusterRange(v, |sectors|, Owners(v, chain)[k]);
  }

  lemma ChainStep(v: Volume, sectors: seq<Sector>, org: u32, chain: seq<u32>, k: nat, curr: u32)
    requires DataOnDisk(v, |sectors|) && IsChain(v, sectors, org, chain)
    requires k < |Lbas(v, chain)| == |Owners(v, chain)|
    requires k > 0 ==> curr == Owners(v, chain)[k - 1]
    ensures Lbas(v, chain)[k] < TWO32
    ensures Located(v, sectors, org, curr, k) == Some((Owners(v, chain)[k], Lbas(v, chain)[k]))
  {
    hide Clust2Sect, Lbas, Owners, IsChain, Located, InCluster;
    InClusterZero(v);
    ChainSector(v, sectors, org, chain, k);
    SectorOfChain(v, chain, k);
    if InCluster(v, k) == 0 {
      ClusterBoundary(v, sectors, org, chain, k);
    }
    StepTo(v, sectors, org, curr, k, Owners(v, chain)[k], Lbas(v, chain)[k]);
  }

  lemma ChainEnd(v: Volume, sectors: seq<Sector>, org: u32, chain: seq<u32>, curr: u32)
    requires DataOnDisk(v, |sectors|) && IsChain(v, sectors, org, chain)
    requires |Lbas(v, chain)| == |Owners(v, chain)| == |chain| * v.csize
    requires !IsCluster(v, After(v, sectors, org, chain))
    requires chain != [] ==> curr == Owners(v, chain)[|Owners(v, chain)| - 1]
    ensures Located(v, sectors, org, curr, |Lbas(v, chain)|) == None
  {
    var k, next := |chain| * v.csize, After(v, sectors, org, chain);
    DivUnique(k, |chain|, v.csize);
    ClusterBoundary(v, sectors, org, chain, k);
    ClusterRange(v, |sectors|, next);
    StepFails(v, sectors, org, curr, k, next);
  }

  /** On a chain of clusters, the boundary steps follow the sectors of the chain in file order. */
  lemma ChainFollowed(v: Volume, sectors: seq<Sector>, org: u32, chain: seq<u32>, fsize: nat)
    requires DataOnDisk(v, |sectors|) && IsChain(v, sectors, org, chain) && Complete(v, sectors, org, chain, fsize)
    ensures Follows(LocatorOf(v, sectors, org), |sectors|, TrackOf(v, chain), fsize)
  {
    var t, locate := TrackOf(v, chain), LocatorOf(v, sectors, org);
    Lengths(v, chain);
    LbasOnDisk(v, sectors, chain);
    forall k, curr: u32 | 0 <= k < |t.lbas| && (k > 0 ==> curr == t.owners[k - 1])
      ensures locate(curr, k) == Some((t.owners[k], t.lbas[k]))
    {
      ChainStep(v, sectors, org, chain, k, curr);
    }
    if 512 * |t.lbas| < fsize {
      forall curr: u32 | |t.lbas| > 0 ==> curr == t.owners[|t.lbas| - 1]
        ensures locate(curr, |t.lbas|) == None
      {
        ChainEnd(v, sectors, org, chain, curr);
      }
    }
  }

  // ---------- the cursor ----------

  /**
    The cursor stands at byte `p` of the track: past the start, `curr` is the cluster of the byte before
    it; inside a sector, `dsect` is that sector.
  */
  ghost predicate AtByte(t: Track, p: nat, curr: u32, dsect: u32) {
    && |t.lbas| == |t.owners|
    && p <= 512 * |t.lbas|
    && (p > 0 ==> curr == t.owners[(p - 1) / 512])
    && (p % 512 != 0 ==> dsect == t.lbas[p / 512])
  }

  /** From a proper cursor, the boundary step finds the sector of the file at that position. */
  lemma LocatedAtCursor(locate: Locator, size: nat, t: Track, fsize: nat, p: nat, curr: u32, dsect: u32)
    requires Follows(locate, size, t, fsize) && AtByte(t, p, curr, dsect) && p % 512 == 0 && p < fsize
    ensures if p < 512 * |t.lbas|
            then t.lbas[p / 512] < TWO32 && locate(curr, p / 512) == Some((t.owners[p / 512], t.lbas[p / 512]))
            else locate(curr, p / 512) == None
  {
    var k := p / 512;
    assert p > 0 ==> (p - 1) / 512 == k - 1;
    if k < |t.lbas| {
      assert StepsTo(locate, size, t, k);
    }
  }

  lemma TrackOnDisk(locate: Locator, sectors: seq<Sector>, t: Track, fsize: nat)
    requires Follows(locate, |sectors|, t, fsize)
    ensures OnDisk(sectors, t.lbas)
  {
    forall k | 0 <= k < |t.lbas|
      ensures t.lbas[k] < |sectors|
    {
      assert StepsTo(locate, |sectors|, t, k);
    }
  }

  /** The cursor after moving within the sector just located, or to its end. */
  lemma AdvanceInSector(t: Track, p: nat, n: nat, curr: u32, dsect: u32)
    requires |t.lbas| == |t.owners|
    requires p < 512 * |t.lbas| && 0 < n && p % 512 + n <= 512
    requires curr == t.owners[p / 512] && dsect == t.lbas[p / 512]
    ensures AtByte(t, p + n, curr, dsect)
  {
    assert (p + n - 1) / 512 == p / 512;
    if (p + n) % 512 != 0 {
      assert (p + n) / 512 == p / 512;
    }
  }

  /** Inside a sector, the current cluster is the one of that sector. */
  lemma InsideSector(t: Track, p: nat, curr: u32, dsect: u32)
    requires AtByte(t, p, curr, dsect) && p % 512 != 0
    ensures p < 512 * |t.lbas| && curr == t.owners[p / 512]
  {
    assert (p - 1) / 512 == p / 512;
  }

  // ---------- from cluster to cluster ----------

  predicate MapsClusters(v: Volume) {
    v.nFatent >= 2 && forall c: u32 | IsCluster(v, c) :: Clust2Sect(v, c) != 0
  }

  lemma VolumeMapsClusters(v: Volume, size: nat)
    requires DataOnDisk(v, size)
    ensures MapsClusters(v)
  {
    forall c: u32 | IsCluster(v, c)
      ensures Clust2Sect(v, c) != 0
    {
      ClusterRange(v, size, c);
    }
  }

  lemma LocatedInCluster(v: Volume, sectors: seq<Sector>, org: u32, curr: u32, k: nat)
    requires v.csize > 0 && InCluster(v, k) != 0
    ensures Located(v, sectors, org, curr, k)
         == if Clust2Sect(v, curr) == 0 then None else Some((curr, U32(Clust2Sect(v, curr) + InCluster(v, k))))
  {
    hide Clust2Sect, InCluster, FatEntry;
  }

  lemma LocatedAtCluster(v: Volume, sectors: seq<Sector>, org: u32, curr: u32, k: nat)
    requires v.csize > 0 && InCluster(v, k) == 0
    ensures var c := if k == 0 then org else FatEntry(v, sectors, curr);
            Located(v, sectors, org, curr, k)
              == if c <= 1 || Clust2Sect(v, c) == 0 then None else Some((c, Clust2Sect(v, c)))
  {
    hide Clust2Sect, InCluster, FatEntry;
  }

  /** The first sector of a cluster of the track. */
  lemma ClusterStart(v: Volume, sectors: seq<Sector>, org: u32, t: Track, fsize: nat, k: nat)
    requires v.csize > 0 && InCluster(v, k) == 0
    requires Follows(LocatorOf(v, sectors, org), |sectors|, t, fsize) && k <= |t.lbas|
    requires k == |t.lbas| ==> 512 * k < fsize
    ensures var c := if k == 0 then org else FatEntry(v, sectors, t.owners[k - 1]);
            if k < |t.lbas| then c == t.owners[k] && c >= 2 && Clust2Sect(v, c) == t.lbas[k] && t.lbas[k] != 0
            else c <= 1 || Clust2Sect(v, c) == 0
  {
    var locate := LocatorOf(v, sectors, org);
    var curr := if k == 0 then 0 else t.owners[k - 1];
    LocatedAtCluster(v, sectors, org, curr, k);
    if k < |t.lbas| {
      assert StepsTo(locate, |sectors|, t, k);
      assert locate(curr, k) == Some((t.owners[k], t.lbas[k]));
    } else {
      assert locate(curr, k) == None;
    }
  }

  /** The sector after one that does not end its cluster. */
  lemma SectorAfter(v: Volume, sectors: seq<Sector>, org: u32, t: Track, fsize: nat, i: nat)
    requires v.csize > 0 && InCluster(v, i) != 0 && 0 < i
    requires Follows(LocatorOf(v, sectors, org), |sectors|, t, fsize) && i - 1 < |t.lbas|
    requires Clust2Sect(v, t.owners[i - 1]) != 0
    requires i < |t.lbas| || 512 * i < fsize
    ensures i < |t.lbas| && t.owners[i] == t.owners[i - 1]
    ensures t.lbas[i] == U32(Clust2Sect(v, t.owners[i]) + InCluster(v, i))
  {
    var locate, curr := LocatorOf(v, sectors, org), t.owners[i - 1];
    LocatedInCluster(v, sectors, org, curr, i);
    assert locate(curr, i) != None;
    if i < |t.lbas| {
      assert StepsTo(locate, |sectors|, t, i);
      assert locate(curr, i) == Some((t.owners[i], t.lbas[i]));
    }
  }

  /** All sectors of a cluster that the file needs belong to it and follow its first one. */
  lemma {:induction false} ClusterSectors(v: Volume, sectors: seq<Sector>, org: u32, t: Track, fsize: nat,
                                          k: nat, j: nat)
    requires v.csize > 0 && InCluster(v, k) == 0 && j < v.csize
    requires Follows(LocatorOf(v, sectors, org), |sectors|, t, fsize) && k < |t.lbas|
    requires k + j < |t.lbas| || 512 * (k + j) < fsize
    ensures k + j < |t.lbas| && t.owners[k + j] == t.owners[k]
    ensures t.lbas[k + j] == U32(Clust2Sect(v, t.owners[k]) + j)
  {
    hide Clust2Sect, Follows, LocatorOf;
    ClusterStart(v, sectors, org, t, fsize, k);
    if j > 0 {
      ClusterSectors(v, sectors, org, t, fsize, k, j - 1);
      ModShift(k, j, v.csize);
      SectorAfter(v, sectors, org, t, fsize, k + j);
    }
  }

  /** A seek stands at the start of a cluster: sector `k` of the track, or just past a track that is too short. */
  ghost predicate AtCluster(v: Volume, t: Track, k: nat, clst: u32)
    requires v.csize > 0
  {
    && InCluster(v, k) == 0
    && k <= |t.lbas| == |t.owners|
    && if k < |t.lbas| then clst == t.owners[k] else clst <= 1 || Clust2Sect(v, clst) == 0
  }

  /** The cluster of the byte before a proper cursor, at its first sector. */
  lemma BackToCluster(v: Volume, sectors: seq<Sector>, org: u32, t: Track, fsize: nat, p: nat, curr: u32, dsect: u32)
    requires v.csize > 0 && Follows(LocatorOf(v, sectors, org), |sectors|, t, fsize)
    requires 0 < p && AtByte(t, p, curr, dsect)
    ensures var i := (p - 1) / 512; var k := i - InCluster(v, i);
            0 <= k < |t.lbas| && AtCluster(v, t, k, curr)
  {
    var i := (p - 1) / 512;
    var k := i - InCluster(v, i);
    RoundDown(p - 1, v.csize);
    ClusterSectors(v, sectors, org, t, fsize, k, InCluster(v, i));
  }

  lemma FirstCluster(v: Volume, sectors: seq<Sector>, org: u32, t: Track, fsize: nat)
    requires v.csize > 0 && Follows(LocatorOf(v, sectors, org), |sectors|, t, fsize) && fsize > 0
    ensures AtCluster(v, t, 0, org)
  {
    ClusterStart(v, sectors, org, t, fsize, 0);
  }

  /** One link on, towards a position past this cluster. */
  lemma FollowCluster(v: Volume, sectors: seq<Sector>, org: u32, t: Track, fsize: nat, k: nat, clst: u32)
    requires v.csize > 0 && Follows(LocatorOf(v, sectors, org), |sectors|, t, fsize)
    requires MapsClusters(v) && AtCluster(v, t, k, clst) && 512 * (k + v.csize) < fsize
    ensures var e := FatEntry(v, sectors, clst);
            if k + v.csize < |t.lbas| then IsCluster(v, e) && AtCluster(v, t, k + v.csize, e)
            else !IsCluster(v, e) && 512 * |t.lbas| <= 512 * (k + v.csize)
  {
    var e := FatEntry(v, sectors, clst);
    if k < |t.lbas| {
      NextCluster(v, sectors, org, t, fsize, k);
      ModNext(k, v.csize);
      NotMapped(v, e);
    } else {
      NotMapped(v, clst);
    }
  }

  lemma NotMapped(v: Volume, c: u32)
    requires MapsClusters(v)
    ensures IsCluster(v, c) ==> c > 1 && Clust2Sect(v, c) != 0
    ensures Clust2Sect(v, c) != 0 ==> IsCluster(v, c)
  {
    hide Clust2Sect;
    if !IsCluster(v, c) {
      OutsideUnmapped(v, c);
    }
  }

  /** The byte reached within the cluster. */
  lemma ReachByte(v: Volume, sectors: seq<Sector>, org: u32, t: Track, fsize: nat, k: nat, clst: u32, p: nat)
    requires v.csize > 0 && Follows(LocatorOf(v, sectors, org), |sectors|, t, fsize)
    requires AtCluster(v, t, k, clst) && k < |t.lbas| && 512 * k < p <= 512 * (k + v.csize) && p <= fsize
    ensures Clust2Sect(v, clst) != 0
    ensures p <= 512 * |t.lbas|
    ensures AtByte(t, p, clst, U32(Clust2Sect(v, clst) + InCluster(v, p / 512)))
  {
    var j := (p - 1) / 512 - k;
    ClusterStart(v, sectors, org, t, fsize, k);
    ClusterSectors(v, sectors, org, t, fsize, k, j);
    if p % 512 != 0 {
      assert p / 512 == k + j;
      ModShift(k, j, v.csize);
    }
  }

  /** The next link of the chain, as long as the file goes on past this cluster. */
  lemma NextCluster(v: Volume, sectors: seq<Sector>, org: u32, t: Track, fsize: nat, k: nat)
    requires v.csize > 0 && InCluster(v, k) == 0
    requires Follows(LocatorOf(v, sectors, org), |sectors|, t, fsize) && k < |t.lbas|
    requires 512 * (k + v.csize) < fsize
    ensures k + v.csize <= |t.lbas|
    ensures var e := FatEntry(v, sectors, t.owners[k]);
            if k + v.csize < |t.lbas| then e == t.owners[k + v.csize] && e >= 2 && Clust2Sect(v, e) != 0
            else e <= 1 || Clust2Sect(v, e) == 0
  {
    ClusterSectors(v, sectors, org, t, fsize, k, v.csize - 1);
    ModNext(k, v.csize);
    ClusterStart(v, sectors, org, t, fsize, k + v.csize);
  }
}
