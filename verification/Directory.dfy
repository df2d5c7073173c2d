/**
  Directories: walking the entries of a table, finding a name, and following a path.
*/
module Directory {
  import opened Bytes
  import opened Arith
  import opened DiskIo
  import opened Fat
  import opened FileImage
  import opened Names

  const MAX_ENTRIES := 0x1_0000
  const MAX_SECTORS := 0x1000

  type Entry = e: seq<byte> | |e| == 32 witness seq(32, _ => 0)

  predicate IsVolumeLabel(e: Entry) {
    e[11] / 0x08 % 2 == 1
  }

  predicate IsDirectory(e: Entry) {
    e[11] / 0x10 % 2 == 1
  }

  /** The start cluster recorded in an entry. */
  function EntryCluster(v: Volume, e: Entry): u32 {
    (if v.fsType == Fat32 then LdWord(e[20..22]) * 0x1_0000 else 0) + LdWord(e[26..28])
  }

  // ---------- a directory table as a list of entries ----------

  datatype Ending = EndOfTable | BadLink

  /** The sectors of a table. A start cluster of 0 means the root: a fixed run of sectors, except on FAT32. */
  function TableStart(v: Volume, sclust: u32): u32 {
    if sclust == 0 && v.fsType == Fat32 then v.dirbase else sclust
  }

  function StaticSectors(v: Volume): nat {
    if v.nRootdir == 0 then 1 else (v.nRootdir + 15) / 16
  }

  function TableTrack(v: Volume, sectors: seq<Sector>, sclust: u32): Track
    requires v.csize > 0
  {
    var c := TableStart(v, sclust);
    if c == 0 then
      Track(seq(StaticSectors(v), i requires 0 <= i => v.dirbase + i), seq(StaticSectors(v), _ => 0))
    else TrackOf(v, ChainOf(v, sectors, c, 512 * MAX_SECTORS))
  }

  function TableEnding(v: Volume, sectors: seq<Sector>, sclust: u32): Ending
    requires v.csize > 0
  {
    var c := TableStart(v, sclust);
    if c == 0 || After(v, sectors, c, ChainOf(v, sectors, c, 512 * MAX_SECTORS)) >= v.nFatent
    then EndOfTable else BadLink
  }

  /** The volume and its root directory lie on the disk. */
  predicate TablesOnDisk(v: Volume, size: nat) {
    && DataOnDisk(v, size)
    && if v.fsType == Fat32 then IsCluster(v, v.dirbase) else 0 < v.dirbase && v.dirbase + StaticSectors(v) <= size
  }

  // ---------- finding a name ----------

  datatype Lookup = Found(entry: Entry) | Missing | Damaged

  /**
    The first entry from `k` on with this name that is not a volume label. A zero first byte ends the
    table; so does the last of the entries that a 16-bit index can count.
  */
  function LookupFrom(bytes: seq<byte>, ending: Ending, k: nat, name: Sfn): Lookup
    requires k <= MAX_ENTRIES
    decreases MAX_ENTRIES - k
  {
    if k == MAX_ENTRIES then Missing
    else if 32 * k + 32 > |bytes| then (if ending == EndOfTable then Missing else Damaged)
    else
      var e := bytes[32 * k..32 * k + 32];
      if e[0] == 0 then Missing
      else if !IsVolumeLabel(e) && e[..11] == name then Found(e)
      else LookupFrom(bytes, ending, k + 1, name)
  }

  predicate StartInRange(v: Volume, sclust: u32) {
    sclust != 1 && sclust < v.nFatent
  }

  /** A lookup that succeeds returns the first entry that matches, with no end mark before it. */
  lemma {:induction false} LookupIsFirst(bytes: seq<byte>, ending: Ending, k: nat, name: Sfn) returns (m: nat)
    requires k <= MAX_ENTRIES && LookupFrom(bytes, ending, k, name).Found?
    ensures k <= m < MAX_ENTRIES && 32 * m + 32 <= |bytes|
    ensures LookupFrom(bytes, ending, k, name) == Found(bytes[32 * m..32 * m + 32])
    ensures Matches(bytes[32 * m..32 * m + 32], name)
    ensures forall i | k <= i < m :: !Stops(bytes[32 * i..32 * i + 32], name)
    decreases MAX_ENTRIES - k
  {
    if Stops(bytes[32 * k..32 * k + 32], name) {
      m := k;
    } else {
      m := LookupIsFirst(bytes, ending, k + 1, name);
    }
  }

  predicate Matches(e: Entry, name: Sfn) {
    e[0] != 0 && !IsVolumeLabel(e) && e[..11] == name
  }

  predicate Stops(e: Entry, name: Sfn) {
    e[0] == 0 || Matches(e, name)
  }

  // ---------- the walk of the directory cursor ----------

  datatype Step = To(clust: u32, sect: u32) | End(ending: Ending)

  /** Two numbers have no bit in common. */
  predicate NoCommonBit(a: nat, b: nat)
    decreases a
  {
    a == 0 || ((a % 2 == 0 || b % 2 == 0) && NoCommonBit(a / 2, b / 2))
  }

  /**
    The code's test whether sector `k` of a table is the first of a cluster: `k` masked with the cluster size
    minus one is zero. For a cluster size of zero the mask is all ones.
  */
  predicate StartsCluster(v: Volume, k: nat) {
    if v.csize == 0 then k == 0 else NoCommonBit(k, v.csize - 1)
  }

  lemma {:induction false} MaskIsRemainder(k: nat, c: nat)
    requires PowerOfTwo(c)
    ensures NoCommonBit(k, c - 1) <==> k % c == 0
    decreases c
  {
    if c == 1 {
      NothingInCommon(k);
    } else {
      MaskIsRemainder(k / 2, c / 2);
      ModTwice(k, c / 2);
    }
  }

  lemma {:induction false} NothingInCommon(k: nat)
    ensures NoCommonBit(k, 0)
  {
    if k > 0 {
      NothingInCommon(k / 2);
    }
  }

  /** Where the cluster size is a power of two, as it should be, the mask takes the place in the cluster. */
  lemma StartsClusterMeans(v: Volume, k: nat)
    requires PowerOfTwo(v.csize)
    ensures StartsCluster(v, k) <==> InCluster(v, k) == 0
  {
    MaskIsRemainder(k, v.csize);
  }

  /** What the code does when the cursor moves to the next sector, the `k`-th of the table. */
  function NextSectorStep(v: Volume, sectors: seq<Sector>, clust: u32, sect: u32, k: nat): Step {
    if clust == 0 then
      if 16 * k >= v.nRootdir then End(EndOfTable) else To(0, U32(sect + 1))
    else if StartsCluster(v, k) then
      var c := FatEntry(v, sectors, clust);
      if c <= 1 then End(BadLink) else if c >= v.nFatent then End(EndOfTable) else To(c, Clust2Sect(v, c))
    else To(clust, U32(sect + 1))
  }

  type Stepper = (u32, u32, nat) -> Step

  function StepperOf(v: Volume, sectors: seq<Sector>): Stepper {
    (clust: u32, sect: u32, k: nat) => NextSectorStep(v, sectors, clust, sect, k)
  }

  ghost predicate StepOk(step: Stepper, t: Track, k: nat)
    requires 0 < k < |t.lbas| == |t.owners|
  {
    t.lbas[k - 1] < TWO32 && t.lbas[k] < TWO32 && step(t.owners[k - 1], t.lbas[k - 1], k) == To(t.owners[k], t.lbas[k])
  }

  /** The sector steps of the code follow this track, to its ending or to the last sector ever visited. */
  ghost predicate Walks(step: Stepper, t: Track, ending: Ending) {
    && |t.lbas| == |t.owners| > 0
    && (forall k | 0 < k < |t.lbas| :: StepOk(step, t, k))
    && (var m := |t.lbas| - 1;
        t.lbas[m] < TWO32 &&
        (|t.lbas| < MAX_SECTORS ==> step(t.owners[m], t.lbas[m], m + 1) == End(ending)))
    && (forall k | 0 <= k < |t.lbas| :: 0 < t.lbas[k] < TWO32)
  }

  /** The step to sector `k`, or past the table. */
  lemma WalkAt(step: Stepper, t: Track, ending: Ending, k: nat)
    requires Walks(step, t, ending) && 0 < k <= |t.lbas|
    ensures |t.lbas| == |t.owners| && 0 < t.lbas[k - 1] < TWO32
    ensures k < |t.lbas| ==>
              t.lbas[k] < TWO32 && step(t.owners[k - 1], t.lbas[k - 1], k) == To(t.owners[k], t.lbas[k])
    ensures k == |t.lbas| < MAX_SECTORS ==> step(t.owners[k - 1], t.lbas[k - 1], k) == End(ending)
  {
    if k < |t.lbas| {
      assert StepOk(step, t, k);
    }
  }

  lemma StaticWalks(v: Volume, sectors: seq<Sector>)
    requires TablesOnDisk(v, |sectors|) && v.fsType != Fat32
    ensures OnDisk(sectors, TableTrack(v, sectors, 0).lbas)
    ensures Walks(StepperOf(v, sectors), TableTrack(v, sectors, 0), EndOfTable)
  {
    var t, step := TableTrack(v, sectors, 0), StepperOf(v, sectors);
    forall k | 0 < k < |t.lbas|
      ensures StepOk(step, t, k)
    {
      assert step(0, t.lbas[k - 1], k) == NextSectorStep(v, sectors, 0, t.lbas[k - 1], k);
    }
    var m := |t.lbas| - 1;
    assert step(0, t.lbas[m], m + 1) == NextSectorStep(v, sectors, 0, t.lbas[m], m + 1);
  }

  lemma StepInside(v: Volume, sectors: seq<Sector>, clust: u32, sect: u32, k: nat)
    requires PowerOfTwo(v.csize) && clust != 0 && InCluster(v, k) != 0 && sect + 1 < TWO32
    ensures NextSectorStep(v, sectors, clust, sect, k) == To(clust, sect + 1)
  {
    StartsClusterMeans(v, k);
  }

  lemma StepAcross(v: Volume, sectors: seq<Sector>, clust: u32, sect: u32, k: nat)
    requires PowerOfTwo(v.csize) && clust != 0 && InCluster(v, k) == 0
    ensures var c := FatEntry(v, sectors, clust);
            NextSectorStep(v, sectors, clust, sect, k)
              == if IsCluster(v, c) then To(c, Clust2Sect(v, c)) else End(if c <= 1 then BadLink else EndOfTable)
  {
    StartsClusterMeans(v, k);
  }

  lemma ChainStepOk(v: Volume, sectors: seq<Sector>, c: u32, chain: seq<u32>, k: nat)
    requires DataOnDisk(v, |sectors|) && IsChain(v, sectors, c, chain)
    requires 0 < k < |Lbas(v, chain)| == |Owners(v, chain)|
    ensures StepOk(StepperOf(v, sectors), TrackOf(v, chain), k)
  {
    hide DataOnDisk, FatEntry, Clust2Sect, NextSectorStep;
    var t := TrackOf(v, chain);
    var clust, sect := t.owners[k - 1], t.lbas[k - 1];
    DataPositive(v, |sectors|);
    LbasOnDisk(v, sectors, chain);
    SectorOfChain(v, chain, k - 1);
    SectorOfChain(v, chain, k);
    assert IsCluster(v, clust) && IsCluster(v, t.owners[k]);
    if InCluster(v, k) != 0 {
      ModPred(k, v.csize);
      StepInside(v, sectors, clust, sect, k);
    } else {
      ClusterBoundary(v, sectors, c, chain, k);
      StepAcross(v, sectors, clust, sect, k);
    }
  }

  lemma DataPositive(v: Volume, size: nat)
    requires DataOnDisk(v, size)
    ensures v.database > 0 && PowerOfTwo(v.csize) && size <= TWO32 && v.nFatent >= 2
  {
  }

  lemma ChainEnds(v: Volume, sectors: seq<Sector>, c: u32, chain: seq<u32>)
    requires DataOnDisk(v, |sectors|) && IsChain(v, sectors, c, chain) && chain != []
    requires !IsCluster(v, After(v, sectors, c, chain))
    ensures var t, e := TrackOf(v, chain), After(v, sectors, c, chain); var m := |t.lbas|;
            && m == |t.owners| > 0
            && 0 <= t.lbas[m - 1] < TWO32
            && NextSectorStep(v, sectors, t.owners[m - 1], t.lbas[m - 1], m)
                 == End(if e >= v.nFatent then EndOfTable else BadLink)
  {
    hide DataOnDisk, FatEntry, Clust2Sect, NextSectorStep;
    var t := TrackOf(v, chain);
    var m := |chain| * v.csize;
    DataPositive(v, |sectors|);
    Lengths(v, chain);
    MulAtLeast(|chain|, v.csize);
    LbasOnDisk(v, sectors, chain);
    SectorOfChain(v, chain, m - 1);
    DivUnique(m, |chain|, v.csize);
    ClusterBoundary(v, sectors, c, chain, m);
    StepAcross(v, sectors, t.owners[m - 1], t.lbas[m - 1], m);
  }

  /** Whatever the FAT holds, the walk through a directory follows the sectors of its table. */
  lemma TableWalks(v: Volume, sectors: seq<Sector>, sclust: u32)
    requires TablesOnDisk(v, |sectors|) && StartInRange(v, sclust)
    ensures OnDisk(sectors, TableTrack(v, sectors, sclust).lbas)
    ensures Walks(StepperOf(v, sectors), TableTrack(v, sectors, sclust), TableEnding(v, sectors, sclust))
  {
    hide FatEntry, Clust2Sect, NextSectorStep, Links, ClustersFor;
    var c := TableStart(v, sclust);
    DataPositive(v, |sectors|);
    if c == 0 {
      StaticWalks(v, sectors);
    } else {
      var chain := ChainOf(v, sectors, c, 512 * MAX_SECTORS);
      var t, step := TrackOf(v, chain), StepperOf(v, sectors);
      ChainOfProper(v, sectors, c, 512 * MAX_SECTORS);
      Lengths(v, chain);
      LbasOnDisk(v, sectors, chain);
      assert chain != [];
      MulAtLeast(|chain|, v.csize);
      forall k | 0 < k < |t.lbas|
        ensures StepOk(step, t, k)
      {
        ChainStepOk(v, sectors, c, chain, k);
      }
      if |t.lbas| < MAX_SECTORS {
        ChainEnds(v, sectors, c, chain);
      }
    }
  }

  // ---------- looking up and following names ----------

  /** What the code does when the cursor moves on from entry `k`. */
  function EntryStep(v: Volume, sectors: seq<Sector>, clust: u32, sect: u32, k: nat): Step
    requires k < MAX_ENTRIES
  {
    if k + 1 == MAX_ENTRIES || sect == 0 then End(EndOfTable)
    else if (k + 1) % 16 != 0 then To(clust, sect)
    else NextSectorStep(v, sectors, clust, sect, (k + 1) / 16)
  }

  /** The lookup from entry `k` on, on any volume: a sector that is not there ends it. */
  function Search(v: Volume, sectors: seq<Sector>, clust: u32, sect: u32, k: nat, name: Sfn): Lookup
    requires k < MAX_ENTRIES
    decreases MAX_ENTRIES - k
  {
    match Peek(sectors, sect, k % 16 * 32, 32)
    case None => Damaged
    case Some(e) =>
      if e[0] == 0 then Missing
      else if !IsVolumeLabel(e) && e[..11] == name then Found(e)
      else
        match EntryStep(v, sectors, clust, sect, k)
        case To(c, s) => Search(v, sectors, c, s, k + 1, name)
        case End(ending) => if ending == EndOfTable then Missing else Damaged
  }

  /** The first sector of a directory. */
  function TableSector(v: Volume, sclust: u32): u32 {
    var c := TableStart(v, sclust);
    if c == 0 then v.dirbase else Clust2Sect(v, c)
  }

  /** Looking a name up in the directory that starts at a cluster. */
  function LookupAt(v: Volume, sectors: seq<Sector>, sclust: u32, name: Sfn): Lookup {
    if !StartInRange(v, sclust) then Damaged
    else Search(v, sectors, TableStart(v, sclust), TableSector(v, sclust), 0, name)
  }

  // ---------- the lookup in a table ----------

  /** The same on a volume that lies on the disk: the first match among the entries of the table. */
  function LookupIn(v: Volume, sectors: seq<Sector>, sclust: u32, name: Sfn): Lookup
    requires TablesOnDisk(v, |sectors|)
  {
    if !StartInRange(v, sclust) then Damaged
    else
      TableWalks(v, sectors, sclust);
      LookupFrom(Content(sectors, TableTrack(v, sectors, sclust).lbas), TableEnding(v, sectors, sclust), 0, name)
  }

  /** The entry at place `k` of a table. */
  lemma EntryAt(sectors: seq<Sector>, lbas: seq<nat>, k: nat)
    requires OnDisk(sectors, lbas) && k / 16 < |lbas| && lbas[k / 16] < TWO32
    ensures 32 * k + 32 <= |Content(sectors, lbas)|
    ensures Peek(sectors, lbas[k / 16], k % 16 * 32, 32) == Some(Content(sectors, lbas)[32 * k..32 * k + 32])
  {
    assert 32 * k / 512 == k / 16 && 32 * k % 512 == k % 16 * 32;
    ContentSlice(sectors, lbas, 32 * k, 32);
  }

  /** From entry `k` of a table the cursor moves to entry `k + 1`, or meets the end that the lookup sees. */
  lemma EntryStepInTable(v: Volume, sectors: seq<Sector>, t: Track, ending: Ending, k: nat)
    requires k < MAX_ENTRIES && Walks(StepperOf(v, sectors), t, ending) && k / 16 < |t.lbas|
    ensures |t.lbas| == |t.owners| && t.lbas[k / 16] < TWO32
    ensures var step := EntryStep(v, sectors, t.owners[k / 16], t.lbas[k / 16], k);
            if k + 1 == MAX_ENTRIES then step == End(EndOfTable)
            else if (k + 1) / 16 < |t.lbas| then
              t.lbas[(k + 1) / 16] < TWO32 && step == To(t.owners[(k + 1) / 16], t.lbas[(k + 1) / 16])
            else step == End(ending) && 512 * |t.lbas| == 32 * (k + 1)
  {
    hide NextSectorStep;
    var i := k / 16;
    WalkAt(StepperOf(v, sectors), t, ending, i + 1);
    if (k + 1) % 16 != 0 {
      assert (k + 1) / 16 == i;
    } else {
      assert (k + 1) / 16 == i + 1;
    }
  }

  lemma {:induction false} SearchIsLookup(v: Volume, sectors: seq<Sector>, t: Track, ending: Ending, k: nat, name: Sfn)
    requires k < MAX_ENTRIES && Walks(StepperOf(v, sectors), t, ending) && OnDisk(sectors, t.lbas)
    requires k / 16 < |t.lbas| == |t.owners| && t.lbas[k / 16] < TWO32
    ensures Search(v, sectors, t.owners[k / 16], t.lbas[k / 16], k, name)
         == LookupFrom(Content(sectors, t.lbas), ending, k, name)
    decreases MAX_ENTRIES - k
  {
    hide Walks, StepperOf, OnDisk, Content, EntryStep, LookupFrom, IsVolumeLabel;
    var bytes := Content(sectors, t.lbas);
    EntryAt(sectors, t.lbas, k);
    LookupStep(bytes, ending, k, name, bytes[32 * k..32 * k + 32]);
    EntryStepInTable(v, sectors, t, ending, k);
    LookupEnd(bytes, ending, k + 1, name);
    if k + 1 < MAX_ENTRIES && (k + 1) / 16 < |t.lbas| {
      SearchIsLookup(v, sectors, t, ending, k + 1, name);
    }
  }

  lemma StartsAtTable(v: Volume, sectors: seq<Sector>, sclust: u32)
    requires TablesOnDisk(v, |sectors|) && StartInRange(v, sclust)
    ensures var t := TableTrack(v, sectors, sclust);
            && |t.lbas| == |t.owners| > 0
            && TableStart(v, sclust) == t.owners[0] && TableSector(v, sclust) == t.lbas[0]
  {
    TableWalks(v, sectors, sclust);
    var clust := TableStart(v, sclust);
    if clust != 0 {
      var chain := ChainOf(v, sectors, clust, 512 * MAX_SECTORS);
      ChainOfProper(v, sectors, clust, 512 * MAX_SECTORS);
      Lengths(v, chain);
      SectorOfChain(v, chain, 0);
      ClusterBoundary(v, sectors, clust, chain, 0);
    }
  }

  /** On a volume that lies on the disk, the lookup of the code is the lookup in the table. */
  lemma LookupOnDisk(v: Volume, sectors: seq<Sector>, sclust: u32, name: Sfn)
    requires TablesOnDisk(v, |sectors|)
    ensures LookupAt(v, sectors, sclust, name) == LookupIn(v, sectors, sclust, name)
  {
    hide Search, LookupFrom, Walks, TableTrack, TableEnding, OnDisk;
    TablesPositive(v, |sectors|);
    if StartInRange(v, sclust) {
      hide TablesOnDisk;
      TableWalks(v, sectors, sclust);
      StartsAtTable(v, sectors, sclust);
      SearchIsLookup(v, sectors, TableTrack(v, sectors, sclust), TableEnding(v, sectors, sclust), 0, name);
    }
  }

  lemma LookupStep(bytes: seq<byte>, ending: Ending, k: nat, name: Sfn, e: Entry)
    requires k < MAX_ENTRIES && 32 * k + 32 <= |bytes| && e == bytes[32 * k..32 * k + 32]
    ensures LookupFrom(bytes, ending, k, name)
         == if e[0] == 0 then Missing else if !IsVolumeLabel(e) && e[..11] == name then Found(e)
            else LookupFrom(bytes, ending, k + 1, name)
  {
  }

  lemma LookupEnd(bytes: seq<byte>, ending: Ending, k: nat, name: Sfn)
    requires k <= MAX_ENTRIES
    ensures k == MAX_ENTRIES ==> LookupFrom(bytes, ending, k, name) == Missing
    ensures k < MAX_ENTRIES && |bytes| == 32 * k ==>
              LookupFrom(bytes, ending, k, name) == if ending == EndOfTable then Missing else Damaged
  {
  }

  lemma TablesPositive(v: Volume, size: nat)
    requires TablesOnDisk(v, size)
    ensures v.csize > 0
  {
  }

  /** The names of a path, cut out from `p` on. */
  function PathNames(cvt: CodePage, path: seq<byte>, p: nat): (names: seq<Sfn>)
    ensures names != []
    decreases |path| - p
  {
    var s := NameAt(cvt, path, p);
    [s.name] + if s.Last() then [] else PathNames(cvt, path, s.next)
  }

  /** Walking down the directory tree along a list of names; only directories can be walked through. */
  function Resolve(v: Volume, sectors: seq<Sector>, sclust: u32, names: seq<Sfn>): Lookup
    requires names != []
    decreases |names|
  {
    var l := LookupAt(v, sectors, sclust, names[0]);
    if l.Found? && |names| > 1 then
      if IsDirectory(l.entry) then Resolve(v, sectors, EntryCluster(v, l.entry), names[1..]) else Missing
    else l
  }

  function SkipSpaces(path: seq<byte>, p: nat): (q: nat)
    ensures p <= q && At(path, q) != SPACE
    decreases |path| - p
  {
    if At(path, p) == SPACE then SkipSpaces(path, p + 1) else p
  }

  /** Where the names of a path start: behind leading spaces and one separator. */
  function PathStart(path: seq<byte>): nat {
    var p := SkipSpaces(path, 0);
    if At(path, p) == SLASH then p + 1 else p
  }

  predicate IsRootPath(path: seq<byte>) {
    At(path, PathStart(path)) < SPACE
  }

  // ---------- the file a path names ----------

  /** The bytes of the file of an entry, as far as its chain goes, on a volume that has clusters. */
  function FileData(v: Volume, sectors: seq<Sector>, e: Entry): seq<byte> {
    if v.csize == 0 then []
    else
      var size := LdDword(e[28..32]);
      var lbas := TrackOf(v, ChainOf(v, sectors, EntryCluster(v, e), size)).lbas;
      if OnDisk(sectors, lbas) then Content(sectors, lbas)[..Min(size, |Content(sectors, lbas)|)] else []
  }

  /** The file that a path names, if there is one. */
  function NamedFile(v: Volume, sectors: seq<Sector>, cvt: CodePage, path: seq<byte>): Option<seq<byte>> {
    if IsRootPath(path) then None
    else
      match Resolve(v, sectors, 0, PathNames(cvt, path, PathStart(path)))
      case Found(e) => if e[0] == 0 || IsDirectory(e) then None else Some(FileData(v, sectors, e))
      case _ => None
  }

  /** A file has all its bytes exactly if its chain has all the clusters that its size needs. */
  lemma WholeFile(v: Volume, sectors: seq<Sector>, e: Entry)
    requires DataOnDisk(v, |sectors|)
    ensures var size := LdDword(e[28..32]);
            |FileData(v, sectors, e)| == size <==>
              |ChainOf(v, sectors, EntryCluster(v, e), size)| == ClustersFor(v, size)
  {
    hide LdDword, ChainOf, ClustersFor, DataOnDisk, FatEntry, Lbas, OnDisk;
    DataPositive(v, |sectors|);
    var size: nat := LdDword(e[28..32]);
    var chain := ChainOf(v, sectors, EntryCluster(v, e), size);
    ChainInside(v, sectors, EntryCluster(v, e), size);
    Lengths(v, chain);
    LbasOnDisk(v, sectors, chain);
    ChainSuffices(v, size, |chain|);
  }

  lemma ChainInside(v: Volume, sectors: seq<Sector>, c: u32, size: nat)
    requires v.csize > 0
    ensures var chain := ChainOf(v, sectors, c, size);
            |chain| <= ClustersFor(v, size) && forall i | 0 <= i < |chain| :: IsCluster(v, chain[i])
  {
    ChainOfProper(v, sectors, c, size);
  }

  lemma ChainSuffices(v: Volume, size: nat, k: nat)
    requires v.csize > 0 && k <= ClustersFor(v, size)
    ensures size <= 512 * (k * v.csize) <==> k == ClustersFor(v, size)
  {
    var n, m := ClustersFor(v, size), (size + 511) / 512;
    DivBounds(m + v.csize - 1, v.csize);
    if k < n {
      MulMono(k, n - 1, v.csize);
    }
  }

  // ---------- the directory object ----------

  datatype DirResult = DirOk | DirNoFile | DirDiskErr

  class DirObj {
    const disk: Disk
    const vol: Volume
    const fn: array<byte>
    var index: nat
    var sclust: u32
    var clust: u32
    var sect: u32

    constructor (disk: Disk, vol: Volume)
      ensures this.disk == disk && this.vol == vol && fresh(fn) && fn.Length == 12
    {
      this.disk, this.vol := disk, vol;
      fn := new byte[12](_ => 0);
      index, sclust, clust, sect := 0, 0, 0, 0;
    }

    /** Sets the cursor to the first entry of the directory that starts at `sclust`. */
    method DirRewind() returns (ok: bool)
      modifies this`index, this`clust, this`sect
      ensures ok <==> StartInRange(vol, sclust)
      ensures ok ==> index == 0 && clust == TableStart(vol, sclust)
      ensures ok ==> sect == if clust == 0 then vol.dirbase else Clust2Sect(vol, clust)
    {
      index := 0;
      var clst := sclust;
      if clst == 1 || clst >= vol.nFatent {
        return false;
      }
      if clst == 0 && vol.fsType == Fat32 {
        clst := vol.dirbase;
      }
      clust := clst;
      sect := if clst != 0 then Clust2Sect(vol, clst) else vol.dirbase;
      ok := true;
    }

    /** Moves the cursor to the next entry. */
    method DirNext() returns (res: DirResult)
      requires !disk.writing && index < MAX_ENTRIES
      modifies this`index, this`clust, this`sect, disk`block, disk`pos
      ensures res == DirOk ==>
                && index == old(index) + 1 < MAX_ENTRIES
                && EntryStep(vol, disk.sectors, old(clust), old(sect), old(index)) == To(clust, sect)
      ensures res != DirOk ==>
                || (!disk.healthy && res == DirDiskErr)
                || (match EntryStep(vol, disk.sectors, old(clust), old(sect), old(index))
                    case To(_, _) => false
                    case End(ending) => res == if ending == EndOfTable then DirNoFile else DirDiskErr)
    {
      hide FatEntry, Clust2Sect, StartsCluster;
      var i := (index + 1) % MAX_ENTRIES;
      if i == 0 || sect == 0 {
        return DirNoFile;
      }
      if i % 16 == 0 {
        sect := U32(sect + 1);
        if clust == 0 {
          if i >= vol.nRootdir {
            return DirNoFile;
          }
        } else if StartsCluster(vol, i / 16) {
          var clst := GetFat(disk, vol, clust);
          if clst <= 1 {
            return DirDiskErr;
          }
          if clst >= vol.nFatent {
            return DirNoFile;
          }
          clust := clst;
          sect := Clust2Sect(vol, clst);
        }
      }
      index := i;
      res := DirOk;
    }

    /** A result code and buffer that report a lookup; a transfer error may strike first. */
    ghost predicate Reports(res: DirResult, dir: seq<byte>, l: Lookup) {
      || (match l
          case Found(e) => res == DirOk && dir == e
          case Missing => res == DirNoFile
          case Damaged => res == DirDiskErr)
      || (!disk.healthy && res == DirDiskErr)
    }

    /**
      Finds the name in `fn` in the directory that starts at `sclust`. It ends on every disk image, and reads
      the entries of the directory in order up to the first match, the end, or a sector that is not there.
    */
    method DirFind(dir: array<byte>) returns (res: DirResult)
      requires !disk.writing
      requires fn.Length == 12 && dir.Length == 32 && dir != fn
      modifies dir, this`index, this`clust, this`sect, disk`block, disk`pos
      ensures Reports(res, dir[..], LookupAt(vol, disk.sectors, sclust, fn[..11]))
    {
      hide IsVolumeLabel, EntryStep, Clust2Sect;
      var ok := DirRewind();
      if !ok {
        return DirDiskErr;
      }
      ghost var target, name := LookupAt(vol, disk.sectors, sclust, fn[..11]), fn[..11];
      res := DirOk;
      while res == DirOk
        invariant res == DirOk ==>
                    index < MAX_ENTRIES && Search(vol, disk.sectors, clust, sect, index, name) == target
        invariant res != DirOk ==> Reports(res, dir[..], target)
        decreases if res == DirOk then MAX_ENTRIES - index else -1
      {
        ok := disk.ReadP(dir, 0, sect, index % 16 * 32, 32);
        if !ok { return DirDiskErr; }
        ghost var e: Entry := dir[..];
        assert e == dir[0..32] && e[..11] == dir[..11];
        if dir[0] == 0 { return DirNoFile; }
        if !IsVolumeLabel(dir[..]) && dir[..11] == fn[..11] { return; }
        res := DirNext();
      }
    }

    /** Follows a path from the root; an empty path is the root itself, reported as an entry of zeros. */
    method FollowPath(cvt: CodePage, path: seq<byte>, dir: array<byte>) returns (res: DirResult)
      requires !disk.writing
      requires fn.Length == 12 && dir.Length == 32 && dir != fn
      modifies dir, fn, this`index, this`sclust, this`clust, this`sect, disk`block, disk`pos
      ensures IsRootPath(path) ==> dir[0] == 0 && res == if vol.nFatent > 0 then DirOk else DirDiskErr
      ensures !IsRootPath(path) ==>
                Reports(res, dir[..], Resolve(vol, disk.sectors, 0, PathNames(cvt, path, PathStart(path))))
    {
      hide LookupAt, NameAt, PathNames;
      var p := 0;
      while At(path, p) == SPACE
        invariant SkipSpaces(path, p) == SkipSpaces(path, 0)
        decreases |path| - p
      {
        p := p + 1;
      }
      if At(path, p) == SLASH {
        p := p + 1;
      }
      sclust := 0;
      if At(path, p) < SPACE {
        var ok := DirRewind();
        dir[0] := 0;
        res := if ok then DirOk else DirDiskErr;
        return;
      }
      ghost var target := Resolve(vol, disk.sectors, 0, PathNames(cvt, path, p));
      while true
        invariant Resolve(vol, disk.sectors, sclust, PathNames(cvt, path, p)) == target
        decreases |path| - p
      {
        PathNamesStep(cvt, path, p);
        p := CreateName(cvt, path, p, fn);
        res := DirFind(dir);
        if res != DirOk || fn[11] != 0 { return; }
        if !IsDirectory(dir[..]) { return DirNoFile; }
        sclust := EntryCluster(vol, dir[..]);
      }
    }
  }

  lemma PathNamesStep(cvt: CodePage, path: seq<byte>, p: nat)
    ensures var s := NameAt(cvt, path, p); var names := PathNames(cvt, path, p);
            names[0] == s.name
            && (if s.Last() then |names| == 1
                else |names| > 1 && names[1..] == PathNames(cvt, path, s.next) && p < s.next <= |path|)
  {
  }
}
