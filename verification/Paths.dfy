/**
  Names, paths and directory entries, by their bytes.
*/
module Paths {
  import opened Bytes
  import opened Arith
  import opened Fat
  import opened FileImage
  import opened Names
  import opened Directory
  import opened PetitFat

  // ---------- entries ----------

  /** The start cluster that an entry records: two bytes, and on FAT32 two more. */
  function ClusterIn(t: FatType, e: Entry): nat {
    e[26] as int + 0x100 * e[27] as int
    + if t == Fat32 then 0x1_0000 * e[20] as int + 0x100_0000 * e[21] as int else 0
  }

  lemma EntryByBytes(v: Volume, e: Entry)
    ensures EntryCluster(v, e) == ClusterIn(v.fsType, e)
    ensures IsDirectory(e) <==> e[11] % 32 >= 16
    ensures IsVolumeLabel(e) <==> e[11] % 16 >= 8
  {
    hide LdWord;
    WordOf(e, 20);
    WordOf(e, 26);
    Attributes(e[11]);
  }

  lemma WordOf(e: Entry, i: nat)
    requires i + 2 <= 32
    ensures LdWord(e[i..i + 2]) == e[i] as int + 0x100 * e[i + 1] as int
  {
  }

  lemma Attributes(a: byte)
    ensures a / 0x10 % 2 == 1 <==> a % 32 >= 16
    ensures a / 0x08 % 2 == 1 <==> a % 16 >= 8
  {
  }

  /** Where an opened file starts and how long it is, from the bytes of its entry. */
  lemma OpenedByBytes(fs: FatFs, e: Entry)
    requires fs.OpenedAs(e)
    ensures fs.orgClust == ClusterIn(fs.vol.fsType, e)
    ensures fs.fsize == e[28] as int + 0x100 * e[29] as int + 0x1_0000 * e[30] as int + 0x100_0000 * e[31] as int
  {
    EntryByBytes(fs.vol, e);
    assert e[28..32][0] == e[28] && e[28..32][1] == e[29] && e[28..32][2] == e[30] && e[28..32][3] == e[31];
  }

  // ---------- one directory ----------

  /** An entry at which the search for a name stops: the end mark, or an entry with the name and no label bit. */
  predicate Halts(e: Entry, name: Sfn) {
    e[0] == 0 || (e[11] % 16 < 8 && e[..11] == name)
  }

  /** Entry `m` of a table. */
  function EntryOf(bytes: seq<byte>, m: nat): Entry
    requires 32 * m + 32 <= |bytes|
  {
    bytes[32 * m..32 * m + 32]
  }

  /**
    The search for a name, with `m` the first place where it stops: at an entry, behind the table, or behind
    the 65536 entries that the index can count.
  */
  lemma {:induction false} LookupExact(bytes: seq<byte>, ending: Ending, k: nat, name: Sfn, m: nat)
    requires k <= m <= 65536 && 32 * m <= |bytes|
    requires forall i | k <= i < m :: !Halts(EntryOf(bytes, i), name)
    requires m < 65536 && 32 * m + 32 <= |bytes| ==> Halts(EntryOf(bytes, m), name)
    ensures LookupFrom(bytes, ending, k, name)
         == if m == 65536 then Missing
            else if 32 * m + 32 > |bytes| then (if ending == EndOfTable then Missing else Damaged)
            else if bytes[32 * m] == 0 then Missing
            else Found(bytes[32 * m..32 * m + 32])
    decreases m - k
  {
    if 32 * k + 32 <= |bytes| && k < 65536 {
      var e := EntryOf(bytes, k);
      assert e[0] == bytes[32 * k] && IsVolumeLabel(e) == (e[11] % 16 >= 8);
      if k < m {
        assert !Halts(EntryOf(bytes, k), name);
        LookupExact(bytes, ending, k + 1, name, m);
      }
    }
  }

  /** The root directory before FAT32: as many sectors as its entries fill, one after the other. */
  lemma FixedRoot(v: Volume, sectors: seq<Sector>)
    requires v.csize > 0 && v.fsType != Fat32 && v.nRootdir > 0
    ensures var lbas := TableTrack(v, sectors, 0).lbas;
            && |lbas| == (v.nRootdir + 15) / 16 && TableEnding(v, sectors, 0) == EndOfTable
            && forall i | 0 <= i < |lbas| :: lbas[i] == v.dirbase + i
  {
  }

  /** On FAT32 it is a chain like any other, from the recorded root cluster on. */
  lemma LinkedRoot(v: Volume, sectors: seq<Sector>)
    requires v.csize > 0 && v.fsType == Fat32 && v.dirbase != 0
    ensures TableTrack(v, sectors, 0) == TableTrack(v, sectors, v.dirbase)
    ensures TableTrack(v, sectors, 0) == TrackOf(v, ChainOf(v, sectors, v.dirbase, 512 * 4096))
  {
  }

  ghost predicate Disjoint(a: nat, b: nat) {
    forall i: nat :: !Both(a, b, i)
  }

  predicate Both(a: nat, b: nat, i: nat) {
    Bit(a, i) && Bit(b, i)
  }

  /** The mask test of the directory walk, bit by bit. */
  lemma {:induction false} MaskByBits(a: nat, b: nat)
    ensures NoCommonBit(a, b) <==> Disjoint(a, b)
    decreases a
  {
    if a == 0 {
      NoBits();
    } else {
      MaskByBits(a / 2, b / 2);
      if NoCommonBit(a, b) {
        forall i: nat
          ensures !Both(a, b, i)
        {
          assert i > 0 ==> !Both(a / 2, b / 2, i - 1);
        }
      } else if a % 2 == 1 && b % 2 == 1 {
        assert Both(a, b, 0);
      } else {
        var i: nat :| Both(a / 2, b / 2, i);
        assert Both(a, b, i + 1);
      }
    }
  }

  lemma {:induction false} NoBit(i: nat)
    ensures !Bit(0, i)
  {
    if i > 0 {
      NoBit(i - 1);
    }
  }

  lemma NoBits()
    ensures forall i: nat :: !Bit(0, i)
  {
    forall i: nat
      ensures !Bit(0, i)
    {
      NoBit(i);
    }
  }

  /** A cluster size of zero masks nothing out. */
  lemma StartsClusterByBits(v: Volume, k: nat)
    ensures v.csize > 0 ==> (StartsCluster(v, k) <==> Disjoint(k, v.csize as int - 1))
    ensures v.csize == 0 ==> (StartsCluster(v, k) <==> k == 0)
  {
    if v.csize > 0 {
      MaskByBits(k, v.csize as int - 1);
    }
  }

  // ---------- from directory to directory ----------

  /** A way down the tree: every entry is found in its directory, and all but the last are directories. */
  ghost predicate Leads(v: Volume, sectors: seq<Sector>, clusters: seq<u32>, entries: seq<Entry>, names: seq<Sfn>) {
    && |clusters| == |entries| == |names| > 0
    && (forall i | 0 <= i < |names| :: LookupAt(v, sectors, clusters[i], names[i]) == Found(entries[i]))
    && (forall i | 0 < i < |names| :: Enters(v, entries, clusters, i))
  }

  predicate Enters(v: Volume, entries: seq<Entry>, clusters: seq<u32>, i: nat)
    requires 0 < i < |entries| == |clusters|
  {
    entries[i - 1][11] % 32 >= 16 && clusters[i] == ClusterIn(v.fsType, entries[i - 1])
  }

  lemma {:induction false} LeadsResolves(v: Volume, sectors: seq<Sector>, clusters: seq<u32>, entries: seq<Entry>,
                                         names: seq<Sfn>)
    requires Leads(v, sectors, clusters, entries, names)
    ensures Resolve(v, sectors, clusters[0], names) == Found(entries[|entries| - 1])
    decreases |names|
  {
    hide LookupAt, IsDirectory, EntryCluster, ClusterIn;
    assert LookupAt(v, sectors, clusters[0], names[0]) == Found(entries[0]);
    if |names| > 1 {
      EntryByBytes(v, entries[0]);
      assert Enters(v, entries, clusters, 1);
      forall i | 0 < i < |names| - 1
        ensures Enters(v, entries[1..], clusters[1..], i)
      {
        assert Enters(v, entries, clusters, i + 1);
      }
      LeadsResolves(v, sectors, clusters[1..], entries[1..], names[1..]);
    }
  }

  lemma {:induction false} ResolvesLeads(v: Volume, sectors: seq<Sector>, sclust: u32, names: seq<Sfn>)
      returns (clusters: seq<u32>, entries: seq<Entry>)
    requires names != [] && Resolve(v, sectors, sclust, names).Found?
    ensures Leads(v, sectors, clusters, entries, names) && clusters[0] == sclust
    ensures Resolve(v, sectors, sclust, names) == Found(entries[|entries| - 1])
    decreases |names|
  {
    hide LookupAt, IsDirectory, EntryCluster, ClusterIn;
    var e := LookupAt(v, sectors, sclust, names[0]).entry;
    if |names| == 1 {
      clusters, entries := [sclust], [e];
    } else {
      EntryByBytes(v, e);
      var cs, es := ResolvesLeads(v, sectors, EntryCluster(v, e), names[1..]);
      clusters, entries := [sclust] + cs, [e] + es;
      forall i | 0 < i < |names|
        ensures Enters(v, entries, clusters, i)
      {
        if i > 1 {
          assert Enters(v, es, cs, i - 1);
        }
      }
    }
  }

  // ---------- paths ----------

  /** Leading spaces and one separator are skipped; the root is what has nothing behind them. */
  lemma {:induction false} PathStartsAt(path: seq<byte>, p: nat, n: nat)
    requires p <= n <= |path| && forall i | p <= i < n :: path[i] == 0x20
    requires n < |path| ==> path[n] != 0x20
    ensures SkipSpaces(path, p) == n
    ensures p == 0 ==>
              var q := if n < |path| && path[n] == 0x2F then n + 1 else n;
              PathStart(path) == q && (IsRootPath(path) <==> q == |path| || path[q] < 0x20)
    decreases n - p
  {
    if p < n {
      PathStartsAt(path, p + 1, n);
    }
  }

  datatype Part = Part(body: seq<byte>, ext: seq<byte>)

  predicate ProperParts(parts: seq<Part>) {
    parts != [] && forall i | 0 <= i < |parts| :: Proper(parts[i].body, parts[i].ext)
  }

  /** The parts of a path with separators between them. */
  function Joined(parts: seq<Part>): seq<byte>
    requires parts != []
  {
    var t := Text(parts[0].body, parts[0].ext);
    if |parts| == 1 then t else t + [0x2F] + Joined(parts[1..])
  }

  /** The first part of a path, and where the others are. */
  lemma JoinedSlices(path: seq<byte>, p: nat, parts: seq<Part>)
    requires parts != []
    requires var t := Joined(parts); p + |t| <= |path| && path[p..p + |t|] == t
    ensures var first := Text(parts[0].body, parts[0].ext);
            && p + |first| <= |path| && path[p..p + |first|] == first
            && (|parts| > 1 ==>
                  var q, rest := p + |first| + 1, Joined(parts[1..]);
                  && |Joined(parts)| == |first| + 1 + |rest| && path[p + |first|] == 0x2F
                  && q + |rest| <= |path| && path[q..q + |rest|] == rest)
  {
    var t, first := Joined(parts), Text(parts[0].body, parts[0].ext);
    assert path[p..p + |first|] == t[..|first|] == first;
    if |parts| > 1 {
      assert path[p + |first|] == t[|first|] == 0x2F;
      assert path[p + |first| + 1..p + |t|] == t[|first| + 1..] == Joined(parts[1..]);
    }
  }

  /** A path of proper names is cut into these names, in directory form and upper case. */
  lemma {:induction false} PathOfParts(cvt: CodePage, path: seq<byte>, p: nat, parts: seq<Part>)
    requires ProperParts(parts)
    requires var t := Joined(parts); p + |t| <= |path| && path[p..p + |t|] == t && At(path, p + |t|) <= 0x20
    ensures |PathNames(cvt, path, p)| == |parts|
    ensures forall i | 0 <= i < |parts| :: PathNames(cvt, path, p)[i] == Upped(cvt, parts[i])
    decreases |parts|
  {
    hide Packed, UpperAll, NameAt, NameText, Text;
    JoinedSlices(path, p, parts);
    NameInPath(cvt, path, p, parts[0].body, parts[0].ext);
    if |parts| > 1 {
      PathOfParts(cvt, path, p + |Text(parts[0].body, parts[0].ext)| + 1, parts[1..]);
    }
  }

  function Upped(cvt: CodePage, part: Part): Sfn
    requires Proper(part.body, part.ext)
  {
    Packed(UpperAll(cvt, part.body), UpperAll(cvt, part.ext))
  }

  // ---------- letters ----------

  /** Small letters become capital ones; other characters of the lower half stay as they are. */
  lemma UpperLetters(cvt: CodePage, c: byte)
    ensures 'a' <= c as char <= 'z' ==> Upper(cvt, c) as char as int == c as int - ('a' as int - 'A' as int)
    ensures c < 0x80 && !('a' <= c as char <= 'z') ==> Upper(cvt, c) == c
    ensures c >= 0x80 && !('a' <= cvt[c - 0x80] as char <= 'z') ==> Upper(cvt, c) == cvt[c - 0x80]
    ensures c >= 0x80 && 'a' <= cvt[c - 0x80] as char <= 'z' ==> Upper(cvt, c) == cvt[c - 0x80] - 0x20
  {
  }

  /** A body of more than eight characters is cut off, and the path goes on behind the ninth. */
  lemma LongName(cvt: CodePage, path: seq<byte>, p: nat, body: seq<byte>)
    requires |body| == 8 && NameText(body)
    requires p + 9 <= |path| && path[p..p + 8] == body && NameChar(path[p + 8])
    ensures NameAt(cvt, path, p) == Segment(Packed(UpperAll(cvt, body), []), p + 9, path[p + 8])
    ensures !NameAt(cvt, path, p).Last()
  {
    hide UpperAll, Upper;
    var blank: Sfn := seq(11, _ => SPACE);
    ScanField(cvt, path, p, body, 0, 8, blank);
    FillFields(blank, UpperAll(cvt, body), []);
  }

  /** In a printed name, a first byte 0x05 stands for 0xE5. */
  lemma PrintsKanji(ext: seq<byte>)
    requires |ext| <= 3 && 0x20 !in ext
    ensures Print(Packed([0x05], ext)) == Text([0xE5], ext)
  {
    var name := Packed([0x05], ext);
    assert name[..8] == [0x05] + seq(7, _ => SPACE);
    assert name[8..] == ext + seq(3 - |ext|, _ => SPACE);
    TrimPadded([0x05], 7);
    TrimPadded(ext, 3 - |ext|);
    assert name[8] == name[8..][0];
  }
}
