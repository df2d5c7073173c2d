/**
  The order theory behind the 1-Wire search. Every device has a 64-bit ROM number; the search walks
  the binary tree of the numbers on the bus from the bit that is sent first.
*/
module RomTree {
  import opened Crc8

  type Id = b: seq<bool> | |b| == 64 witness seq(64, _ => false)

  /** `a` and `b` have the same first `k` bits. */
  predicate Agree(a: Id, b: Id, k: nat) {
    forall j | 0 <= j < k && j < 64 :: a[j] == b[j]
  }

  /** `a` precedes `b` in enumeration order, the difference showing in the first `w` bits. */
  ghost predicate Before(a: Id, b: Id, w: nat) {
    exists k | 0 <= k < w && k < 64 :: Agree(a, b, k) && !a[k] && b[k]
  }

  /** Enumeration order: first bit sent first, 0 before 1. */
  ghost predicate Less(a: Id, b: Id) {
    Before(a, b, 64)
  }

  /** The devices still taking part after the first `k` bits of `p` were written. */
  function Active(s: set<Id>, p: Id, k: nat): set<Id> {
    set d | d in s && Agree(d, p, k)
  }

  /** Some device has value `v` right after the first `k` bits of `p`. */
  predicate Has(s: set<Id>, p: Id, k: nat, v: bool)
    requires k < 64
  {
    exists d | d in s :: Agree(d, p, k) && d[k] == v
  }

  /** The devices disagree right after the first `k` bits of `p`. */
  predicate Fork(s: set<Id>, p: Id, k: nat)
    requires k < 64
  {
    Has(s, p, k, false) && Has(s, p, k, true)
  }

  /** One past the deepest fork among the first `k` levels where `p` goes to 0; 0 if there is none. */
  function LastZero(s: set<Id>, p: Id, k: nat): (z: nat)
    requires k <= 64
    ensures z <= k
  {
    if k == 0 then 0
    else if Fork(s, p, k - 1) && !p[k - 1] then k
    else LastZero(s, p, k - 1)
  }

  /**
    The branch one search takes at level `k` of the path `p`, given the previous number `rom` and the
    1-based position `ld` of the last discrepancy: forced where the devices agree; above `ld` as last
    time; at `ld` to 1; below `ld` to 0.
  */
  predicate Branch(s: set<Id>, rom: Id, ld: int, p: Id, k: nat)
    requires k < 64
  {
    if !Fork(s, p, k) then Has(s, p, k, true)
    else if k + 1 < ld then rom[k]
    else k + 1 == ld
  }

  /** `p` is the path that a search from `rom` and `ld` takes through the devices `s`. */
  ghost predicate Path(s: set<Id>, rom: Id, ld: int, p: Id) {
    p in s && forall k | 0 <= k < 64 :: p[k] == Branch(s, rom, ld, p, k)
  }

  /** What the search accepts: a zero CRC over all 64 bits and a nonzero family byte. */
  predicate Acceptable(d: Id) {
    Serial(d) == 0 && d[..8] != seq(8, _ => false)
  }

  /** A device whose family byte is all zeros is never accepted, not even with a good CRC. */
  lemma ZeroFamily(d: Id)
    ensures (forall k | 0 <= k < 8 :: !d[k]) ==> !Acceptable(d)
    ensures (exists k | 0 <= k < 8 :: d[k]) ==> (Acceptable(d) <==> Serial(d) == 0)
  {
    if forall k | 0 <= k < 8 :: !d[k] {
      assert d[..8] == seq(8, _ => false);
    } else {
      var k :| 0 <= k < 8 && d[k];
      assert d[..8][k] != seq(8, _ => false)[k];
    }
  }

  // ---------- the order ----------

  lemma FirstDifference(a: Id, b: Id, w: nat) returns (k: nat)
    requires w <= 64 && !Agree(a, b, w)
    ensures k < w && Agree(a, b, k) && a[k] != b[k]
  {
    k := 0;
    while a[k] == b[k]
      invariant k < w && Agree(a, b, k)
      decreases w - k
    {
      k := k + 1;
      assert k == w ==> Agree(a, b, w);
    }
  }

  lemma Trichotomy(a: Id, b: Id, w: nat)
    requires w <= 64
    ensures Agree(a, b, w) || Before(a, b, w) || Before(b, a, w)
    ensures w == 64 && Agree(a, b, w) ==> a == b
  {
    if !Agree(a, b, w) {
      var k := FirstDifference(a, b, w);
      assert Agree(b, a, k);
    }
  }

  lemma BeforeTransitive(a: Id, b: Id, c: Id, w: nat)
    requires Before(a, b, w) && Before(b, c, w)
    ensures Before(a, c, w)
  {
    var i :| 0 <= i < w && i < 64 && Agree(a, b, i) && !a[i] && b[i];
    var j :| 0 <= j < w && j < 64 && Agree(b, c, j) && !b[j] && c[j];
    var k := if i < j then i else j;
    assert Agree(a, c, k) && !a[k] && c[k];
  }

  lemma BeforeIrreflexive(a: Id, b: Id, w: nat)
    requires Before(a, b, w)
    ensures !Agree(a, b, w) && !Before(b, a, w)
  {
    var i :| 0 <= i < w && i < 64 && Agree(a, b, i) && !a[i] && b[i];
  }

  // ---------- one search ----------

  lemma AgreeFork(s: set<Id>, a: Id, b: Id, k: nat)
    requires k < 64 && Agree(a, b, k)
    ensures Fork(s, a, k) == Fork(s, b, k)
    ensures forall v :: Has(s, a, k, v) == Has(s, b, k, v)
    ensures Active(s, a, k) == Active(s, b, k)
  {
    forall v
      ensures Has(s, a, k, v) == Has(s, b, k, v)
    {
      if Has(s, a, k, v) {
        var d :| d in s && Agree(d, a, k) && d[k] == v;
        assert Agree(d, b, k);
      }
      if Has(s, b, k, v) {
        var d :| d in s && Agree(d, b, k) && d[k] == v;
        assert Agree(d, a, k);
      }
    }
  }

  /** `p` has been chosen up to level `n` and still holds the previous number `rom` from there on. */
  ghost predicate PartialPath(s: set<Id>, rom: Id, ld: int, p: Id, n: nat) {
    && n <= 64
    && Active(s, p, n) != {}
    && (forall k | 0 <= k < n :: p[k] == Branch(s, rom, ld, p, k))
    && (forall k | n <= k < 64 :: p[k] == rom[k])
  }

  lemma LastZeroAgree(s: set<Id>, a: Id, b: Id, k: nat)
    requires k <= 64 && Agree(a, b, k)
    ensures LastZero(s, a, k) == LastZero(s, b, k)
  {
    if k > 0 {
      LastZeroAgree(s, a, b, k - 1);
      AgreeFork(s, a, b, k - 1);
    }
  }

  /** One level of the walk: write the branch, keep the devices that match it. */
  lemma PathStep(s: set<Id>, rom: Id, ld: int, p: Id, n: nat)
    requires n < 64 && PartialPath(s, rom, ld, p, n)
    ensures var b := Branch(s, rom, ld, p, n); var q := p[n := b];
            && PartialPath(s, rom, ld, q, n + 1)
            && Active(s, q, n + 1) == (set d | d in Active(s, p, n) && d[n] == b)
            && LastZero(s, q, n + 1) == (if Fork(s, p, n) && !b then n + 1 else LastZero(s, p, n))
            && (forall k: nat | k <= n :: LastZero(s, q, k) == LastZero(s, p, k))
  {
    var b := Branch(s, rom, ld, p, n);
    var q := p[n := b];
    assert Agree(p, q, n);
    forall k: nat | k <= n
      ensures Fork(s, p, k) == Fork(s, q, k) && Branch(s, rom, ld, p, k) == Branch(s, rom, ld, q, k)
      ensures LastZero(s, q, k) == LastZero(s, p, k)
    {
      AgreeFork(s, p, q, k);
      LastZeroAgree(s, p, q, k);
    }
    var d :| d in Active(s, p, n);
    assert Agree(d, p, n);
    assert Has(s, p, n, d[n]);
    assert Has(s, p, n, b);
    var e :| e in s && Agree(e, p, n) && e[n] == b;
    assert e in Active(s, q, n + 1);
    forall c | c in s
      ensures c in Active(s, q, n + 1) <==> c in Active(s, p, n) && c[n] == b
    {
      assert Agree(c, q, n + 1) <==> Agree(c, p, n) && c[n] == b;
    }
  }

  lemma PathComplete(s: set<Id>, rom: Id, ld: int, p: Id)
    requires PartialPath(s, rom, ld, p, 64)
    ensures Path(s, rom, ld, p)
  {
    var d :| d in Active(s, p, 64);
    assert d == p;
  }

  lemma LastZeroIsFork(s: set<Id>, p: Id, k: nat)
    requires k <= 64 && LastZero(s, p, k) > 0
    ensures Fork(s, p, LastZero(s, p, k) - 1) && !p[LastZero(s, p, k) - 1]
  {
  }

  lemma LastZeroIsDeepest(s: set<Id>, p: Id, k: nat, j: nat)
    requires j < k <= 64 && Fork(s, p, j) && !p[j]
    ensures j < LastZero(s, p, k)
  {
  }

  /** A search that starts over finds the least device. */
  lemma PathFromZero(s: set<Id>, rom: Id, p: Id, d: Id)
    requires Path(s, rom, 0, p) && d in s
    ensures d == p || Less(p, d)
  {
    if d != p {
      Trichotomy(p, d, 64);
      var k := FirstDifference(p, d, 64);
      BranchBelow(s, rom, 0, p, d, k);
    }
  }

  /** Below the last discrepancy a path leaves another device only by going to 0. */
  lemma BranchBelow(s: set<Id>, rom: Id, ld: int, p: Id, d: Id, k: nat)
    requires Path(s, rom, ld, p) && d in s
    requires k < 64 && ld <= k && Agree(p, d, k) && p[k] != d[k]
    ensures !p[k] && d[k]
  {
    assert Agree(d, p, k);
    assert p[k] == Branch(s, rom, ld, p, k);
  }

  /** Above the last discrepancy a path keeps to the previous device. */
  lemma {:induction false} PathFollows(s: set<Id>, r: Id, ld: int, p: Id, k: nat)
    requires r in s && Path(s, r, ld, p) && k < 64 && k < ld
    ensures Agree(r, p, k)
  {
    if k > 0 {
      PathFollows(s, r, ld, p, k - 1);
      assert p[k - 1] == Branch(s, r, ld, p, k - 1);
      assert Agree(r, p, k - 1) && Agree(p, p, k - 1);
    }
  }

  /**
    A search whose last discrepancy is the deepest 0-fork of the previous device `r` (within the first
    `w` bits) keeps to `r` above that fork and takes 1 there.
  */
  lemma PathTurns(s: set<Id>, r: Id, p: Id, w: nat)
    requires w <= 64 && r in s
    requires var ld := LastZero(s, r, w); ld > 0 && Path(s, r, ld, p)
    ensures var ld := LastZero(s, r, w); Agree(r, p, ld - 1) && !r[ld - 1] && p[ld - 1]
    ensures Before(r, p, w)
  {
    var ld := LastZero(s, r, w);
    LastZeroIsFork(s, r, w);
    PathFollows(s, r, ld, p, ld - 1);
    AgreeFork(s, r, p, ld - 1);
    assert p[ld - 1] == Branch(s, r, ld, p, ld - 1);
  }

  /**
    The heart of the algorithm: such a search finds the successor of `r`, that is the least device whose
    first `w` bits come after those of `r`. With `w = 64` this is the next device; with `w = 8` it is the
    least device of the next family.
  */
  lemma PathIsSuccessor(s: set<Id>, r: Id, p: Id, w: nat, d: Id)
    requires w <= 64 && r in s
    requires LastZero(s, r, w) > 0 && Path(s, r, LastZero(s, r, w), p)
    requires d in s && Before(r, d, w)
    ensures d == p || Less(p, d)
  {
    hide LastZero, Path, Active;
    var ld := LastZero(s, r, w);
    PathTurns(s, r, p, w);
    var j :| 0 <= j < w && j < 64 && Agree(r, d, j) && !r[j] && d[j];
    assert Agree(d, r, j) && Agree(r, r, j);
    LastZeroIsDeepest(s, r, w, j);
    if j < ld - 1 {
      assert Agree(p, d, j) && !p[j] && d[j];
    } else if d != p {
      Trichotomy(p, d, 64);
      var k := FirstDifference(p, d, 64);
      BranchBelow(s, r, ld, p, d, k);
    }
  }

  /** No 0-fork within the first `w` bits: nothing comes after `r` there. */
  lemma NoForkIsLast(s: set<Id>, r: Id, w: nat, d: Id)
    requires w <= 64 && r in s && d in s && LastZero(s, r, w) == 0
    ensures !Before(r, d, w)
  {
    if Before(r, d, w) {
      var j :| 0 <= j < w && j < 64 && Agree(r, d, j) && !r[j] && d[j];
      assert Agree(d, r, j) && Agree(r, r, j);
      LastZeroIsDeepest(s, r, w, j);
    }
  }

  // ---------- verification and targeting: a last discrepancy of 64 ----------

  /** With a last discrepancy of 64, a search for a device on the bus can only miss it at the last bit. */
  lemma PathTo(s: set<Id>, r: Id, p: Id)
    requires r in s && Path(s, r, 64, p)
    ensures p == r <==> r[63] || r[63 := true] !in s
  {
    var twin := r[63 := true];
    PathFollows(s, r, 64, p, 63);
    assert p[63] == Branch(s, r, 64, p, 63);
    assert Agree(r, p, 63) && Agree(p, p, 63);
    assert Agree(twin, p, 63);
    if p[63] {
      assert p == twin;
    }
    if r[63] == p[63] {
      assert p == r;
    }
  }

  /** Two acceptable numbers never differ in the last bit only, so acceptable devices are never missed. */
  lemma NoTwin(r: Id)
    requires Acceptable(r) && !r[63]
    ensures !Acceptable(r[63 := true])
  {
    LastBitMatters(r[..63]);
    assert r == r[..63] + [false];
    assert r[63 := true] == r[..63] + [true];
  }

  /** No device with the same first eight bits precedes `d`. */
  ghost predicate LeastOfFamily(s: set<Id>, d: Id) {
    d in s && forall e | e in s && Agree(e, d, 8) :: e == d || Less(d, e)
  }

  /** What a search aimed at the family of its least device `d` finds: `d`, unless a twin shadows it. */
  function Shadow(s: set<Id>, d: Id): Id {
    if !d[63] && d[63 := true] in s then d[63 := true] else d
  }

  lemma PathToFamily(s: set<Id>, rom: Id, p: Id, d: Id)
    requires forall j | 8 <= j < 64 :: !rom[j]
    requires Path(s, rom, 64, p) && LeastOfFamily(s, d) && Agree(d, rom, 8)
    ensures p == Shadow(s, d)
  {
    if p != d {
      Trichotomy(p, d, 64);
      var k := FirstDifference(p, d, 64);
      assert Agree(d, p, k) && Agree(p, p, k);
      assert p[k] == Branch(s, rom, 64, p, k);
      if k < 63 {
        assert Agree(p, d, 8) && Less(p, d);
        BeforeIrreflexive(p, d, 64);
      } else {
        assert p == d[63 := true];
      }
    } else if !d[63] && d[63 := true] in s {
      var twin := d[63 := true];
      assert Agree(twin, d, 63) && Agree(d, d, 63);
      assert d[63] == Branch(s, rom, 64, d, 63);
    }
  }

  // ---------- enumerating a whole bus ----------

  /** `p` is the least device that differs from `r` within the first `w` bits and comes after it there. */
  ghost predicate IsNext(s: set<Id>, r: Id, p: Id, w: nat) {
    p in s && Before(r, p, w) && forall d | d in s && Before(r, d, w) :: d == p || Less(p, d)
  }

  /** Some device comes after `r` within the first `w` bits. */
  ghost predicate HasNext(s: set<Id>, r: Id, w: nat) {
    exists d | d in s :: Before(r, d, w)
  }

  ghost predicate IsLeast(s: set<Id>, p: Id) {
    p in s && forall d | d in s :: d == p || Less(p, d)
  }

  /** No device up to and including `d` is rejected by the search. */
  ghost predicate Reachable(s: set<Id>, d: Id) {
    d in s && forall e | e in s && (e == d || Less(e, d)) :: Acceptable(e)
  }

  ghost predicate Increasing(ids: seq<Id>) {
    forall i, j | 0 <= i < j < |ids| :: Less(ids[i], ids[j])
  }

  /** `ids` lists, in order, the devices before `r`, all of them acceptable. */
  ghost predicate ListsBefore(s: set<Id>, ids: seq<Id>, r: Id) {
    && Increasing(ids)
    && (forall d :: d in ids <==> d in s && Less(d, r))
    && (forall d | d in ids :: Acceptable(d))
  }

  /** `ids` lists, in order, the reachable devices. */
  ghost predicate ListsReachable(s: set<Id>, ids: seq<Id>) {
    Increasing(ids) && forall d :: d in ids <==> Reachable(s, d)
  }

  lemma ListStart(s: set<Id>, r: Id)
    requires IsLeast(s, r)
    ensures ListsBefore(s, [], r)
  {
    forall d | d in s
      ensures !Less(d, r)
    {
      if d != r {
        BeforeIrreflexive(r, d, 64);
      }
    }
  }

  lemma ListStep(s: set<Id>, ids: seq<Id>, r: Id, p: Id)
    requires ListsBefore(s, ids, r) && r in s && Acceptable(r) && IsNext(s, r, p, 64)
    ensures ListsBefore(s, ids + [r], p)
  {
    ListAppend(s, ids, r);
    forall d | d in s
      ensures Less(d, p) <==> d == r || Less(d, r)
    {
      Trichotomy(d, r, 64);
      if Less(d, r) {
        BeforeTransitive(d, r, p, 64);
      } else if d != r && d != p {
        BeforeIrreflexive(p, d, 64);
      }
    }
  }

  lemma ListAppend(s: set<Id>, ids: seq<Id>, r: Id)
    requires ListsBefore(s, ids, r)
    ensures Increasing(ids + [r])
    ensures forall d :: d in ids + [r] <==> d == r || (d in s && Less(d, r))
  {
  }

  /** The enumeration ends for want of a further device: it has listed them all. */
  lemma ListAll(s: set<Id>, ids: seq<Id>, r: Id)
    requires ListsBefore(s, ids, r) && r in s && Acceptable(r)
    requires !HasNext(s, r, 64)
    ensures ListsReachable(s, ids + [r])
  {
    ListAppend(s, ids, r);
    forall d | d in s
      ensures d in ids + [r] && Acceptable(d)
    {
      Trichotomy(d, r, 64);
    }
  }

  /** The enumeration ends at a rejected device: it has listed what comes before. */
  lemma ListUpTo(s: set<Id>, ids: seq<Id>, r: Id)
    requires ListsBefore(s, ids, r) && r in s && !Acceptable(r)
    ensures ListsReachable(s, ids)
  {
    forall d
      ensures d in ids <==> Reachable(s, d)
    {
      if d in ids {
        forall e | e in s && (e == d || Less(e, d))
          ensures Acceptable(e)
        {
          if e != d {
            BeforeTransitive(e, d, r, 64);
          }
        }
      } else if d in s {
        Trichotomy(d, r, 64);
      }
    }
  }

  lemma IncreasingDistinct(ids: seq<Id>, i: nat, j: nat)
    requires Increasing(ids) && i < j < |ids|
    ensures ids[i] != ids[j]
  {
    BeforeIrreflexive(ids[i], ids[j], 64);
  }

  /** A list of distinct elements is as long as its set. */
  lemma {:induction false} DistinctLength(ids: seq<Id>, s: set<Id>)
    requires Increasing(ids) && forall d :: d in ids <==> d in s
    ensures |ids| == |s|
  {
    if ids != [] {
      var front, last := ids[..|ids| - 1], ids[|ids| - 1];
      forall d
        ensures d in front <==> d in s - {last}
      {
        if d in front {
          var i :| 0 <= i < |front| && front[i] == d;
          IncreasingDistinct(ids, i, |ids| - 1);
        }
        if d in ids && d != last {
          var i :| 0 <= i < |ids| && ids[i] == d;
          assert front[i] == d;
        }
      }
      DistinctLength(front, s - {last});
      assert last in ids;
    }
  }

  /** If no device is rejected, the reachable devices are all of them. */
  lemma AllReachable(s: set<Id>, ids: seq<Id>)
    requires ListsReachable(s, ids)
    ensures (forall d | d in s :: Acceptable(d)) <==> (forall d | d in s :: d in ids)
    ensures (forall d | d in s :: Acceptable(d)) ==> |ids| == |s|
  {
    forall d | d in ids
      ensures Acceptable(d)
    {
      assert Reachable(s, d);
    }
    if forall d | d in s :: Acceptable(d) {
      forall d | d in s
        ensures d in ids
      {
        assert Reachable(s, d);
      }
      DistinctLength(ids, s);
    }
  }

  // ---------- skipping families ----------

  lemma LastZeroMonotone(s: set<Id>, p: Id, k: nat, m: nat)
    requires k <= m <= 64
    ensures LastZero(s, p, k) <= LastZero(s, p, m)
  {
  }

  lemma HasNextIff(s: set<Id>, r: Id, w: nat)
    requires w <= 64 && r in s
    ensures HasNext(s, r, w) <==> LastZero(s, r, w) > 0
  {
    var ld := LastZero(s, r, w);
    if ld > 0 {
      LastZeroIsFork(s, r, w);
      var d :| d in s && Agree(d, r, ld - 1) && d[ld - 1];
      assert Agree(r, d, ld - 1);
      assert Before(r, d, w);
    } else {
      forall d | d in s
        ensures !Before(r, d, w)
      {
        NoForkIsLast(s, r, w, d);
      }
    }
  }

  /**
    What searches leave as the family discrepancy of the device `r` they found: the deepest 0-fork of its
    family byte, or, where it has none, possibly a stale one, at which `r` has gone to 1.
  */
  ghost predicate Marks(s: set<Id>, r: Id, f: int) {
    || f == LastZero(s, r, 8)
    || (LastZero(s, r, 8) == 0 && 0 < f <= 8 && Fork(s, r, f - 1) && r[f - 1])
  }

  /** Whether a mark is stale can be seen from the device alone. */
  lemma StaleMark(s: set<Id>, r: Id, f: int)
    requires Marks(s, r, f)
    ensures 0 <= f <= 8 && (f == LastZero(s, r, 8) <==> f == 0 || !r[f - 1])
  {
    hide LastZero;
    if LastZero(s, r, 8) > 0 {
      LastZeroIsFork(s, r, 8);
    }
  }

  /** A plain search keeps such a mark, whether it is stale or not. */
  lemma MarksKept(s: set<Id>, r: Id, f: int, p: Id)
    requires r in s && Marks(s, r, f) && LastZero(s, r, 64) > 0 && Path(s, r, LastZero(s, r, 64), p)
    ensures Marks(s, p, if LastZero(s, p, 8) > 0 then LastZero(s, p, 8) else f)
  {
    hide Path, LastZero;
    PathTurns(s, r, p, 64);
    LastZeroMonotone(s, r, 8, 64);
    if LastZero(s, p, 8) == 0 && f > 0 {
      if LastZero(s, r, 8) == 0 {
        LastZeroDeep(s, r);
      } else {
        LastZeroIsFork(s, r, 8);
      }
      MarkTurns(s, r, f, p, LastZero(s, r, 64));
    }
  }

  /** A fork of `r` in the family byte, with no 0-fork of `p` there, is one where `p` has gone to 1. */
  lemma MarkTurns(s: set<Id>, r: Id, f: int, p: Id, ld: int)
    requires 0 < f <= 8 && Fork(s, r, f - 1) && f <= ld <= 64 && (r[f - 1] ==> f < ld)
    requires Agree(r, p, ld - 1) && p[ld - 1] && LastZero(s, p, 8) == 0
    ensures Fork(s, p, f - 1) && p[f - 1]
  {
    hide LastZero;
    assert Agree(r, p, f - 1);
    AgreeFork(s, r, p, f - 1);
    if !p[f - 1] {
      LastZeroIsDeepest(s, p, 8, f - 1);
    }
  }

  lemma LastZeroDeep(s: set<Id>, r: Id)
    requires LastZero(s, r, 64) > 0 && LastZero(s, r, 8) == 0
    ensures LastZero(s, r, 64) > 8
  {
    LastZeroIsFork(s, r, 64);
    if LastZero(s, r, 64) <= 8 {
      LastZeroIsDeepest(s, r, 8, LastZero(s, r, 64) - 1);
    }
  }

  /** A family skip from a stale mark goes back, to the least device that shares the first `f` bits with `r`. */
  lemma StaleSkipGoesBack(s: set<Id>, r: Id, f: nat, p: Id)
    requires r in s && 0 < f <= 8 && Fork(s, r, f - 1) && r[f - 1] && Path(s, r, f, p)
    ensures IsLeast(Active(s, r, f), p)
  {
    PathFollows(s, r, f, p, f - 1);
    AgreeFork(s, r, p, f - 1);
    assert p[f - 1] == Branch(s, r, f, p, f - 1);
    assert Agree(p, r, f);
    forall d | d in Active(s, r, f)
      ensures d == p || Less(p, d)
    {
      if d != p {
        Trichotomy(p, d, 64);
        var k := FirstDifference(p, d, 64);
        BranchBelow(s, r, f, p, d, k);
      }
    }
  }

  lemma LeastUnique(s: set<Id>, a: Id, b: Id)
    requires IsLeast(s, a) && IsLeast(s, b)
    ensures a == b
  {
    if a != b {
      BeforeIrreflexive(a, b, 64);
    }
  }

  /** What a family skip and the search after it ought to do: go to the next family, or end. */
  ghost predicate SkipRight(s: set<Id>, r: Id, found: bool, p: Id) {
    if HasNext(s, r, 8) then IsNext(s, r, p, 8) && found == Acceptable(p) else !found
  }

  // ---------- one device a family ----------

  /** No family up to and including that of `d` is rejected: the search accepts the least device of each. */
  ghost predicate FamilyReachable(s: set<Id>, d: Id) {
    LeastOfFamily(s, d) && forall e | LeastOfFamily(s, e) && (e == d || Less(e, d)) :: Acceptable(e)
  }

  ghost predicate FamilyIncreasing(ids: seq<Id>) {
    forall i, j | 0 <= i < j < |ids| :: Before(ids[i], ids[j], 8)
  }

  /** `r` is the least of its family, and `ids` lists, in order, the least of every family before. */
  ghost predicate FamiliesBefore(s: set<Id>, ids: seq<Id>, r: Id) {
    && LeastOfFamily(s, r)
    && FamilyIncreasing(ids)
    && (forall d :: d in ids <==> LeastOfFamily(s, d) && Before(d, r, 8))
    && (forall d | d in ids :: Acceptable(d))
  }

  /** `ids` lists, in order, the least devices of the reachable families. */
  ghost predicate FamiliesReachable(s: set<Id>, ids: seq<Id>) {
    FamilyIncreasing(ids) && forall d :: d in ids <==> FamilyReachable(s, d)
  }

  /** The list has a device of the family of `d`, and none that comes after `d`. */
  ghost predicate Represented(ids: seq<Id>, d: Id) {
    exists e | e in ids :: Agree(e, d, 8) && (e == d || Less(e, d))
  }

  /**
    `ids` has exactly one device for each family of `s`: family by family strictly increasing, and every
    device has the least device of its family in the list.
  */
  ghost predicate FamiliesAll(s: set<Id>, ids: seq<Id>) {
    && (forall d | d in ids :: d in s)
    && FamilyIncreasing(ids)
    && (forall d | d in s :: Represented(ids, d))
  }

  lemma LeastSame(s: set<Id>, a: Id, b: Id)
    requires LeastOfFamily(s, a) && LeastOfFamily(s, b) && Agree(a, b, 8)
    ensures a == b
  {
    assert Agree(b, a, 8);
    if a != b {
      BeforeIrreflexive(a, b, 64);
    }
  }

  /** Devices of different families are ordered by their family. */
  lemma FamilyOrder(a: Id, b: Id)
    ensures Before(a, b, 8) ==> Less(a, b)
    ensures Less(a, b) ==> Before(a, b, 8) || Agree(a, b, 8)
  {
    if k :| 0 <= k < 64 && Agree(a, b, k) && !a[k] && b[k] {
      assert if k < 8 then Before(a, b, 8) else Agree(a, b, 8);
    }
  }

  lemma FamilyStart(s: set<Id>, r: Id)
    requires IsLeast(s, r)
    ensures FamiliesBefore(s, [], r)
  {
    forall d | d in s
      ensures !Before(d, r, 8)
    {
      if Before(d, r, 8) {
        assert Less(d, r);
        BeforeIrreflexive(d, r, 64);
      }
    }
  }

  lemma FamilyAppend(s: set<Id>, ids: seq<Id>, r: Id)
    requires FamiliesBefore(s, ids, r)
    ensures FamilyIncreasing(ids + [r])
    ensures forall d :: d in ids + [r] <==> d == r || (LeastOfFamily(s, d) && Before(d, r, 8))
  {
    var next := ids + [r];
    forall i, j | 0 <= i < j < |next|
      ensures Before(next[i], next[j], 8)
    {
      assert next[i] in ids;
    }
  }

  lemma NextIsLeast(s: set<Id>, r: Id, p: Id)
    requires IsNext(s, r, p, 8)
    ensures LeastOfFamily(s, p)
  {
    var k :| 0 <= k < 8 && Agree(r, p, k) && !r[k] && p[k];
    forall d | d in s && Agree(d, p, 8)
      ensures d == p || Less(p, d)
    {
      assert Agree(r, d, k) && d[k];
    }
  }

  /** The scan goes on to the next family. */
  lemma FamilyNext(s: set<Id>, ids: seq<Id>, r: Id, p: Id)
    requires FamiliesBefore(s, ids, r) && Acceptable(r) && IsNext(s, r, p, 8)
    ensures FamiliesBefore(s, ids + [r], p)
  {
    FamilyAppend(s, ids, r);
    NextIsLeast(s, r, p);
    forall d | LeastOfFamily(s, d)
      ensures Before(d, p, 8) <==> d == r || Before(d, r, 8)
    {
      Trichotomy(r, d, 8);
      if Before(d, r, 8) {
        BeforeTransitive(d, r, p, 8);
      } else if Agree(r, d, 8) {
        LeastSame(s, r, d);
      } else if Before(d, p, 8) {
        FamilyOrder(d, p);
        BeforeIrreflexive(d, p, 64);
        assert d == p || Less(p, d);
        BeforeIrreflexive(d, p, 8);
      }
    }
  }

  /** The scan ends for want of a further family. */
  lemma FamilyEnd(s: set<Id>, ids: seq<Id>, r: Id)
    requires FamiliesBefore(s, ids, r) && Acceptable(r) && !HasNext(s, r, 8)
    ensures FamiliesReachable(s, ids + [r])
  {
    FamilyAppend(s, ids, r);
    forall d | LeastOfFamily(s, d)
      ensures d in ids + [r] && Acceptable(d)
    {
      Trichotomy(r, d, 8);
      if Agree(r, d, 8) {
        LeastSame(s, r, d);
      }
    }
  }

  /** The scan ends at a family whose least device is rejected. */
  lemma FamilyUpTo(s: set<Id>, ids: seq<Id>, r: Id)
    requires FamiliesBefore(s, ids, r) && !Acceptable(r)
    ensures FamiliesReachable(s, ids)
  {
    forall d | LeastOfFamily(s, d)
      ensures d in ids <==> FamilyReachable(s, d)
    {
      if d in ids {
        forall e | LeastOfFamily(s, e) && (e == d || Less(e, d))
          ensures Acceptable(e)
        {
          FamilyOrder(e, d);
          if Agree(e, d, 8) {
            LeastSame(s, e, d);
          } else {
            BeforeTransitive(e, d, r, 8);
          }
        }
      } else {
        Trichotomy(r, d, 8);
        FamilyOrder(r, d);
        if Agree(r, d, 8) {
          LeastSame(s, r, d);
        }
      }
    }
  }

  /** Every nonempty set of devices has a least one. */
  lemma {:induction false} LeastExists(s: set<Id>, d: Id) returns (m: Id)
    requires d in s
    ensures IsLeast(s, m)
    decreases |s|
  {
    m := d;
    var rest := s - {d};
    if e :| e in rest {
      var l := LeastExists(rest, e);
      Trichotomy(l, d, 64);
      m := if Less(d, l) then d else l;
      forall c | c in s
        ensures c == m || Less(m, c)
      {
        assert c == d || c in rest;
        if c in rest && c != l && Less(d, l) {
          BeforeTransitive(d, l, c, 64);
        }
      }
    } else {
      assert rest == {};
      assert forall c | c in s :: c == d || c in rest;
    }
  }

  lemma LeastOfFamilyExists(s: set<Id>, d: Id) returns (m: Id)
    requires d in s
    ensures LeastOfFamily(s, m) && Agree(m, d, 8) && (m == d || Less(m, d))
  {
    m := LeastExists(Active(s, d, 8), d);
    forall e | e in s && Agree(e, m, 8)
      ensures e == m || Less(m, e)
    {
      assert Agree(e, d, 8) && e in Active(s, d, 8);
    }
  }

  /** The scan is complete exactly if the least device of every family is accepted. */
  lemma AllFamilies(s: set<Id>, ids: seq<Id>)
    requires FamiliesReachable(s, ids)
    ensures FamiliesAll(s, ids) <==> forall d | LeastOfFamily(s, d) :: Acceptable(d)
  {
    if forall d | LeastOfFamily(s, d) :: Acceptable(d) {
      forall d | d in s
        ensures Represented(ids, d)
      {
        var m := LeastOfFamilyExists(s, d);
        assert FamilyReachable(s, m);
      }
    }
    if FamiliesAll(s, ids) {
      forall d | LeastOfFamily(s, d)
        ensures Acceptable(d)
      {
        LeastListed(s, ids, d);
      }
    }
  }

  lemma LeastListed(s: set<Id>, ids: seq<Id>, d: Id)
    requires FamiliesReachable(s, ids) && Represented(ids, d) && LeastOfFamily(s, d)
    ensures Acceptable(d)
  {
    var e :| e in ids && Agree(e, d, 8) && (e == d || Less(e, d));
    assert FamilyReachable(s, e);
    LeastSame(s, e, d);
  }
}
