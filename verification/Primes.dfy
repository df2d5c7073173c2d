/**
  The dual-core prime count: trial division on wrapping 32-bit words, and the hand-off of half of the work
  to the second core through three shared words.
*/
module Primes {
  import Arith
  import opened Bytes

  ghost predicate Prime(n: int) {
    2 <= n && forall d | 2 <= d < n :: !Divides(d, n)
  }

  predicate Divides(d: int, n: int)
    requires d > 0
  {
    n % d == 0
  }

  // ---------- trial division ----------

  /** Without a divisor below `i`, and with the square of `i` above `n`, there is no divisor below `n` at all. */
  lemma NoDivisor(n: int, i: int)
    requires 2 <= n && 2 <= i && i * i > n
    requires forall d | 2 <= d < i :: !Divides(d, n)
    ensures Prime(n)
  {
    forall d | 2 <= d < n
      ensures !Divides(d, n)
    {
      if i <= d && Divides(d, n) {
        SmallCofactor(n, d, i);
      }
    }
  }

  /** A divisor at or above the root comes with one below it. */
  lemma SmallCofactor(n: int, d: int, i: int)
    requires 2 <= i <= d < n < i * i && Divides(d, n)
    ensures exists q :: 2 <= q < i && Divides(q, n)
  {
    var q := n / d;
    assert n == q * d;
    Cofactor(n, d, q, i);
    Arith.DivUnique(n, d, q);
    assert Divides(q, n);
  }

  lemma Cofactor(n: int, d: int, q: int, i: int)
    requires 2 <= i <= d < n < i * i && n == q * d
    ensures 2 <= q < i
  {
    Arith.MulMono(q, 1, d);
    Arith.MulMono(i, q, d);
    Arith.MulMono(i, d, i);
  }

  /** 2^32 - 5; every number of 32 bits above it has a small divisor. */
  const BLIND_SPOT := 4294967291

  ghost predicate Stops(n: u32, d: u32) {
    2 <= d <= n && U32(d * d) > n
  }

  /** The square of this word wraps to seven below the end of the range. */
  const ROOT := 479772853

  lemma RootSquare()
    ensures U32(ROOT * ROOT) == TWO32 - 7
  {
    assert ROOT * ROOT == 53593420 * TWO32 + (TWO32 - 7);
  }

  lemma SmallSquare(n: nat)
    requires 2 <= n <= 65535
    ensures n < n * n <= 65535 * 65535
  {
    Arith.MulMono(n, 65535, n);
    Arith.MulMono(n, 65535, 65535);
    Arith.MulMono(2, n, n);
  }

  lemma NoPrimeAbove(n: u32)
    ensures n >= TWO32 - 7 && n != BLIND_SPOT ==> !Prime(n)
  {
    assert Divides(2, 4294967290) && Divides(2, 4294967292) && Divides(2, 4294967294);
    assert Divides(3, 4294967289) && Divides(3, 4294967295) && Divides(9241, 4294967293);
  }

  /** For every other prime some square, perhaps wrapped, ends the scan before it goes past the number itself. */
  lemma ScanStops(n: u32)
    requires Prime(n) && n != BLIND_SPOT
    ensures exists d: u32 :: Stops(n, d)
  {
    NoPrimeAbove(n);
    assert Divides(3, 65535 * 65535);
    if n <= 65535 {
      SmallSquare(n);
      assert Stops(n, n);
    } else if n < 65535 * 65535 {
      assert Stops(n, 65535);
    } else {
      RootSquare();
      assert Stops(n, ROOT);
    }
  }

  /** The squares modulo 16. */
  lemma SquareForm(d: nat) returns (k: int, b: int)
    ensures d * d == 16 * k + b && (b == 0 || b == 1 || b == 4 || b == 9)
  {
    var g, r := d / 8, d % 8;
    k, b := 4 * (g * g) + g * r + r * r / 16, r * r % 16;
    assert d == 8 * g + r;
    assert d * d == 16 * (4 * (g * g) + g * r) + r * r;
    SmallResidue(r);
  }

  lemma SmallResidue(r: nat)
    requires r < 8
    ensures r * r % 16 == 0 || r * r % 16 == 1 || r * r % 16 == 4 || r * r % 16 == 9
  {
    assert r == 0 || r == 1 || r == 2 || r == 3 || r == 4 || r == 5 || r == 6 || r == 7;
  }

  lemma ResidueBound(s: int, k: int, b: int)
    requires s == 16 * k + b && 0 <= b <= 9
    ensures U32(s) <= TWO32 - 7
  {
    var q, x := s / 0x1_0000_0000, s % 0x1_0000_0000;
    var j := k - q * 0x1000_0000;
    assert x == 16 * j + b;
  }

  /** No square, wrapped or not, exceeds this number: its scan only ends at the number itself. */
  lemma NeverStops(d: u32)
    ensures U32(d * d) <= BLIND_SPOT
  {
    var k, b := SquareForm(d);
    ResidueBound(d * d, k, b);
  }

  /** A divisor at which no square has ended the loop is a proper one, unless the number is the one exception. */
  lemma DivisorFound(n: u32, i: u32)
    requires 2 <= i <= n && n % i == 0 && forall d: u32 | d <= i :: !Stops(n, d)
    ensures !(Prime(n) && n != BLIND_SPOT)
  {
    assert Divides(i, n);
    if Prime(n) && n != BLIND_SPOT {
      ScanStops(n);
    }
  }

  lemma NoDivision(n: int, i: int)
    requires 2 <= i <= n && n % i != 0
    ensures i < n && !Divides(i, n)
  {
  }

  /**
    Trial division with a wrapping square. It is exact for every 32-bit number but one, for which no square
    ever ends the loop early and which is reported as not prime.
  */
  method IsPrime(n: u32) returns (r: u32)
    ensures r == 1 || r == 0
    ensures r == 1 <==> Prime(n) && n != BLIND_SPOT
  {
    hide U32, Stops, Prime, Divides;
    PrimeAtLeast(n);
    if n < 2 {
      return 0;
    }
    NoneStops(n);
    var i: u32 := 2;
    while U32(i * i) <= n
      invariant 2 <= i <= n
      invariant forall d | 2 <= d < i :: !Divides(d, n)
      invariant forall d: u32 | d < i :: !Stops(n, d)
      decreases n - i
    {
      NotStopped(n, i);
      if n % i == 0 {
        DivisorFound(n, i);
        return 0;
      }
      NoDivision(n, i);
      NoWrap(i + 1);
      i := U32(i + 1);
    }
    SquareAbove(i, n);
    NoDivisor(n, i);
    NeverStops(i);
    return 1;
  }

  lemma PrimeAtLeast(n: int)
    ensures Prime(n) ==> n >= 2
  {
  }

  lemma NotStopped(n: u32, i: u32)
    requires U32(i * i) <= n
    ensures !Stops(n, i)
  {
  }

  lemma NoneStops(n: u32)
    ensures forall d: u32 | d < 2 :: !Stops(n, d)
  {
  }

  lemma SquareAbove(i: int, n: u32)
    requires 0 <= i && U32(i * i) > n
    ensures i * i > n
  {
    assert 0 <= i * i;
  }

  // ---------- counting ----------

  /** The number of primes from `first` up to, not including, `end`. */
  ghost function PrimeCount(first: nat, end: nat): nat
    decreases end
  {
    if end <= first then 0 else PrimeCount(first, end - 1) + if Prime(end - 1) then 1 else 0
  }

  /** The number of those that trial division reports. */
  ghost function Reported(first: nat, end: nat): nat
    decreases end
  {
    if end <= first then 0
    else Reported(first, end - 1) + if Prime(end - 1) && end - 1 != BLIND_SPOT then 1 else 0
  }

  lemma SmallPrimes()
    ensures !Prime(0) && !Prime(1) && Prime(2) && Prime(3) && !Prime(4) && Prime(5) && !Prime(6) && Prime(7)
    ensures PrimeCount(0, 8) == 4
  {
    assert Divides(2, 4) && Divides(2, 6);
    assert !Divides(2, 3) && !Divides(2, 5) && !Divides(3, 5) && !Divides(4, 5);
    assert !Divides(2, 7) && !Divides(3, 7) && !Divides(4, 7) && !Divides(5, 7) && !Divides(6, 7);
    CountUp();
  }

  lemma CountUp()
    ensures PrimeCount(0, 4) == (if Prime(0) then 1 else 0) + (if Prime(1) then 1 else 0)
                              + (if Prime(2) then 1 else 0) + (if Prime(3) then 1 else 0)
    ensures PrimeCount(0, 8) == PrimeCount(0, 4) + (if Prime(4) then 1 else 0) + (if Prime(5) then 1 else 0)
                              + (if Prime(6) then 1 else 0) + (if Prime(7) then 1 else 0)
  {
    hide Prime;
    assert PrimeCount(0, 2) == (if Prime(0) then 1 else 0) + (if Prime(1) then 1 else 0);
    assert PrimeCount(0, 6) == PrimeCount(0, 4) + (if Prime(4) then 1 else 0) + (if Prime(5) then 1 else 0);
  }

  /** All primes are reported if the range ends at or below that number. */
  lemma {:induction false} AllReported(first: nat, end: nat)
    ensures Reported(first, end)
         == PrimeCount(first, end) - if first <= BLIND_SPOT < end && Prime(BLIND_SPOT) then 1 else 0
    decreases end
  {
    if first < end {
      AllReported(first, end - 1);
    }
  }

  lemma {:induction false} ReportedAdditive(a: nat, b: nat, c: nat)
    requires a <= b <= c
    ensures Reported(a, b) + Reported(b, c) == Reported(a, c)
    decreases c
  {
    if b < c {
      ReportedAdditive(a, b, c - 1);
    }
  }

  lemma {:induction false} ReportedBound(a: nat, b: nat)
    requires a <= b
    ensures Reported(a, b) <= b - a
    decreases b
  {
    if a < b {
      ReportedBound(a, b - 1);
    }
  }

  lemma ReportedNext(first: nat, i: nat)
    requires first <= i
    ensures Reported(first, i + 1) == Reported(first, i) + if Prime(i) && i != BLIND_SPOT then 1 else 0
  {
  }

  lemma ReportedEmpty(first: nat, end: nat)
    requires end <= first
    ensures Reported(first, end) == 0
  {
  }

  method CountPrimes(first: u32, end: u32) returns (count: u32)
    ensures count == Reported(first, end)
  {
    hide Reported, Prime;
    count := 0;
    var i := first;
    ReportedEmpty(first, first);
    if end <= first {
      ReportedEmpty(first, end);
    }
    while i < end
      invariant first <= i && (if first <= end then i <= end else i == first)
      invariant count == Reported(first, i)
      decreases TWO32 - i
    {
      var p := IsPrime(i);
      ReportedNext(first, i);
      ReportedBound(first, i);
      if p != 0 {
        count := U32(count as int + 1);
      }
      i := U32(i as int + 1);
    }
  }
}

/**
  The hand-off. The cores share the two argument words and the run flag; a step is one access to a shared
  word together with the local work up to the next one.
*/
module PrimesHandOff {
  import opened Bytes
  import opened Primes

  datatype Main = Alone | PutFirst | PutEnd | Start | Half | Wait | Add | Done

  datatype Second = Poll | GetFirst | GetEnd | Count | PutCount | Finish | Exit

  datatype State = State(
    arg0: u32, arg1: u32, run: u32,
    main: Main, alone: u32, result: u32,
    second: Second, first: u32, end: u32, count: u32)

  datatype Core = Core0 | Core1

  /** Both cores run, and the run flag is zero. The other words may hold anything. */
  ghost predicate Init(s: State) {
    s.run == 0 && s.main == Alone && s.second == Poll
  }

  /** What counting a range returns. */
  ghost function Counted(a: u32, b: u32): u32 {
    U32(Reported(a, b))
  }

  ghost function Next0(max: u32, s: State): State {
    match s.main
    case Alone => s.(alone := Counted(0, max), main := PutFirst)
    case PutFirst => s.(arg0 := max / 2, main := PutEnd)
    case PutEnd => s.(arg1 := max, main := Start)
    case Start => s.(run := 1, main := Half)
    case Half => s.(result := Counted(0, max / 2), main := Wait)
    case Wait => if s.run != 0 then s else s.(main := Add)
    case Add => s.(result := U32(s.result as int + s.arg0 as int), main := Done)
    case Done => s
  }

  ghost function Next1(s: State): State {
    match s.second
    case Poll => if s.run == 0 then s else s.(second := GetFirst)
    case GetFirst => s.(first := s.arg0, second := GetEnd)
    case GetEnd => s.(end := s.arg1, second := Count)
    case Count => s.(count := Counted(s.first, s.end), second := PutCount)
    case PutCount => s.(arg0 := s.count, second := Finish)
    case Finish => s.(run := 0, second := Exit)
    case Exit => s
  }

  ghost function Next(max: u32, s: State, core: Core): State {
    match core
    case Core0 => Next0(max, s)
    case Core1 => Next1(s)
  }

  ghost function Run(max: u32, s: State, schedule: seq<Core>): State
    decreases |schedule|
  {
    if schedule == [] then s else Next(max, Run(max, s, schedule[..|schedule| - 1]), schedule[|schedule| - 1])
  }

  predicate Started(s: State) {
    s.main.Half? || s.main.Wait? || s.main.Add? || s.main.Done?
  }

  /** What the second core has got and given. */
  ghost predicate SecondInv(max: u32, s: State) {
    match s.second
    case Poll => Started(s) ==> s.run == 1 && s.arg0 == max / 2 && s.arg1 == max
    case GetFirst => Started(s) && s.run == 1 && s.arg0 == max / 2 && s.arg1 == max
    case GetEnd => Started(s) && s.run == 1 && s.first == max / 2 && s.arg1 == max
    case Count => Started(s) && s.run == 1 && s.first == max / 2 && s.end == max
    case PutCount => Started(s) && s.run == 1 && s.count == Counted(max / 2, max)
    case Finish => Started(s) && s.run == 1 && s.arg0 == Counted(max / 2, max)
    case Exit => Started(s) && s.run == 0 && s.arg0 == Counted(max / 2, max)
  }

  ghost predicate MainInv(max: u32, s: State) {
    match s.main
    case Alone => s.run == 0
    case PutFirst => s.run == 0 && s.alone == Counted(0, max)
    case PutEnd => s.run == 0 && s.alone == Counted(0, max) && s.arg0 == max / 2
    case Start => s.run == 0 && s.alone == Counted(0, max) && s.arg0 == max / 2 && s.arg1 == max
    case Half => s.alone == Counted(0, max)
    case Wait => s.alone == Counted(0, max) && s.result == Counted(0, max / 2)
    case Add => s.alone == Counted(0, max) && s.result == Counted(0, max / 2) && s.second == Exit
    case Done => s.alone == Counted(0, max) && s.result == Counted(0, max) && s.second == Exit
  }

  ghost predicate Inv(max: u32, s: State) {
    MainInv(max, s) && SecondInv(max, s)
  }

  lemma CountedIs(a: u32, b: u32)
    requires a <= b
    ensures Counted(a, b) == Reported(a, b)
  {
    ReportedBound(a, b);
  }

  lemma HalvesAdd(max: u32)
    ensures U32(Counted(0, max / 2) as int + Counted(max / 2, max) as int) == Counted(0, max)
  {
    CountedIs(0, max / 2);
    CountedIs(max / 2, max);
    CountedIs(0, max);
    ReportedAdditive(0, max / 2, max);
  }

  lemma MainStep(max: u32, s: State)
    requires Inv(max, s)
    ensures Inv(max, Next0(max, s))
  {
    hide Counted;
    HalvesAdd(max);
  }

  lemma SecondStep(max: u32, s: State)
    requires Inv(max, s)
    ensures Inv(max, Next1(s))
  {
    hide Counted;
  }

  lemma {:induction false} RunInv(max: u32, s: State, schedule: seq<Core>)
    requires Init(s)
    ensures Inv(max, Run(max, s, schedule))
    decreases |schedule|
  {
    if schedule != [] {
      var n := |schedule| - 1;
      RunInv(max, s, schedule[..n]);
      match schedule[n]
      case Core0 => MainStep(max, Run(max, s, schedule[..n]));
      case Core1 => SecondStep(max, Run(max, s, schedule[..n]));
    }
  }

  /**
    In every interleaving, when core 0 is done its two-core result is the one it computed alone, and it is
    the number of primes below the bound.
  */
  lemma HandOff(max: u32, s: State, schedule: seq<Core>)
    requires Init(s) && Run(max, s, schedule).main == Done
    ensures Run(max, s, schedule).result == Run(max, s, schedule).alone
    ensures max <= BLIND_SPOT ==> Run(max, s, schedule).result == PrimeCount(0, max)
  {
    RunInv(max, s, schedule);
    CountedIs(0, max);
    AllReported(0, max);
  }

  /** Core 0 leaves its wait loop only after the second core has stored its count, which stays in place. */
  lemma WaitsForSecond(max: u32, s: State, schedule: seq<Core>)
    requires Init(s) && (Run(max, s, schedule).main == Add || Run(max, s, schedule).main == Done)
    ensures Run(max, s, schedule).second == Exit
    ensures Run(max, s, schedule).arg0 == Reported(max / 2, max)
  {
    RunInv(max, s, schedule);
    CountedIs(max / 2, max);
  }

  function Steps0(m: Main): nat {
    match m
    case Alone => 7 case PutFirst => 6 case PutEnd => 5 case Start => 4
    case Half => 3 case Wait => 2 case Add => 1 case Done => 0
  }

  function Steps1(c: Second): nat {
    match c
    case Poll => 6 case GetFirst => 5 case GetEnd => 4 case Count => 3
    case PutCount => 2 case Finish => 1 case Exit => 0
  }

  function Left(s: State): nat {
    Steps0(s.main) + Steps1(s.second)
  }

  /** A step of either core makes progress, or changes nothing at all; neither core ever goes back. */
  lemma Monotone(max: u32, s: State, core: Core)
    ensures var t := Next(max, s, core);
            && Steps0(t.main) <= Steps0(s.main) && Steps1(t.second) <= Steps1(s.second)
            && (t == s || Left(t) < Left(s))
  {
  }

  /** The core that is not waiting, or waits for something that has happened. */
  ghost function Ready(s: State): Core {
    if s.main.Done? || (s.main.Wait? && s.run != 0) then Core1 else Core0
  }

  /** There is no deadlock: until core 0 is done, one of the cores makes progress. */
  lemma Progress(max: u32, s: State)
    requires Inv(max, s) && s.main != Done
    ensures Left(Next(max, s, Ready(s))) < Left(s)
  {
  }

  ghost function RunFrom(max: u32, s: State, schedule: seq<Core>): State
    decreases |schedule|
  {
    if schedule == [] then s else RunFrom(max, Next(max, s, schedule[0]), schedule[1..])
  }

  lemma {:induction false} RunFromEnd(max: u32, s: State, schedule: seq<Core>, core: Core)
    ensures RunFrom(max, s, schedule + [core]) == Next(max, RunFrom(max, s, schedule), core)
    decreases |schedule|
  {
    if schedule != [] {
      assert (schedule + [core])[1..] == schedule[1..] + [core];
      RunFromEnd(max, Next(max, s, schedule[0]), schedule[1..], core);
    } else {
      assert RunFrom(max, s, [core]) == RunFrom(max, Next(max, s, core), [core][1..]);
    }
  }

  lemma {:induction false} RunIsRunFrom(max: u32, s: State, schedule: seq<Core>)
    ensures Run(max, s, schedule) == RunFrom(max, s, schedule)
    decreases |schedule|
  {
    if schedule != [] {
      var n := |schedule| - 1;
      RunIsRunFrom(max, s, schedule[..n]);
      RunFromEnd(max, s, schedule[..n], schedule[n]);
      assert schedule == schedule[..n] + [schedule[n]];
    }
  }

  lemma StepInv(max: u32, s: State, core: Core)
    requires Inv(max, s)
    ensures Inv(max, Next(max, s, core))
  {
    match core
    case Core0 => MainStep(max, s);
    case Core1 => SecondStep(max, s);
  }

  /** A round in which the ready core runs at some time makes progress, whoever else runs and how often. */
  lemma {:induction false} RoundProgress(max: u32, s: State, round: seq<Core>)
    requires Inv(max, s)
    ensures Inv(max, RunFrom(max, s, round)) && Left(RunFrom(max, s, round)) <= Left(s)
    ensures s.main != Done && Ready(s) in round ==> Left(RunFrom(max, s, round)) < Left(s)
    ensures s.main == Done ==> RunFrom(max, s, round).main == Done
    decreases |round|
  {
    hide Inv;
    if round != [] {
      var t := Next(max, s, round[0]);
      StepInv(max, s, round[0]);
      Monotone(max, s, round[0]);
      RoundProgress(max, t, round[1..]);
      if s.main != Done && round[0] == Ready(s) {
        Progress(max, s);
      }
    }
  }

  function Flatten(rounds: seq<seq<Core>>): seq<Core> {
    if rounds == [] then [] else rounds[0] + Flatten(rounds[1..])
  }

  lemma {:induction false} RunFromAppend(max: u32, s: State, a: seq<Core>, b: seq<Core>)
    ensures RunFrom(max, s, a + b) == RunFrom(max, RunFrom(max, s, a), b)
    decreases |a|
  {
    if a != [] {
      assert (a + b)[1..] == a[1..] + b;
      RunFromAppend(max, Next(max, s, a[0]), a[1..], b);
    } else {
      assert a + b == b;
    }
  }

  lemma {:induction false} RoundsComplete(max: u32, s: State, rounds: seq<seq<Core>>)
    requires Inv(max, s) && forall i | 0 <= i < |rounds| :: Core0 in rounds[i] && Core1 in rounds[i]
    requires s.main != Done ==> Left(s) <= |rounds|
    ensures RunFrom(max, s, Flatten(rounds)).main == Done
    decreases |rounds|
  {
    hide Inv;
    if rounds != [] {
      var t := RunFrom(max, s, rounds[0]);
      RunFromAppend(max, s, rounds[0], Flatten(rounds[1..]));
      RoundProgress(max, s, rounds[0]);
      RoundsComplete(max, t, rounds[1..]);
    }
  }

  /**
    Under every fair schedule the hand-off completes: after 13 rounds, in each of which both cores get to
    run at least once, core 0 is done and has the right count.
  */
  lemma Completes(max: u32, s: State, rounds: seq<seq<Core>>)
    requires Init(s) && |rounds| >= 13
    requires forall i | 0 <= i < |rounds| :: Core0 in rounds[i] && Core1 in rounds[i]
    ensures Run(max, s, Flatten(rounds)).main == Done
    ensures max <= BLIND_SPOT ==> Run(max, s, Flatten(rounds)).result == PrimeCount(0, max)
  {
    RunInv(max, s, []);
    RoundsComplete(max, s, rounds);
    RunIsRunFrom(max, s, Flatten(rounds));
    HandOff(max, s, Flatten(rounds));
  }
}
