/**
  What a lock is: at every moment it is free or held by one hart, and only that hart can free it.
*/
module LockSpec {
  import opened Bytes

  datatype Lock = Free | Held(owner: nat)

  datatype Event = Acquire(hart: nat) | Release(hart: nat) | Internal

  /** What an event does to the lock, if the lock allows it. */
  function Apply(before: Lock, e: Event): Option<Lock> {
    match e
    case Acquire(h) => if before == Free then Some(Held(h)) else None
    case Release(h) => if before == Held(h) then Some(Free) else None
    case Internal => Some(before)
  }

  /** The lock after some events. */
  function After(first: Lock, es: seq<Event>): Option<Lock> {
    if es == [] then Some(first)
    else
      var before := After(first, es[..|es| - 1]);
      if before.None? then None else Apply(before.value, es[|es| - 1])
  }

  lemma {:induction false} HeldSince(first: Lock, es: seq<Event>, i: nat)
    requires After(first, es).Some? && i < |es| && es[i].Acquire?
    ensures After(first, es) == Some(Held(es[i].hart)) || exists k :: i < k < |es| && es[k] == Release(es[i].hart)
  {
    var n := |es| - 1;
    if i < n {
      HeldSince(first, es[..n], i);
      if k :| i < k < n && es[..n][k] == Release(es[i].hart) {
        assert es[k] == Release(es[i].hart);
      } else {
        assert es[n] == Release(es[i].hart) || After(first, es) == Some(Held(es[i].hart));
      }
    }
  }

  lemma {:induction false} AfterPrefix(first: Lock, es: seq<Event>, j: nat)
    requires After(first, es).Some? && j < |es|
    ensures After(first, es[..j]).Some? && Apply(After(first, es[..j]).value, es[j]).Some?
  {
    var n := |es| - 1;
    if j < n {
      AfterPrefix(first, es[..n], j);
      assert es[..n][..j] == es[..j];
    }
  }

  /** Critical sections exclude each other: between two acquisitions the first holder has released. */
  lemma Exclusive(first: Lock, es: seq<Event>, i: nat, j: nat)
    requires After(first, es).Some? && i < j < |es| && es[i].Acquire? && es[j].Acquire?
    ensures exists k :: i < k < j && es[k] == Release(es[i].hart)
  {
    AfterPrefix(first, es, j);
    HeldSince(first, es[..j], i);
    var k :| i < k < j && es[..j][k] == Release(es[..j][i].hart);
    assert es[k] == Release(es[i].hart);
  }
}

/**
  The lock on load-reserved and store-conditional, as steps of any number of harts. A step is one access to
  the shared word, or the loss of a reservation. A store-conditional succeeds only under a reservation, may
  fail under one, and ends the reservations of all harts when it succeeds.
*/
module ReservationLock {
  import opened Bytes
  import opened LockSpec

  const LOCKED: u32 := 0xFFFF_FFFF

  /** `Spinning` and `Swapping` are inside the acquiring call, `Leaving` and `Clearing` inside the releasing one. */
  datatype Place = Outside | Spinning | Swapping | Critical | Leaving | Clearing

  datatype Hart = Hart(place: Place, reserved: bool)

  datatype State = State(word: u32, harts: seq<Hart>)

  datatype Step =
    | CallLock(hart: nat)
    | CallUnlock(hart: nat)
    | LoadReserved(hart: nat)
    | StoreConditional(hart: nat, lucky: bool)
    | Check(hart: nat)
    | Lose(hart: nat)

  function Init(n: nat): State {
    State(0, seq(n, _ => Hart(Outside, false)))
  }

  function Put(s: State, h: nat, hart: Hart): State
    requires h < |s.harts|
  {
    s.(harts := s.harts[h := hart])
  }

  /** A successful store: every reservation ends. */
  function Store(s: State, h: nat, value: u32, place: Place): (t: State)
    requires h < |s.harts|
    ensures |t.harts| == |s.harts|
  {
    State(value, seq(|s.harts|, i requires 0 <= i < |s.harts| =>
      Hart(if i == h then place else s.harts[i].place, false)))
  }

  /** One step, if it is possible. */
  function Next(s: State, step: Step): (t: Option<State>)
    ensures t.Some? ==> |t.value.harts| == |s.harts|
  {
    if step.hart >= |s.harts| then None
    else
      var h, hart := step.hart, s.harts[step.hart];
      match step
      case CallLock(_) =>
        if hart.place == Outside then Some(Put(s, h, hart.(place := Spinning))) else None
      case CallUnlock(_) =>
        if hart.place == Critical then Some(Put(s, h, hart.(place := Leaving))) else None
      case LoadReserved(_) =>
        if hart.place == Spinning then Some(Put(s, h, Hart(if s.word == 0 then Swapping else Spinning, true)))
        else if hart.place == Leaving then Some(Put(s, h, Hart(Clearing, true)))
        else None
      case StoreConditional(_, lucky) =>
        if hart.place == Swapping then
          Some(if lucky && hart.reserved then Store(s, h, LOCKED, Critical) else Put(s, h, Hart(Spinning, false)))
        else if hart.place == Clearing then
          Some(if lucky && hart.reserved then Store(s, h, 0, Outside) else Put(s, h, Hart(Leaving, false)))
        else None
      case Check(_) =>
        if hart.place == Outside || hart.place == Critical then Some(Put(s, h, hart.(reserved := true))) else None
      case Lose(_) => Some(Put(s, h, hart.(reserved := false)))
  }

  /** From the return of the acquiring call to the successful store of the releasing one. */
  predicate Holds(s: State, h: nat) {
    h < |s.harts| && (s.harts[h].place == Critical || s.harts[h].place == Leaving || s.harts[h].place == Clearing)
  }

  ghost predicate MutualExclusion(s: State) {
    forall g, h | Holds(s, g) && Holds(s, h) :: g == h
  }

  /** A live reservation under which 0 was read means that the word is still 0. */
  ghost predicate Fresh(s: State, h: nat) {
    h < |s.harts| && s.harts[h].place == Swapping && s.harts[h].reserved ==> s.word == 0
  }

  ghost predicate Inv(s: State) {
    && (s.word == 0 || s.word == LOCKED)
    && MutualExclusion(s)
    && (s.word == 0 <==> forall h :: !Holds(s, h))
    && (forall h :: Fresh(s, h))
  }

  /** The lock this state stands for. */
  ghost function Abs(s: State): Lock {
    if h: nat :| Holds(s, h) then Held(h) else Free
  }

  lemma AbsHeld(s: State, h: nat)
    requires MutualExclusion(s) && Holds(s, h)
    ensures Abs(s) == Held(h)
  {
  }

  function EventOf(s: State, step: Step): Event {
    if step.StoreConditional? && step.hart < |s.harts| && step.lucky && s.harts[step.hart].reserved then
      if s.harts[step.hart].place == Swapping then Acquire(step.hart)
      else if s.harts[step.hart].place == Clearing then Release(step.hart)
      else Internal
    else Internal
  }

  /** A step that is not a successful store neither starts nor ends holding. */
  lemma KeepsHolders(s: State, step: Step, t: State)
    requires Next(s, step) == Some(t) && EventOf(s, step).Internal?
    ensures forall h :: Holds(t, h) <==> Holds(s, h)
    ensures t.word == s.word
  {
  }

  lemma InternalStep(s: State, step: Step, t: State)
    requires Inv(s) && Next(s, step) == Some(t) && EventOf(s, step).Internal?
    ensures Inv(t) && Abs(t) == Abs(s)
  {
    KeepsHolders(s, step, t);
    forall h: nat
      ensures Fresh(t, h)
    {
      assert Fresh(s, h);
    }
    if h: nat :| Holds(s, h) {
      AbsHeld(s, h);
      AbsHeld(t, h);
    }
  }

  lemma AcquireStep(s: State, step: Step, t: State)
    requires Inv(s) && Next(s, step) == Some(t) && EventOf(s, step).Acquire?
    ensures Inv(t) && Abs(s) == Free && Abs(t) == Held(step.hart)
  {
    assert Fresh(s, step.hart);
    forall h: nat
      ensures Holds(t, h) <==> h == step.hart
    {
      assert !Holds(s, h);
    }
    AbsHeld(t, step.hart);
  }

  lemma ReleaseStep(s: State, step: Step, t: State)
    requires Inv(s) && Next(s, step) == Some(t) && EventOf(s, step).Release?
    ensures Inv(t) && Abs(s) == Held(step.hart) && Abs(t) == Free
  {
    assert Holds(s, step.hart);
    AbsHeld(s, step.hart);
    assert forall h :: Holds(t, h) ==> Holds(s, h) && h != step.hart;
  }

  /** Every step keeps the invariant and is a step of the abstract lock. */
  lemma StepRefines(s: State, step: Step, t: State)
    requires Inv(s) && Next(s, step) == Some(t)
    ensures Inv(t) && Apply(Abs(s), EventOf(s, step)) == Some(Abs(t))
  {
    match EventOf(s, step)
    case Acquire(_) => AcquireStep(s, step, t);
    case Release(_) => ReleaseStep(s, step, t);
    case Internal => InternalStep(s, step, t);
  }

  /** The state after some steps. */
  function Run(s: State, steps: seq<Step>): Option<State> {
    if steps == [] then Some(s)
    else
      var before := Run(s, steps[..|steps| - 1]);
      if before.None? then None else Next(before.value, steps[|steps| - 1])
  }

  function Trace(s: State, steps: seq<Step>): seq<Event> {
    if steps == [] then []
    else
      var before := Run(s, steps[..|steps| - 1]);
      Trace(s, steps[..|steps| - 1]) + [if before.None? then Internal else EventOf(before.value, steps[|steps| - 1])]
  }

  /** In every run of any number of harts at most one holds the lock, and the run is one of the abstract lock. */
  lemma {:induction false} RunRefines(n: nat, steps: seq<Step>, t: State)
    requires Run(Init(n), steps) == Some(t)
    ensures Inv(t) && MutualExclusion(t)
    ensures After(Free, Trace(Init(n), steps)) == Some(Abs(t))
  {
    if steps != [] {
      var k := |steps| - 1;
      var before := Run(Init(n), steps[..k]).value;
      RunRefines(n, steps[..k], before);
      StepRefines(before, steps[k], t);
      var es := Trace(Init(n), steps);
      assert es[..|es| - 1] == Trace(Init(n), steps[..k]);
    } else {
      assert forall h :: !Holds(t, h);
    }
  }

  /** `spin_check` reads a nonzero word exactly while some hart holds the lock. */
  lemma CheckIsRight(n: nat, steps: seq<Step>, t: State)
    requires Run(Init(n), steps) == Some(t)
    ensures t.word != 0 <==> exists h :: Holds(t, h)
  {
    RunRefines(n, steps, t);
  }

  /** The check is possible outside the other calls, and changes neither word nor owner; it takes a reservation. */
  lemma CheckIsHarmless(n: nat, steps: seq<Step>, t: State, h: nat)
    requires Run(Init(n), steps) == Some(t) && h < |t.harts|
    requires t.harts[h].place == Outside || t.harts[h].place == Critical
    ensures var u := Run(Init(n), steps + [Check(h)]);
            && u.Some? && u.value.word == t.word && Abs(u.value) == Abs(t)
            && u.value.harts[h] == Hart(t.harts[h].place, true)
  {
    RunRefines(n, steps, t);
    RunNext(Init(n), steps, t, Check(h));
    InternalStep(t, Check(h), Next(t, Check(h)).value);
  }

  /** A free lock can be taken by any hart that spins, in the two accesses of one attempt. */
  lemma FreeLockCanBeTaken(n: nat, steps: seq<Step>, t: State, h: nat)
    requires Run(Init(n), steps) == Some(t)
    requires h < |t.harts| && t.harts[h].place == Spinning && forall g :: !Holds(t, g)
    ensures var u := Run(Init(n), steps + [LoadReserved(h), StoreConditional(h, true)]);
            u.Some? && Abs(u.value) == Held(h) && u.value.word == 0xFFFF_FFFF
  {
    RunRefines(n, steps, t);
    var steps1, steps2 := steps + [LoadReserved(h)], steps + [LoadReserved(h), StoreConditional(h, true)];
    assert steps1[..|steps1| - 1] == steps && steps2[..|steps2| - 1] == steps1;
    var t1 := Run(Init(n), steps1).value;
    assert t1.harts[h] == Hart(Swapping, true);
    RunRefines(n, steps1, t1);
    AcquireStep(t1, StoreConditional(h, true), Next(t1, StoreConditional(h, true)).value);
  }

  lemma RunNext(s: State, steps: seq<Step>, t: State, step: Step)
    requires Run(s, steps) == Some(t)
    ensures Run(s, steps + [step]) == Next(t, step)
  {
    assert (steps + [step])[..|steps + [step]| - 1] == steps;
  }

  lemma RunTwo(s: State, steps: seq<Step>, t: State, a: Step, b: Step)
    requires Run(s, steps) == Some(t)
    ensures Run(s, steps + [a, b]) == match Next(t, a)
                                      case None => None
                                      case Some(u) => Next(u, b)
  {
    assert (steps + [a, b])[..|steps + [a, b]| - 1] == steps + [a];
    RunNext(s, steps, t, a);
  }

  /** No lock is held for ever: the releasing call frees it in the two accesses of one attempt, and returns. */
  lemma HeldLockCanBeReleased(n: nat, steps: seq<Step>, t: State, h: nat)
    requires Run(Init(n), steps) == Some(t) && h < |t.harts| && t.harts[h].place == Leaving
    ensures var u := Run(Init(n), steps + [LoadReserved(h), StoreConditional(h, true)]);
            u.Some? && u.value.word == 0 && Abs(u.value) == Free && u.value.harts[h].place == Outside
  {
    RunRefines(n, steps, t);
    RunTwo(Init(n), steps, t, LoadReserved(h), StoreConditional(h, true));
    var t1 := Next(t, LoadReserved(h)).value;
    StepRefines(t, LoadReserved(h), t1);
    ReleaseStep(t1, StoreConditional(h, true), Next(t1, StoreConditional(h, true)).value);
  }

  /** An attempt of either call that fails changes neither word nor owner, and the call tries again. */
  lemma FailedAttempt(n: nat, steps: seq<Step>, t: State, h: nat, lucky: bool)
    requires Run(Init(n), steps) == Some(t) && h < |t.harts| && !(lucky && t.harts[h].reserved)
    requires t.harts[h].place == Swapping || t.harts[h].place == Clearing
    ensures var u := Run(Init(n), steps + [StoreConditional(h, lucky)]);
            && u.Some? && u.value.word == t.word && Abs(u.value) == Abs(t)
            && u.value.harts[h].place == if t.harts[h].place == Swapping then Spinning else Leaving
  {
    RunRefines(n, steps, t);
    RunNext(Init(n), steps, t, StoreConditional(h, lucky));
    InternalStep(t, StoreConditional(h, lucky), Next(t, StoreConditional(h, lucky)).value);
  }

  /** While the lock is held, a hart that reads the word goes on spinning. */
  lemma SpinsWhileHeld(n: nat, steps: seq<Step>, t: State, g: nat, h: nat)
    requires Run(Init(n), steps) == Some(t) && Holds(t, g) && h < |t.harts| && t.harts[h].place == Spinning
    ensures var u := Run(Init(n), steps + [LoadReserved(h)]);
            u.Some? && u.value.word == t.word && Abs(u.value) == Held(g) && u.value.harts[h].place == Spinning
  {
    RunRefines(n, steps, t);
    RunNext(Init(n), steps, t, LoadReserved(h));
    InternalStep(t, LoadReserved(h), Next(t, LoadReserved(h)).value);
    AbsHeld(t, g);
  }

  /** Steps that bring the holder out of its critical section and of the releasing call. */
  lemma Freed(n: nat, steps: seq<Step>, t: State, g: nat) returns (more: seq<Step>, u: State)
    requires Run(Init(n), steps) == Some(t) && Holds(t, g)
    ensures Run(Init(n), steps + more) == Some(u) && Abs(u) == Free
    ensures |u.harts| == |t.harts| && u.harts[g].place == Outside
    ensures forall h | 0 <= h < |t.harts| && h != g :: u.harts[h].place == t.harts[h].place
  {
    var step := if t.harts[g].place == Critical then CallUnlock(g)
                else if t.harts[g].place == Clearing then StoreConditional(g, false) else Lose(g);
    RunNext(Init(n), steps, t, step);
    var t1 := Next(t, step).value;
    HeldLockCanBeReleased(n, steps + [step], t1, g);
    RunTwo(Init(n), steps + [step], t1, LoadReserved(g), StoreConditional(g, true));
    more := [step, LoadReserved(g), StoreConditional(g, true)];
    assert steps + more == steps + [step] + [LoadReserved(g), StoreConditional(g, true)];
    u := Run(Init(n), steps + more).value;
  }

  /** Steps that bring any hart into its critical section while the lock is free. */
  lemma Taken(n: nat, steps: seq<Step>, t: State, h: nat) returns (more: seq<Step>)
    requires Run(Init(n), steps) == Some(t) && Abs(t) == Free && h < |t.harts|
    ensures var u := Run(Init(n), steps + more); u.Some? && Abs(u.value) == Held(h)
  {
    RunRefines(n, steps, t);
    FreeMeans(t);
    assert !Holds(t, h);
    var step := if t.harts[h].place == Outside then CallLock(h)
                else if t.harts[h].place == Swapping then StoreConditional(h, false) else Lose(h);
    RunNext(Init(n), steps, t, step);
    var t1 := Next(t, step).value;
    assert EventOf(t, step).Internal? && t1.harts[h].place == Spinning;
    KeepsHolders(t, step, t1);
    FreeLockCanBeTaken(n, steps + [step], t1, h);
    more := [step, LoadReserved(h), StoreConditional(h, true)];
    assert steps + more == steps + [step] + [LoadReserved(h), StoreConditional(h, true)];
  }

  /** There is no deadlock: from every state of every run, every hart can still come to hold the lock. */
  lemma NoDeadlock(n: nat, steps: seq<Step>, t: State, h: nat) returns (more: seq<Step>)
    requires Run(Init(n), steps) == Some(t) && h < n
    ensures var u := Run(Init(n), steps + more); u.Some? && Abs(u.value) == Held(h)
  {
    hide Next, Init, Run, Holds;
    SameHarts(n, steps, t);
    RunRefines(n, steps, t);
    assert steps + [] == steps;
    if Holds(t, h) {
      AbsHeld(t, h);
      return [];
    }
    more := [];
    var u := t;
    if g: nat :| Holds(t, g) {
      more, u := Freed(n, steps, t, g);
    }
    var rest := Taken(n, steps + more, u, h);
    assert steps + (more + rest) == steps + more + rest;
    more := more + rest;
  }

  lemma FreeMeans(s: State)
    requires Inv(s) && Abs(s) == Free
    ensures forall h :: !Holds(s, h)
  {
    forall h
      ensures !Holds(s, h)
    {
      if Holds(s, h) {
        AbsHeld(s, h);
      }
    }
  }

  lemma {:induction false} SameHarts(n: nat, steps: seq<Step>, t: State)
    requires Run(Init(n), steps) == Some(t)
    ensures |t.harts| == n
  {
    if steps != [] {
      SameHarts(n, steps[..|steps| - 1], Run(Init(n), steps[..|steps| - 1]).value);
    }
  }
}

/** The lock on atomic swaps: one access to acquire or fail, one access to release. */
module SwapLock {
  import opened Bytes
  import opened LockSpec

  const LOCKED: u32 := 0xFFFF_FFFF

  datatype Place = Outside | Spinning | Critical | Leaving

  datatype State = State(word: u32, harts: seq<Place>)

  datatype Step = CallLock(hart: nat) | CallUnlock(hart: nat) | Swap(hart: nat)

  function Init(n: nat): State {
    State(0, seq(n, _ => Outside))
  }

  function Next(s: State, step: Step): (t: Option<State>)
    ensures t.Some? ==> |t.value.harts| == |s.harts|
  {
    if step.hart >= |s.harts| then None
    else
      var h, place := step.hart, s.harts[step.hart];
      match step
      case CallLock(_) => if place == Outside then Some(s.(harts := s.harts[h := Spinning])) else None
      case CallUnlock(_) => if place == Critical then Some(s.(harts := s.harts[h := Leaving])) else None
      case Swap(_) =>
        if place == Spinning then Some(State(LOCKED, s.harts[h := if s.word == 0 then Critical else Spinning]))
        else if place == Leaving then Some(State(0, s.harts[h := Outside]))
        else None
  }

  predicate Holds(s: State, h: nat) {
    h < |s.harts| && (s.harts[h] == Critical || s.harts[h] == Leaving)
  }

  ghost predicate MutualExclusion(s: State) {
    forall g, h | Holds(s, g) && Holds(s, h) :: g == h
  }

  ghost predicate Inv(s: State) {
    && (s.word == 0 || s.word == LOCKED)
    && MutualExclusion(s)
    && (s.word == 0 <==> forall h :: !Holds(s, h))
  }

  ghost function Abs(s: State): Lock {
    if h: nat :| Holds(s, h) then Held(h) else Free
  }

  lemma AbsHeld(s: State, h: nat)
    requires MutualExclusion(s) && Holds(s, h)
    ensures Abs(s) == Held(h)
  {
  }

  function EventOf(s: State, step: Step): Event {
    if step.Swap? && step.hart < |s.harts| then
      if s.harts[step.hart] == Spinning && s.word == 0 then Acquire(step.hart)
      else if s.harts[step.hart] == Leaving then Release(step.hart)
      else Internal
    else Internal
  }

  lemma StepRefines(s: State, step: Step, t: State)
    requires Inv(s) && Next(s, step) == Some(t)
    ensures Inv(t) && Apply(Abs(s), EventOf(s, step)) == Some(Abs(t))
  {
    match EventOf(s, step)
    case Acquire(h) =>
      forall g: nat
        ensures Holds(t, g) <==> g == h
      {
        assert !Holds(s, g);
      }
      AbsHeld(t, h);
    case Release(h) =>
      assert Holds(s, h);
      AbsHeld(s, h);
      assert forall g :: Holds(t, g) ==> Holds(s, g) && g != h;
    case Internal =>
      assert forall g :: Holds(t, g) <==> Holds(s, g);
      if g: nat :| Holds(s, g) {
        AbsHeld(s, g);
        AbsHeld(t, g);
      }
  }

  function Run(s: State, steps: seq<Step>): Option<State> {
    if steps == [] then Some(s)
    else
      var before := Run(s, steps[..|steps| - 1]);
      if before.None? then None else Next(before.value, steps[|steps| - 1])
  }

  function Trace(s: State, steps: seq<Step>): seq<Event> {
    if steps == [] then []
    else
      var before := Run(s, steps[..|steps| - 1]);
      Trace(s, steps[..|steps| - 1]) + [if before.None? then Internal else EventOf(before.value, steps[|steps| - 1])]
  }

  /** The swap version keeps the same safety and refines the same lock. */
  lemma {:induction false} RunRefines(n: nat, steps: seq<Step>, t: State)
    requires Run(Init(n), steps) == Some(t)
    ensures Inv(t) && MutualExclusion(t)
    ensures After(Free, Trace(Init(n), steps)) == Some(Abs(t))
  {
    if steps != [] {
      var k := |steps| - 1;
      var before := Run(Init(n), steps[..k]).value;
      RunRefines(n, steps[..k], before);
      StepRefines(before, steps[k], t);
      var es := Trace(Init(n), steps);
      assert es[..|es| - 1] == Trace(Init(n), steps[..k]);
    } else {
      assert forall h :: !Holds(t, h);
    }
  }

  lemma RunNext(s: State, steps: seq<Step>, t: State, step: Step)
    requires Run(s, steps) == Some(t)
    ensures Run(s, steps + [step]) == Next(t, step)
  {
    assert (steps + [step])[..|steps + [step]| - 1] == steps;
  }

  lemma {:induction false} SameHarts(n: nat, steps: seq<Step>, t: State)
    requires Run(Init(n), steps) == Some(t)
    ensures |t.harts| == n
  {
    if steps != [] {
      SameHarts(n, steps[..|steps| - 1], Run(Init(n), steps[..|steps| - 1]).value);
    }
  }

  lemma FreeMeans(s: State)
    requires Inv(s)
    ensures Abs(s) == Free <==> forall h :: !Holds(s, h)
  {
    if h: nat :| Holds(s, h) {
      AbsHeld(s, h);
    }
  }

  /** One swap takes a free lock and returns; while the lock is held, it leaves the hart spinning. */
  lemma SwapTakesOrSpins(n: nat, steps: seq<Step>, t: State, h: nat)
    requires Run(Init(n), steps) == Some(t) && h < |t.harts| && t.harts[h] == Spinning
    ensures var u := Run(Init(n), steps + [Swap(h)]);
            && u.Some?
            && u.value.word == 0xFFFF_FFFF
            && (if Abs(t) == Free then Abs(u.value) == Held(h) && u.value.harts[h] == Critical
                else Abs(u.value) == Abs(t) && u.value.harts[h] == Spinning)
  {
    RunRefines(n, steps, t);
    RunNext(Init(n), steps, t, Swap(h));
    StepRefines(t, Swap(h), Next(t, Swap(h)).value);
    FreeMeans(t);
  }

  /** One swap releases the lock, and the call returns. */
  lemma SwapReleases(n: nat, steps: seq<Step>, t: State, h: nat)
    requires Run(Init(n), steps) == Some(t) && h < |t.harts| && t.harts[h] == Leaving
    ensures var u := Run(Init(n), steps + [Swap(h)]);
            u.Some? && u.value.word == 0 && Abs(u.value) == Free && u.value.harts[h] == Outside
  {
    RunRefines(n, steps, t);
    RunNext(Init(n), steps, t, Swap(h));
    StepRefines(t, Swap(h), Next(t, Swap(h)).value);
  }

  lemma Freed(n: nat, steps: seq<Step>, t: State, g: nat) returns (more: seq<Step>, u: State)
    requires Run(Init(n), steps) == Some(t) && Holds(t, g)
    ensures Run(Init(n), steps + more) == Some(u) && Abs(u) == Free && |u.harts| == |t.harts|
  {
    more, u := [], t;
    assert steps + [] == steps;
    if t.harts[g] == Critical {
      RunNext(Init(n), steps, t, CallUnlock(g));
      more, u := [CallUnlock(g)], Next(t, CallUnlock(g)).value;
    }
    SwapReleases(n, steps + more, u, g);
    RunNext(Init(n), steps + more, u, Swap(g));
    assert steps + more + [Swap(g)] == steps + (more + [Swap(g)]);
    more, u := more + [Swap(g)], Next(u, Swap(g)).value;
  }

  lemma Taken(n: nat, steps: seq<Step>, t: State, h: nat) returns (more: seq<Step>)
    requires Run(Init(n), steps) == Some(t) && Abs(t) == Free && h < |t.harts|
    ensures var u := Run(Init(n), steps + more); u.Some? && Abs(u.value) == Held(h)
  {
    RunRefines(n, steps, t);
    FreeMeans(t);
    assert !Holds(t, h);
    more := [];
    var u := t;
    assert steps + [] == steps;
    if t.harts[h] == Outside {
      RunNext(Init(n), steps, t, CallLock(h));
      StepRefines(t, CallLock(h), Next(t, CallLock(h)).value);
      more, u := [CallLock(h)], Next(t, CallLock(h)).value;
    }
    SwapTakesOrSpins(n, steps + more, u, h);
    assert steps + more + [Swap(h)] == steps + (more + [Swap(h)]);
    more := more + [Swap(h)];
  }

  /** From every state of every run, every hart can still come to hold the lock. */
  lemma NoDeadlock(n: nat, steps: seq<Step>, t: State, h: nat) returns (more: seq<Step>)
    requires Run(Init(n), steps) == Some(t) && h < n
    ensures var u := Run(Init(n), steps + more); u.Some? && Abs(u.value) == Held(h)
  {
    hide Next, Init, Run, Holds;
    SameHarts(n, steps, t);
    RunRefines(n, steps, t);
    FreeMeans(t);
    assert steps + [] == steps;
    if Holds(t, h) {
      AbsHeld(t, h);
      return [];
    }
    more := [];
    var u := t;
    if g: nat :| Holds(t, g) {
      more, u := Freed(n, steps, t, g);
    }
    var rest := Taken(n, steps + more, u, h);
    assert steps + (more + rest) == steps + more + rest;
    more := more + rest;
  }
}
