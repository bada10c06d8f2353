/** Runs of a BAM pipe in any order of its steps, slot by slot. */
module BamSteps {
  import opened Bits
  import opened BamRing
  import opened BamPipe

  /** What driver and hardware do: a request is added, the hardware reads what is ready, the
      driver reads back where the hardware is. */
  datatype Step = Add(r: Request) | Consume | ReadBack

  /** A pipe in slots: where the driver writes next; the 16 bits it keeps of the slot behind
      the one where it last saw the hardware; up to where descriptors are ready; where the
      hardware is, and what it has read. */
  datatype Machine = Machine(ring: seq<Desc>, current: nat, behind: nat, ready: nat, position: nat, log: seq<Desc>)

  /** Slots that 16 bits of an offset can tell apart. */
  const SLOTS := 0x2000

  ghost predicate Size(n: nat) {
    1 <= n <= 2 * SLOTS && IsPow2(n)
  }

  ghost predicate Sound(s: Machine) {
    Size(|s.ring|) && s.current < |s.ring| && s.behind < SLOTS && s.ready < |s.ring| && s.position < |s.ring|
  }

  /** The ring after `ds` was written from slot `start` on. */
  function Put(ring: seq<Desc>, start: nat, ds: seq<Desc>): (r: seq<Desc>)
    requires start < |ring| && |ds| <= |ring|
    ensures |r| == |ring|
  {
    seq(|ring|, i requires 0 <= i < |ring| =>
      var j := Distance(start, i, |ring|);
      if j < |ds| then ds[j] else ring[i])
  }

  lemma PutIs(before: seq<Desc>, ring: seq<Desc>, start: nat, ds: seq<Desc>)
    requires Placed(before, ring, start, ds)
    ensures ring == Put(before, start, ds)
  {
    var n := |ring|;
    forall i | 0 <= i < n
      ensures ring[i] == Put(before, start, ds)[i]
    {
      var j := Distance(start, i, n);
      assert At(start, j, n) == i;
      if j < |ds| {
        assert Window(ring, start, |ds|)[j] == ring[i];
      }
    }
  }

  lemma PutWindow(ring: seq<Desc>, start: nat, ds: seq<Desc>)
    requires start < |ring| && |ds| <= |ring|
    ensures Window(Put(ring, start, ds), start, |ds|) == ds
  {
    forall j | 0 <= j < |ds|
      ensures Window(Put(ring, start, ds), start, |ds|)[j] == ds[j]
    {
      DistanceAt(start, j, |ring|);
    }
  }

  ghost function Next(s: Machine, step: Step): (t: Machine)
    requires Sound(s)
    ensures Sound(t) && |t.ring| == |s.ring|
  {
    match step
    case Add(r) =>
      if Refused(r, |s.ring|) then s
      else
        WantedFits(r, |s.ring|);
        var n, ds := |Wanted(r)|, Written(r, true);
        s.(ring := Put(s.ring, s.current, ds), current := At(s.current, |ds|, |s.ring|),
           ready := if n < |s.ring| then (s.behind + n - 1) % |s.ring| else s.ready)
    case Consume =>
      s.(position := s.ready, log := s.log + Window(s.ring, s.position, Distance(s.position, s.ready, |s.ring|)))
    case ReadBack =>
      s.(current := s.position % SLOTS, behind := (s.position + 1) % SLOTS)
  }

  ghost function After(s: Machine, steps: seq<Step>): (t: Machine)
    requires Sound(s)
    ensures Sound(t) && |t.ring| == |s.ring|
  {
    if steps == [] then s else Next(After(s, steps[..|steps| - 1]), steps[|steps| - 1])
  }

  /** A request that the driver accepts. */
  predicate Puts(step: Step, size: nat) {
    step.Add? && !Refused(step.r, size)
  }

  function Asked(step: Step, size: nat): seq<Desc> {
    if Puts(step, size) then Wanted(step.r) else []
  }

  /** The descriptors of all requests that were accepted. */
  function Requested(steps: seq<Step>, size: nat): seq<Desc> {
    if steps == [] then [] else Requested(steps[..|steps| - 1], size) + Asked(steps[|steps| - 1], size)
  }

  /** The slot behind all of them, if the first one is at `start`. */
  function EndOf(start: nat, steps: seq<Step>, size: nat): (x: nat)
    requires start < size
    ensures x < size
  {
    if steps == [] then start
    else
      var last := steps[|steps| - 1];
      var x := EndOf(start, steps[..|steps| - 1], size);
      if !Puts(last, size) then x
      else
        WantedFits(last.r, size);
        At(x, |Wanted(last.r)|, size)
  }

  /** 16 bits of an offset are enough to go on from slot `x`. */
  predicate Tracked(x: nat, size: nat) {
    size <= SLOTS || x + 1 < SLOTS
  }

  /** Where a run stands: in step; something is ready; it was read, but not read back; or
      something went wrong. */
  datatype Phase = InStep | Announced | Taken | Broken

  /** A step in a ring of `size` slots; the next request is due at slot `x`. A request that
      is refused changes nothing; one that fills the whole ring is never announced. */
  function Turn(phase: Phase, step: Step, x: nat, size: nat): Phase {
    match step
    case Add(r) =>
      if Refused(r, size) then phase
      else if phase == InStep && |Wanted(r)| < size && Tracked(x, size) then Announced
      else Broken
    case Consume => if phase == Announced then Taken else phase
    case ReadBack => if phase == Taken then InStep else phase
  }

  function PhaseOf(start: nat, steps: seq<Step>, size: nat): Phase
    requires start < size
  {
    if steps == [] then InStep
    else
      var init := steps[..|steps| - 1];
      Turn(PhaseOf(start, init, size), steps[|steps| - 1], EndOf(start, init, size), size)
  }

  /** Each request leaves a slot of the ring free and is added, at a slot that 16 bits can
      tell, after the hardware has read the one before it and the driver has then read the
      offset back. */
  predicate Orderly(start: nat, steps: seq<Step>, size: nat)
    requires start < size
  {
    PhaseOf(start, steps, size) != Broken
  }

  /** Every accepted request carries flags that its last descriptor may carry. */
  ghost predicate AllFlagged(steps: seq<Step>, size: nat) {
    forall i :: 0 <= i < |steps| && Puts(steps[i], size) ==> FlagsOk(steps[i].r.flags % 256)
  }

  /** If the hardware reads now, it has read exactly what was requested so far. */
  ghost predicate ReadsAll(s: Machine, steps: seq<Step>)
    requires Sound(s)
  {
    After(s, steps + [Consume]).log == s.log + Requested(steps, |s.ring|)
  }

  /** Nothing is ready, and the driver knows what 16 bits tell of where the hardware is. */
  ghost predicate AtRest(s: Machine) {
    Sound(s) && s.ready == s.position && s.current == s.position % SLOTS && s.behind == (s.position + 1) % SLOTS
  }

  /** The driver counts from where the hardware is. */
  predicate Counts(behind: nat, position: nat, size: nat)
    requires size >= 1
  {
    behind % size == (position + 1) % size
  }

  /** What holds in each phase of a run, with the next request due at slot `x`. */
  ghost predicate Standing(s: Machine, t: Machine, phase: Phase, x: nat, asked: seq<Desc>)
    requires Sound(t)
  {
    match phase
    case InStep => t.log == s.log + asked && AtRest(t) && t.position == x
    case Announced =>
      && t.ready == x && t.position != x
      && t.behind == (t.position + 1) % SLOTS && Counts(t.behind, t.position, |t.ring|)
      && t.log + Window(t.ring, t.position, Distance(t.position, x, |t.ring|)) == s.log + asked
    case Taken => t.log == s.log + asked && t.ready == t.position == x && !Counts(t.behind, x, |t.ring|)
    case Broken => true
  }

  lemma {:induction false} StandingKept(s: Machine, steps: seq<Step>)
    requires AtRest(s) && AllFlagged(steps, |s.ring|)
    ensures var size, x := |s.ring|, s.position;
      Standing(s, After(s, steps), PhaseOf(x, steps, size), EndOf(x, steps, size), Requested(steps, size))
  {
    if steps == [] {
      assert s.log + [] == s.log;
    } else {
      var k := |steps| - 1;
      StandingKept(s, steps[..k]);
      var x, size := s.position, |s.ring|;
      StandingStep(s, After(s, steps[..k]), PhaseOf(x, steps[..k], size), EndOf(x, steps[..k], size), Requested(steps[..k], size), steps[k]);
      hide Next, Turn, Standing, Asked, Wanted, Refused, FlagsOk;
    }
  }

  lemma StandingStep(s: Machine, t: Machine, phase: Phase, x: nat, asked: seq<Desc>, step: Step)
    requires Sound(t) && Standing(s, t, phase, x, asked) && x < |t.ring|
    requires Puts(step, |t.ring|) ==> FlagsOk(step.r.flags % 256) && |Wanted(step.r)| <= |t.ring|
    ensures var size := |t.ring|;
      var x' := if Puts(step, size) then At(x, |Wanted(step.r)|, size) else x;
      Standing(s, Next(t, step), Turn(phase, step, x, size), x', asked + Asked(step, size))
  {
    assert asked + [] == asked;
    match step {
      case Add(r) =>
        StandingAdd(s, t, phase, x, asked, r);
      case Consume =>
        StandingConsume(s, t, phase, x, asked);
      case ReadBack =>
        StandingReadBack(s, t, phase, x, asked);
    }
    hide Standing, Next, Turn, Wanted, Refused, At, FlagsOk;
  }

  lemma StandingAdd(s: Machine, t: Machine, phase: Phase, x: nat, asked: seq<Desc>, r: Request)
    requires Sound(t) && Standing(s, t, phase, x, asked) && x < |t.ring|
    requires Puts(Add(r), |t.ring|) ==> FlagsOk(r.flags % 256) && |Wanted(r)| <= |t.ring|
    ensures var size := |t.ring|;
      var x' := if Puts(Add(r), size) then At(x, |Wanted(r)|, size) else x;
      Standing(s, Next(t, Add(r)), Turn(phase, Add(r), x, size), x', asked + Asked(Add(r), size))
  {
    assert asked + [] == asked;
    hide FlagsOk, Wanted, Put, Written, Size;
    var size := |t.ring|;
    if !Refused(r, size) && phase == InStep && |Wanted(r)| < size && Tracked(x, size) {
      AddInStep(s, t, asked, r);
    }
    hide Refused, Window, Distance, At;
  }

  lemma StandingConsume(s: Machine, t: Machine, phase: Phase, x: nat, asked: seq<Desc>)
    requires Sound(t) && Standing(s, t, phase, x, asked) && x < |t.ring|
    ensures Standing(s, Next(t, Consume), Turn(phase, Consume, x, |t.ring|), x, asked)
  {
    hide Size, Counts, At;
    if phase == Announced {
      NotYetRead(t.behind, t.position, x, |t.ring|);
    }
    assert t.log + [] == t.log;
  }

  lemma StandingReadBack(s: Machine, t: Machine, phase: Phase, x: nat, asked: seq<Desc>)
    requires Sound(t) && Standing(s, t, phase, x, asked) && x < |t.ring|
    ensures Standing(s, Next(t, ReadBack), Turn(phase, ReadBack, x, |t.ring|), x, asked)
  {
    hide Size, Window, Distance, At;
  }

  /** Once it has moved, the hardware is no longer where the driver counts from. */
  lemma NotYetRead(behind: nat, position: nat, x: nat, size: nat)
    requires position < size && x < size && position != x && Counts(behind, position, size)
    ensures !Counts(behind, x, size)
  {
    if position + 1 < size {
      DivModUnique(position + 1, size, 0, position + 1);
    } else {
      DivModUnique(position + 1, size, 1, 0);
    }
    if x + 1 < size {
      DivModUnique(x + 1, size, 0, x + 1);
    } else {
      DivModUnique(x + 1, size, 1, 0);
    }
  }

  /** The event is right exactly if the driver counts from where the hardware is. */
  lemma ReadyIff(behind: nat, position: nat, n: nat, size: nat)
    requires position < size && 1 <= n < size
    ensures Counts(behind, position, size) <==> (behind + n - 1) % size == At(position, n, size)
    ensures Counts(behind, position, size) <==> Distance(position, (behind + n - 1) % size, size) == n
  {
    DivModUnique(position + n, size, if position + n < size then 0 else 1, At(position, n, size));
    if Counts(behind, position, size) {
      ModAdd(behind, position + 1, n - 1, size);
    }
    if (behind + n - 1) % size == At(position, n, size) {
      ModAdd(behind + n - 1, position + n, 1 - n, size);
    }
    DistanceAt(position, n, size);
  }

  /** What 16 bits tell of where the hardware is. */
  lemma TrackedIff(x: nat, size: nat)
    requires Size(size) && x < size
    ensures Tracked(x, size) ==> x % SLOTS == x && Counts((x + 1) % SLOTS, x, size)
    ensures !Tracked(x, size) && x + 1 < size ==> !Counts((x + 1) % SLOTS, x, size)
  {
    var k: nat :| size == Pow2(k);
    if size <= SLOTS {
      var f := SlotsDivide(k);
      assert size * f == SLOTS;
      hide Pow2;
      ModMod(x + 1, size, f);
    } else if x + 1 < size {
      hide Pow2, IsPow2;
      DivModUnique(x + 1, size, 0, x + 1);
      DivModUnique((x + 1) % SLOTS, size, 0, (x + 1) % SLOTS);
    }
  }

  /** A request that is added in step is what the hardware reads next. */
  lemma AddInStep(s: Machine, t: Machine, asked: seq<Desc>, r: Request)
    requires AtRest(t) && t.log == s.log + asked && Carried(r, |t.ring|) && Tracked(t.position, |t.ring|)
    ensures Standing(s, Next(t, Add(r)), Announced, At(t.position, |Wanted(r)|, |t.ring|), asked + Wanted(r))
  {
    hide Put, FlagsOk, Split, IsPow2;
    CarriedWritten(r, |t.ring|);
    hide Wanted, Refused, Written, Carried;
    var n, size := |Wanted(r)|, |t.ring|;
    TrackedIff(t.position, size);
    ReadyIff(t.behind, t.position, n, size);
    hide Size, IsPow2, Counts;
    PutWindow(t.ring, t.current, Wanted(r));
    DistanceAt(t.position, n, size);
    hide Put, Window, Distance;
    assert s.log + asked + Wanted(r) == s.log + (asked + Wanted(r));
  }

  lemma AfterSnoc(s: Machine, steps: seq<Step>, step: Step)
    requires Sound(s)
    ensures After(s, steps + [step]) == Next(After(s, steps), step)
    ensures Requested(steps + [step], |s.ring|) == Requested(steps, |s.ring|) + Asked(step, |s.ring|)
  {
    assert (steps + [step])[..|steps|] == steps;
    hide Next, Asked;
  }

  /** An orderly run is read exactly, at every point. */
  lemma OrderlyReads(s: Machine, steps: seq<Step>)
    requires AtRest(s) && AllFlagged(steps, |s.ring|) && Orderly(s.position, steps, |s.ring|)
    ensures ReadsAll(s, steps)
  {
    StandingKept(s, steps);
    AfterSnoc(s, steps, Consume);
    var t := After(s, steps);
    assert t.log + [] == t.log && Requested(steps, |s.ring|) + [] == Requested(steps, |s.ring|);
    hide After, Requested, PhaseOf, EndOf, Size, Counts, AllFlagged, Turn;
  }

  /** The first accepted request that fills the ring, or is added out of turn or at a slot
      that 16 bits cannot tell, is not read exactly. */
  lemma OutOfTurn(s: Machine, steps: seq<Step>, r: Request)
    requires AtRest(s) && AllFlagged(steps, |s.ring|) && Orderly(s.position, steps, |s.ring|)
    requires Puts(Add(r), |s.ring|) && FlagsOk(r.flags % 256) && !Orderly(s.position, steps + [Add(r)], |s.ring|)
    requires |s.ring| > SLOTS ==> EndOf(s.position, steps, |s.ring|) + 1 < |s.ring|
    ensures !ReadsAll(s, steps + [Add(r)])
  {
    var t, size, x := After(s, steps), |s.ring|, EndOf(s.position, steps, |s.ring|);
    StandingKept(s, steps);
    AfterSnoc(s, steps, Add(r));
    AfterSnoc(s, steps + [Add(r)], Consume);
    assert (steps + [Add(r)])[..|steps|] == steps;
    OutLength(s, t, PhaseOf(s.position, steps, size), x, Requested(steps, size), r);
    hide Next, After, Requested, Standing, Wanted, Refused, Size;
  }

  /** The hardware does not read as many descriptors as were asked for. */
  lemma OutLength(s: Machine, t: Machine, phase: Phase, x: nat, asked: seq<Desc>, r: Request)
    requires Sound(t) && Standing(s, t, phase, x, asked) && x < |t.ring| && phase != Broken
    requires Puts(Add(r), |t.ring|) && Turn(phase, Add(r), x, |t.ring|) == Broken
    requires |t.ring| > SLOTS ==> x + 1 < |t.ring|
    ensures |Next(Next(t, Add(r)), Consume).log| != |s.log| + |asked| + |Wanted(r)|
  {
    hide Wanted, Refused, Size;
    LogLength(t, r);
    hide Next;
    assert phase == Announced ==> |s.log| + |asked| == |t.log| + Distance(t.position, x, |t.ring|);
    assert phase != Announced ==> |s.log| + |asked| == |t.log| && t.ready == t.position == x;
    hide Window, Distance, Tracked, Counts;
    if |Wanted(r)| < |t.ring| {
      WrongCount(phase == Announced, phase == InStep, t.behind, t.position, x, |Wanted(r)|, |t.ring|);
    } else {
      NoDistance(t.position, |t.ring|);
    }
  }

  lemma WrongCount(announced: bool, inStep: bool, behind: nat, position: nat, x: nat, n: nat, size: nat)
    requires Size(size) && position < size && x < size && 1 <= n < size && (size > SLOTS ==> x + 1 < size)
    requires if announced then position != x && Counts(behind, position, size) else position == x
    requires !announced && !inStep ==> !Counts(behind, x, size)
    requires !announced && inStep ==> behind == (x + 1) % SLOTS && !Tracked(x, size)
    ensures var read := Distance(position, (behind + n - 1) % size, size);
      read != n + if announced then Distance(position, x, size) else 0
  {
    TrackedIff(x, size);
    ReadyIff(behind, position, n, size);
    hide Counts, Size;
    if announced {
      Apart(position, x, size);
    }
  }

  lemma LogLength(t: Machine, r: Request)
    requires Sound(t) && Puts(Add(r), |t.ring|)
    ensures var size, n := |t.ring|, |Wanted(r)|;
      var ready := if n < size then (t.behind + n - 1) % size else t.ready;
      1 <= n <= size && |Next(Next(t, Add(r)), Consume).log| == |t.log| + Distance(t.position, ready, size)
  {
    WantedFits(r, |t.ring|);
    hide Wanted, Refused, Written, Put, At, Size;
  }

  lemma Apart(a: nat, b: nat, n: nat)
    requires a < n && b < n && a != b
    ensures Distance(a, b, n) >= 1
  {
  }

  lemma NoDistance(a: nat, n: nat)
    requires a < n
    ensures Distance(a, a, n) == 0
  {
  }

  /** In a ring of more than 0x2000 slots, no request is due at the last one. */
  predicate NeverLast(start: nat, steps: seq<Step>, size: nat)
    requires start < size
  {
    size > SLOTS ==> forall j :: 0 <= j < |steps| && Puts(steps[j], size) ==> EndOf(start, steps[..j], size) + 1 < size
  }

  /** Over any sequence of steps, what is requested is read exactly, whenever the hardware
      reads, if and only if the run is orderly. */
  lemma StepsIff(s: Machine, steps: seq<Step>)
    requires AtRest(s) && AllFlagged(steps, |s.ring|) && NeverLast(s.position, steps, |s.ring|)
    ensures (forall k :: 0 <= k <= |steps| ==> ReadsAll(s, steps[..k])) <==> Orderly(s.position, steps, |s.ring|)
  {
    assert Sound(s);
    hide ReadsAll, AtRest, FlagsOk, Turn, Wanted, Refused;
    var start, size := s.position, |s.ring|;
    assert steps[..|steps|] == steps;
    if Orderly(start, steps, size) {
      forall k | 0 <= k <= |steps|
        ensures ReadsAll(s, steps[..k])
      {
        OrderlyPrefix(start, steps, size, k);
        OrderlyReads(s, steps[..k]);
      }
    } else {
      var k := FirstBreak(start, steps, size);
      assert steps[..k + 1] == steps[..k] + [Add(steps[k].r)];
      OutOfTurn(s, steps[..k], steps[k].r);
    }
  }

  lemma {:induction false} OrderlyPrefix(start: nat, steps: seq<Step>, size: nat, k: nat)
    requires start < size && Orderly(start, steps, size) && k <= |steps|
    ensures Orderly(start, steps[..k], size)
    decreases |steps|
  {
    if k < |steps| {
      var init := steps[..|steps| - 1];
      OrderlyPrefix(start, init, size, k);
      assert init[..k] == steps[..k];
    } else {
      assert steps[..k] == steps;
    }
  }

  lemma {:induction false} FirstBreak(start: nat, steps: seq<Step>, size: nat) returns (k: nat)
    requires start < size && !Orderly(start, steps, size)
    ensures k < |steps| && Puts(steps[k], size) && Orderly(start, steps[..k], size) && !Orderly(start, steps[..k + 1], size)
  {
    var last := |steps| - 1;
    assert steps[..last + 1] == steps;
    if Orderly(start, steps[..last], size) {
      k := last;
    } else {
      k := FirstBreak(start, steps[..last], size);
      assert steps[..last][..k] == steps[..k] && steps[..last][..k + 1] == steps[..k + 1];
    }
  }

  /** A request due at the last slot of a ring of more than 0x2000 slots: the hardware reads
      what the ring held there before, whatever was asked for. */
  lemma LastSlotStale(s: Machine, steps: seq<Step>, r: Request)
    requires AtRest(s) && AllFlagged(steps, |s.ring|) && PhaseOf(s.position, steps, |s.ring|) == InStep
    requires |s.ring| > SLOTS && EndOf(s.position, steps, |s.ring|) + 1 == |s.ring|
    requires Carried(r, |s.ring|) && |Wanted(r)| <= SLOTS
    ensures After(s, steps + [Add(r)] + [Consume]).log
         == s.log + Requested(steps, |s.ring|) + Window(After(s, steps).ring, |s.ring| - 1, |Wanted(r)|)
  {
    hide *;
    RestIsSound(s);
    InStepIs(s, steps);
    AfterSnoc(s, steps, Add(r));
    AfterSnoc(s, steps + [Add(r)], Consume);
    ReadsStale(After(s, steps), r);
  }

  lemma RestIsSound(s: Machine)
    requires AtRest(s)
    ensures Sound(s) && s.position < |s.ring|
  {
  }

  lemma InStepIs(s: Machine, steps: seq<Step>)
    requires AtRest(s) && AllFlagged(steps, |s.ring|) && PhaseOf(s.position, steps, |s.ring|) == InStep
    ensures var t := After(s, steps);
      && AtRest(t) && |t.ring| == |s.ring| && t.position == EndOf(s.position, steps, |s.ring|)
      && t.log == s.log + Requested(steps, |s.ring|)
  {
    StandingKept(s, steps);
    hide After, Requested, PhaseOf, EndOf, AllFlagged, Size;
  }

  lemma ReadsStale(t: Machine, r: Request)
    requires AtRest(t) && |t.ring| > SLOTS && t.position + 1 == |t.ring| && Carried(r, |t.ring|) && |Wanted(r)| <= SLOTS
    ensures |Wanted(r)| <= |t.ring|
    ensures Next(Next(t, Add(r)), Consume).log == t.log + Window(t.ring, t.position, |Wanted(r)|)
  {
    var size, n, w := |t.ring|, |Wanted(r)|, Wanted(r);
    CarriedWritten(r, size);
    DoubleSize(size);
    assert t.current == SLOTS - 1 && t.behind == 0;
    hide Wanted, Refused, Written, Size, FlagsOk;
    DivModUnique(n - 1, size, 0, n - 1);
    StaleWindow(t.ring, w);
    assert Distance(t.position, n - 1, size) == n;
    hide Put, Window, Distance, At;
  }

  lemma DoubleSize(size: nat)
    requires Size(size) && size > SLOTS
    ensures size == 2 * SLOTS
  {
    var k: nat :| size == Pow2(k);
    assert Pow2(6) == 0x40 && Pow2(7) == 0x80;
    PowersDivide(6, 7);
    assert Pow2(14) == 2 * Pow2(13);
    assert Pow2(15) == 2 * Pow2(14);
    hide Pow2;
    if k <= 13 {
      PowersDivide(k, 13 - k);
      MulBound(Pow2(k), Pow2(13 - k));
    } else if k >= 15 {
      PowersDivide(15, k - 15);
      MulBound(Pow2(15), Pow2(k - 15));
    }
  }

  lemma StaleWindow(ring: seq<Desc>, ds: seq<Desc>)
    requires |ring| == 2 * SLOTS && |ds| <= SLOTS
    ensures Window(Put(ring, SLOTS - 1, ds), |ring| - 1, |ds|) == Window(ring, |ring| - 1, |ds|)
  {
  }

  // The pipe takes these steps.

  ghost predicate Shows(p: Pipe, s: Machine)
    reads p, p.ring
  {
    && p.Valid() && p.initialized && Sound(s)
    && p.ring[..] == s.ring && p.current == s.current && p.offset == BAM_DESC_SIZE * s.behind
    && p.event == BAM_DESC_SIZE * s.ready && p.position == s.position && p.log == s.log
  }

  lemma SlotBehind(x: nat)
    ensures OffsetBehind(x) == BAM_DESC_SIZE * ((x + 1) % SLOTS)
  {
    var y := x + 1;
    DivModUnique(BAM_DESC_SIZE * y, OFFSETS, y / SLOTS, BAM_DESC_SIZE * (y % SLOTS));
  }

  lemma EventSlot(n: nat, behind: nat, size: nat)
    requires 1 <= n && size >= 1
    ensures EventAfter(n, BAM_DESC_SIZE * behind, size) == BAM_DESC_SIZE * ((behind + n - 1) % size)
  {
    var y := behind + n - 1;
    assert y == size * (y / size) + y % size;
    DivModUnique(BAM_DESC_SIZE * y, BAM_DESC_SIZE * size, y / size, BAM_DESC_SIZE * (y % size));
  }

  /** A pipe in step shows a machine at rest. */
  lemma SyncedShows(p: Pipe) returns (s: Machine)
    requires p.Synced() && p.position < SLOTS && p.ring.Length <= 2 * SLOTS
    ensures Shows(p, s) && AtRest(s) && s.ring == p.ring[..] && s.position == p.position && s.log == p.log
  {
    SlotBehind(p.position);
    s := Machine(p.ring[..], p.position, (p.position + 1) % SLOTS, p.position, p.position, p.log);
  }

  lemma NextAdd(s: Machine, r: Request, ring: seq<Desc>)
    requires Sound(s) && !Refused(r, |s.ring|) && r.len > 0 && Placed(s.ring, ring, s.current, Written(r, true))
    ensures var t, n, size := Next(s, Add(r)), |Wanted(r)|, |s.ring|;
      && |Written(r, true)| <= size && t == s.(ring := ring, current := At(s.current, |Written(r, true)|, size), ready := t.ready)
      && BAM_DESC_SIZE * t.ready
         == (if n < size then EventAfter(n, BAM_DESC_SIZE * s.behind, size) else BAM_DESC_SIZE * s.ready)
  {
    hide FlagsOk, Split, Window, Size, EventAfter;
    WantedFits(r, |s.ring|);
    hide Wanted, Refused;
    EventSlot(|Wanted(r)|, s.behind, |s.ring|);
    PutIs(s.ring, ring, s.current, Written(r, true));
    hide Placed, Put, Written, At;
  }

  lemma NextOthers(s: Machine, r: Request)
    requires Sound(s)
    ensures Refused(r, |s.ring|) ==> Next(s, Add(r)) == s
    ensures Next(s, Consume)
      == s.(position := s.ready, log := s.log + Window(s.ring, s.position, Distance(s.position, s.ready, |s.ring|)))
    ensures BAM_DESC_SIZE * (Next(s, ReadBack).behind) == OffsetBehind(s.position)
    ensures Next(s, ReadBack) == s.(current := s.position % SLOTS, behind := (s.position + 1) % SLOTS)
  {
    hide Refused, Window, Distance, Size;
    SlotBehind(s.position);
  }

  /** One step of the pipe. */
  method Do(p: Pipe, step: Step, upper: nat, ghost s: Machine)
    requires Shows(p, s) && (step.Add? ==> InMemory(step.r))
    modifies p, p.ring
    ensures Shows(p, Next(s, step))
  {
    hide Next, Placed, Window, Written, Wanted, Refused, FlagsOk, IsPow2, Size, At, And, Distance, InMemory, OffsetBehind, EventAfter, Put;
    match step {
      case Add(r) =>
        NextOthers(s, r);
        var rc := p.AddDesc(r);
        if rc == Success {
          NextAdd(s, r, p.ring[..]);
        }
      case Consume =>
        NextOthers(s, Request(0, 0, 0));
        p.Consume();
      case ReadBack =>
        NextOthers(s, Request(0, 0, 0));
        p.ReadOffsetUpdate(BAM_DESC_SIZE * p.position % OFFSETS + OFFSETS * upper);
    }
  }

  /** A run of a pipe in step: what is requested is read exactly if the run is orderly and
      the hardware has read the last request. */
  method RunSteps(p: Pipe, steps: seq<Step>, upper: nat) returns (ghost s: Machine)
    requires p.Synced() && p.position < SLOTS && p.ring.Length <= 2 * SLOTS
    requires forall i :: 0 <= i < |steps| && steps[i].Add? ==> InMemory(steps[i].r)
    modifies p, p.ring
    ensures AtRest(s) && s.ring == old(p.ring[..]) && s.position == old(p.position) && s.log == old(p.log)
    ensures Shows(p, After(s, steps))
    ensures AllFlagged(steps, p.ring.Length) && PhaseOf(s.position, steps, p.ring.Length) in {InStep, Taken} ==>
      p.log == old(p.log) + Requested(steps, p.ring.Length)
  {
    s := SyncedShows(p);
    hide Next, After, Requested, PhaseOf, Turn, InMemory, AllFlagged, Wanted, EndOf, IsPow2, Size, AtRest;
    AfterNone(s);
    ghost var ring := p.ring;
    assert steps[..0] == [];
    for k := 0 to |steps|
      invariant p.ring == ring && Shows(p, After(s, steps[..k]))
    {
      AfterSnoc(s, steps[..k], steps[k]);
      assert steps[..k + 1] == steps[..k] + [steps[k]];
      Do(p, steps[k], upper, After(s, steps[..k]));
    }
    assert steps[..|steps|] == steps;
    RunReads(s, steps);
  }

  lemma AfterNone(s: Machine)
    requires Sound(s)
    ensures After(s, []) == s
  {
  }

  lemma RunReads(s: Machine, steps: seq<Step>)
    requires AtRest(s)
    ensures AllFlagged(steps, |s.ring|) && PhaseOf(s.position, steps, |s.ring|) in {InStep, Taken} ==>
      After(s, steps).log == s.log + Requested(steps, |s.ring|)
  {
    if AllFlagged(steps, |s.ring|) {
      StandingKept(s, steps);
    }
    hide After, Requested, PhaseOf, EndOf, AllFlagged, Size, Counts;
  }

  // What "in turn" means.

  /** The hardware reads between steps `i` and `j`. */
  ghost predicate Read(steps: seq<Step>, i: int, j: int) {
    exists c :: i < c < j && 0 <= c < |steps| && steps[c].Consume?
  }

  /** And afterwards the driver reads the offset back. */
  ghost predicate Separated(steps: seq<Step>, i: int, j: int) {
    exists b :: i < b < j && 0 <= b < |steps| && steps[b].ReadBack? && Read(steps, i, b)
  }

  /** The same between each earlier request and the end of the run. */
  ghost predicate LastSeparated(steps: seq<Step>, size: nat) {
    forall i :: 0 <= i < |steps| && Puts(steps[i], size) ==> Separated(steps, i, |steps|)
  }

  ghost predicate AllSeparated(steps: seq<Step>, size: nat) {
    forall i, j :: 0 <= i < j < |steps| && Puts(steps[i], size) && Puts(steps[j], size) ==> Separated(steps, i, j)
  }

  /** A request leaves a slot of the ring free and is due at a slot that 16 bits can tell. */
  predicate InReach(start: nat, steps: seq<Step>, step: Step, size: nat)
    requires start < size
  {
    Puts(step, size) ==> |Wanted(step.r)| < size && Tracked(EndOf(start, steps, size), size)
  }

  ghost predicate AllInReach(start: nat, steps: seq<Step>, size: nat)
    requires start < size
  {
    forall j :: 0 <= j < |steps| ==> InReach(start, steps[..j], steps[j], size)
  }

  /** The phase of a run, seen from its last request. */
  ghost predicate Seen(steps: seq<Step>, last: int, phase: Phase, size: nat) {
    && -1 <= last < |steps| && (last >= 0 ==> Puts(steps[last], size))
    && (forall i :: last < i < |steps| ==> !Puts(steps[i], size))
    && phase == if last == -1 || Separated(steps, last, |steps|) then InStep
                else if Read(steps, last, |steps|) then Taken else Announced
  }

  lemma Later(steps: seq<Step>, step: Step, i: int, j: int)
    requires j <= |steps|
    ensures Read(steps + [step], i, j) == Read(steps, i, j)
    ensures Separated(steps + [step], i, j) == Separated(steps, i, j)
  {
    forall b | b <= |steps|
      ensures Read(steps + [step], i, b) == Read(steps, i, b)
    {
      if Read(steps, i, b) {
        var c :| i < c < b && 0 <= c < |steps| && steps[c].Consume?;
        assert (steps + [step])[c].Consume?;
      }
    }
    if Separated(steps, i, j) {
      var b :| i < b < j && 0 <= b < |steps| && steps[b].ReadBack? && Read(steps, i, b);
      assert (steps + [step])[b].ReadBack?;
    }
  }

  /** One step more. */
  lemma OneMoreStep(steps: seq<Step>, step: Step, i: int)
    requires i < |steps|
    ensures var s := steps + [step];
      && (Read(s, i, |s|) <==> Read(steps, i, |steps|) || step.Consume?)
      && (Separated(s, i, |s|) <==> Separated(steps, i, |steps|) || (step.ReadBack? && Read(steps, i, |steps|)))
  {
    var s, n := steps + [step], |steps|;
    Later(steps, step, i, n);
    assert s[n] == step;
    hide Read;
    ReadSnoc(steps, step, i);
    if Separated(s, i, n + 1) {
      var b :| i < b < n + 1 && 0 <= b < |s| && s[b].ReadBack? && Read(s, i, b);
      if b < n {
        assert Separated(s, i, n);
      }
    }
    if Separated(s, i, n) {
      var b :| i < b < n && 0 <= b < |s| && s[b].ReadBack? && Read(s, i, b);
      assert Separated(s, i, n + 1);
    }
  }

  lemma ReadSnoc(steps: seq<Step>, step: Step, i: int)
    requires i < |steps|
    ensures var s := steps + [step];
      Read(s, i, |s|) <==> Read(steps, i, |steps|) || step.Consume?
  {
    var s, n := steps + [step], |steps|;
    assert s[n] == step;
    if Read(steps, i, n) {
      var c :| i < c < n && 0 <= c < |steps| && steps[c].Consume?;
      assert s[c].Consume?;
    }
  }

  lemma {:induction false} PhaseSeen(start: nat, steps: seq<Step>, size: nat) returns (last: int)
    requires start < size
    ensures Orderly(start, steps, size) <==> AllSeparated(steps, size) && AllInReach(start, steps, size)
    ensures Orderly(start, steps, size) ==> Seen(steps, last, PhaseOf(start, steps, size), size)
  {
    if steps == [] {
      last := -1;
    } else {
      var k := |steps| - 1;
      var init, step := steps[..k], steps[k];
      assert steps == init + [step];
      last := PhaseSeen(start, init, size);
      AllSeparatedSnoc(init, step, size);
      AllInReachSnoc(start, init, step, size);
      var phase, x := PhaseOf(start, init, size), EndOf(start, init, size);
      assert PhaseOf(start, steps, size) == Turn(phase, step, x, size);
      TurnBroken(phase, step, x, size);
      hide AllSeparated, AllInReach, LastSeparated, PhaseOf, Turn, Separated, Read, Seen, EndOf, Puts, Tracked, Wanted;
      if phase != Broken {
        SeenSnoc(init, step, last, phase, x, size);
        if Puts(step, size) {
          last := k;
        }
      }
    }
  }

  lemma TurnBroken(phase: Phase, step: Step, x: nat, size: nat)
    ensures phase == Broken ==> Turn(phase, step, x, size) == Broken
  {
  }

  lemma AllInReachSnoc(start: nat, steps: seq<Step>, step: Step, size: nat)
    requires start < size
    ensures AllInReach(start, steps + [step], size) <==> AllInReach(start, steps, size) && InReach(start, steps, step, size)
  {
    hide InReach;
    var s := steps + [step];
    assert s[..|steps|] == steps;
    forall j | 0 <= j < |steps|
      ensures InReach(start, s[..j], s[j], size) == InReach(start, steps[..j], steps[j], size)
    {
      assert s[..j] == steps[..j];
    }
    if AllInReach(start, s, size) {
      assert InReach(start, s[..|steps|], s[|steps|], size);
    }
  }

  lemma AllSeparatedSnoc(steps: seq<Step>, step: Step, size: nat)
    ensures AllSeparated(steps + [step], size) <==>
      && AllSeparated(steps, size)
      && (Puts(step, size) ==> LastSeparated(steps, size))
  {
    hide Separated, Puts;
    var s := steps + [step];
    forall i, j | 0 <= i < j <= |steps|
      ensures Separated(s, i, j) == Separated(steps, i, j) && s[i] == steps[i]
    {
      Later(steps, step, i, j);
    }
    if AllSeparated(s, size) {
      forall i, j | 0 <= i < j < |steps| && Puts(steps[i], size) && Puts(steps[j], size)
        ensures Separated(steps, i, j)
      {
        assert Puts(s[i], size) && Puts(s[j], size);
      }
    }
  }

  /** The last request is the one that matters. */
  lemma SeenSnoc(steps: seq<Step>, step: Step, last: int, phase: Phase, x: nat, size: nat)
    requires Seen(steps, last, phase, size) && phase != Broken
    ensures var s, phase' := steps + [step], Turn(phase, step, x, size);
      && (!Puts(step, size) ==> Seen(s, last, phase', size) && phase' != Broken)
      && (Puts(step, size) && phase' != Broken ==> Seen(s, |steps|, phase', size))
      && (Puts(step, size) ==>
            (phase' != Broken <==> |Wanted(step.r)| < size && Tracked(x, size) && LastSeparated(steps, size)))
  {
    hide Read, Separated, Refused, Wanted, Tracked;
    OneMoreStep(steps, step, last);
    NothingAfter(steps + [step]);
    forall i | 0 <= i < |steps| && Puts(steps[i], size) && last >= 0 && Separated(steps, last, |steps|)
      ensures Separated(steps, i, |steps|)
    {
      SeparatedEarlier(steps, i, last);
    }
  }

  lemma NothingAfter(steps: seq<Step>)
    ensures !Read(steps, |steps| - 1, |steps|) && !Separated(steps, |steps| - 1, |steps|)
  {
  }

  lemma SeparatedEarlier(steps: seq<Step>, i: int, last: int)
    requires i <= last && Separated(steps, last, |steps|)
    ensures Separated(steps, i, |steps|)
  {
    var b :| last < b < |steps| && 0 <= b < |steps| && steps[b].ReadBack? && Read(steps, last, b);
    assert Read(steps, i, b);
  }

  /** A run is orderly exactly if each accepted request leaves a slot free and is due at a slot
      that 16 bits can tell, and between any two of them the hardware reads and then the
      driver reads the offset back. */
  lemma OrderlyMeans(start: nat, steps: seq<Step>, size: nat)
    requires start < size
    ensures Orderly(start, steps, size) <==> AllSeparated(steps, size) && AllInReach(start, steps, size)
  {
    var last := PhaseSeen(start, steps, size);
  }
}
