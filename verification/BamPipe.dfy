/** One pipe of a BAM: the driver's view of the descriptor ring and the hardware's. */
module BamPipe {
  import opened Bits
  import opened BamRing

  datatype Result = Success | Failure

  const ADDRESSES := 0x1_0000_0000
  const OFFSETS := 0x1_0000

  /** A buffer in the 32-bit address space and the flags for its last descriptor. */
  datatype Request = Request(addr: nat, len: nat, flags: nat)

  predicate InMemory(r: Request) {
    r.addr + r.len <= ADDRESSES && r.len < ADDRESSES
  }

  /** The requests that the driver refuses. */
  predicate Refused(r: Request, size: nat) {
    r.addr == 0 || r.len == 0 || r.len > size * BAM_MAX_DESC_DATA_LEN
  }

  function Wanted(r: Request): seq<Desc> {
    Split(r.addr, r.len, r.flags % 256)
  }

  /** The descriptors of a request that are written: all of them, or all but the last one if
      its flags are refused; none if the pipe was not initialised. */
  function Written(r: Request, initialized: bool): (ds: seq<Desc>)
    requires r.len > 0
    ensures |ds| <= |Wanted(r)|
  {
    if !initialized then []
    else if FlagsOk(r.flags % 256) then Wanted(r)
    else Wanted(r)[..|Wanted(r)| - 1]
  }

  /** The event offset behind `n` descriptors, if `offset` is the one behind the first. */
  ghost function EventAfter(n: nat, offset: nat, size: nat): (r: nat)
    requires size >= 1
  {
    ((n - 1) * BAM_DESC_SIZE + offset) % (BAM_DESC_SIZE * size)
  }

  /** The 16 bits of the offset behind a slot. */
  ghost function OffsetBehind(slot: nat): nat {
    (BAM_DESC_SIZE * slot + BAM_DESC_SIZE) % OFFSETS
  }

  class Pipe {
    /** fifo.head[0..fifo.size]. */
    const ring: array<Desc>
    /** Slot of fifo.current. */
    var current: nat
    /** The 16 bits of fifo.offset. */
    var offset: nat
    var initialized: bool

    // Registers and the hardware behind them: the size of the ring in bytes, the offset up to
    // which descriptors are ready, the slot that is read next, and what was read so far.
    var fifoSize: nat
    var event: nat
    var position: nat
    var log: seq<Desc>

    ghost predicate Valid()
      reads this
    {
      && 1 <= ring.Length < OFFSETS && IsPow2(ring.Length)
      && current < ring.Length && position < ring.Length && offset < OFFSETS
    }

    /** Nothing is pending, and the driver knows where the hardware reads next. */
    ghost predicate Synced()
      reads this
    {
      && Valid() && initialized && fifoSize == BAM_DESC_SIZE * ring.Length
      && current == position && event == BAM_DESC_SIZE * position
      && offset == OffsetBehind(position)
    }

    constructor (ring: array<Desc>)
      requires 1 <= ring.Length < OFFSETS && IsPow2(ring.Length)
      ensures Valid() && this.ring == ring && !initialized && log == []
    {
      this.ring := ring;
      current, offset, initialized, fifoSize, event, position, log := 0, 0, false, 0, 0, 0, [];
    }

    /** The pipe is reset: the hardware starts over at the first slot. */
    method SysPipeInit()
      requires Valid()
      modifies this
      ensures Valid() && !initialized && event == 0 && position == 0
      ensures log == old(log) && current == old(current) && offset == old(offset) && fifoSize == old(fifoSize)
    {
      event, position := 0, 0;
      initialized := false;
    }

    method FifoInit() returns (rc: Result)
      requires Valid()
      modifies this
      ensures rc == Success <==> ring.Length <= 0x7FFF
      ensures rc == Failure ==> unchanged(this)
      ensures rc == Success ==> initialized && current == 0 && offset == BAM_DESC_SIZE && fifoSize == BAM_DESC_SIZE * ring.Length
      ensures rc == Success && old(event == position == 0) ==> Synced()
      ensures Valid() && event == old(event) && position == old(position) && log == old(log)
    {
      if ring.Length > 0x7FFF {
        return Failure;
      }
      current := 0;
      fifoSize := ring.Length * BAM_DESC_SIZE;
      offset := BAM_DESC_SIZE;
      initialized := true;
      return Success;
    }

    function GetNext(slot: nat): (r: nat)
      requires slot < ring.Length
      ensures r == At(slot, 1, ring.Length)
    {
      if slot == ring.Length - 1 then 0 else slot + 1
    }

    /** A descriptor that is refused leaves the ring as it was. */
    method AddOneDesc(addr: nat, len: nat, flags: nat) returns (rc: Result)
      requires Valid()
      modifies this`current, ring
      ensures Valid()
      ensures rc == Success <==> addr != 0 && 0 < len <= BAM_MAX_DESC_DATA_LEN && initialized && FlagsOk(flags)
      ensures rc == Success ==> current == At(old(current), 1, ring.Length)
      ensures rc == Success ==> ring[..] == old(ring[..])[old(current) := Desc(addr, len, 0, flags)]
      ensures rc == Failure ==> current == old(current) && ring[..] == old(ring[..])
    {
      if addr == 0 || len == 0 {
        return Failure;
      }
      if !initialized {
        return Failure;
      }
      if And(flags, BAM_DESC_LOCK_FLAG) != 0 && And(flags, BAM_DESC_UNLOCK_FLAG) != 0 {
        return Failure;
      }
      if And(flags, BAM_DESC_EOT_FLAG) != 0 && And(flags, BAM_DESC_CMD_FLAG) != 0 {
        return Failure;
      }
      if len > BAM_MAX_DESC_DATA_LEN {
        return Failure;
      }
      ring[current] := Desc(addr, len, 0, flags);
      current := GetNext(current);
      return Success;
    }

    /** The event register gets the offset just behind `n` descriptors from where the driver
        last read back; the mask is the modulus of the ring. */
    method SysGenEvent(n: nat)
      requires Valid() && n < ADDRESSES
      modifies this`event
      ensures event == if n < ring.Length then EventAfter(n, offset, ring.Length) else old(event)
    {
      if n >= ring.Length {
        return;
      }
      var val := (n - 1) * BAM_DESC_SIZE % ADDRESSES;
      val := (val + offset) % ADDRESSES;
      EventOffset((n - 1) * BAM_DESC_SIZE, offset, ring.Length);
      event := And(val, ring.Length * BAM_DESC_SIZE - 1);
    }

    /** The driver learns from 16 bits of a register where the hardware reads next. It can
        not tell slots that are 0x2000 apart. */
    method ReadOffsetUpdate(register: nat)
      requires Valid() && register % OFFSETS == BAM_DESC_SIZE * position % OFFSETS
      modifies this`current, this`offset
      ensures Valid() && offset == OffsetBehind(position)
      ensures current == position % 0x2000
      ensures current == position <==> position < 0x2000
    {
      hide And, IsPow2;
      Mask16(register);
      SlotOf(position);
      var at := And(register, 0xFFFF);
      current := at / BAM_DESC_SIZE;
      offset := (at + BAM_DESC_SIZE) % OFFSETS;
    }

    /** What a call to AddDesc leaves in the ring and in the event register. */
    twostate predicate Added(r: Request)
      requires r.len > 0 && old(Valid()) && Valid()
      reads this, ring
    {
      var n, ds := |Wanted(r)|, Written(r, initialized);
      && Placed(old(ring[..]), ring[..], old(current), ds)
      && current == At(old(current), |ds|, ring.Length)
      && event == if n < ring.Length then EventAfter(n, offset, ring.Length) else old(event)
    }

    method AddDesc(r: Request) returns (rc: Result)
      requires Valid() && InMemory(r)
      modifies this`current, this`event, ring
      ensures Valid()
      ensures rc == Failure <==> Refused(r, ring.Length)
      ensures rc == Failure ==> unchanged(this) && ring[..] == old(ring[..])
      ensures rc == Success ==> r.len > 0 && Added(r)
    {
      hide Placed, Window, Split, FlagsOk, IsPow2;
      if r.addr == 0 || r.len == 0 {
        return Failure;
      }
      if r.len > ring.Length * BAM_MAX_DESC_DATA_LEN {
        return Failure;
      }
      ghost var ds: seq<Desc> := [];
      var ptr: nat, len: nat, n: nat := r.addr, r.len, 0;
      PlacedNone(ring[..], current);
      NoFlags();
      WantedFits(r, ring.Length);
      while len > 0
        invariant Valid() && event == old(event) && n <= |Wanted(r)| <= ring.Length
        invariant len > 0 ==> ptr + len == r.addr + r.len && ptr >= r.addr
        invariant Wanted(r)[n..] == Split(ptr, len, r.flags % 256)
        invariant ds == if len == 0 then Written(r, initialized) else if initialized then Wanted(r)[..n] else []
        invariant Placed(old(ring[..]), ring[..], old(current), ds) && current == At(old(current), |ds|, ring.Length)
      {
        SplitStep(ptr, len, r.flags % 256);
        var descLen, flags := len, r.flags;
        if len > BAM_MAX_DESC_DATA_LEN {
          descLen, flags := BAM_MAX_DESC_DATA_LEN, 0;
        }
        ghost var before, d := ring[..], Wanted(r)[n];
        WrittenStep(r, initialized, n);
        var rc1 := AddOneDesc(ptr, descLen, flags % 256);
        if rc1 == Success {
          PlacedOne(old(ring[..]), before, old(current), ds, d);
          ds := ds + [d];
        }
        n := n + 1;
        ptr := (ptr + BAM_MAX_DESC_DATA_LEN) % ADDRESSES;
        len := len - descLen;
      }
      SysGenEvent(n);
      return Success;
    }

    /** The hardware reads descriptors until it reaches the event offset. */
    method Consume()
      requires Valid() && event % BAM_DESC_SIZE == 0 && event / BAM_DESC_SIZE < ring.Length
      modifies this`position, this`log
      ensures Valid() && position == event / BAM_DESC_SIZE
      ensures log == old(log) + Window(ring[..], old(position), Distance(old(position), event / BAM_DESC_SIZE, ring.Length))
    {
      hide IsPow2;
      ghost var n, start, k := ring.Length, position, 0;
      ghost var todo := Distance(position, event / BAM_DESC_SIZE, n);
      while position * BAM_DESC_SIZE != event
        invariant Valid() && k <= todo && position == At(start, k, n)
        invariant log == old(log) + Window(ring[..], start, k)
        decreases todo - k
      {
        assert Window(ring[..], start, k + 1) == Window(ring[..], start, k) + [ring[position]];
        log := log + [ring[position]];
        position := GetNext(position);
        k := k + 1;
      }
    }

    /** One round of the protocol: a request is added, the hardware reads what is ready and the
        driver reads the offset back. */
    method Transfer(r: Request, upper: nat) returns (rc: Result, ghost seen: seq<Desc>)
      requires Synced() && ring.Length <= 0x2000 && InMemory(r)
      modifies this, ring
      ensures Synced() && log == old(log) + seen
      ensures rc == Failure <==> Refused(r, ring.Length)
      ensures Served(r, old(ring[..]), old(position), seen)
    {
      hide EventAfter, OffsetBehind, Placed, Window, Split, FlagsOk, IsPow2, At, And, Distance, Served, Written, Wanted, Refused, InMemory;
      ghost var before, start, size := ring[..], position, ring.Length;
      rc := AddDesc(r);
      ghost var n := |Wanted(r)|;
      if rc == Success {
        WantedFits(r, size);
        SyncedEvent(start, n, size);
      }
      SyncedEvent(start, 0, size);
      Consume();
      seen := Window(ring[..], start, Distance(start, position, size));
      ServedBy(r, before, ring[..], start, position);
      SyncedEvent(position, 0, size);
      ReadOffsetUpdate(BAM_DESC_SIZE * position % OFFSETS + OFFSETS * upper);
    }

    /** Over any run of rounds the hardware reads, in order, what each request puts in the ring:
        the descriptors of the buffer for every request that is carried. */
    method Run(reqs: seq<Request>, upper: nat) returns (rcs: seq<Result>, ghost outs: seq<seq<Desc>>)
      requires Synced() && ring.Length <= 0x2000 && forall i :: 0 <= i < |reqs| ==> InMemory(reqs[i])
      modifies this, ring
      ensures Synced() && |rcs| == |outs| == |reqs| && log == old(log) + Concat(outs)
      ensures forall i :: 0 <= i < |reqs| ==> (rcs[i] == Failure <==> Refused(reqs[i], ring.Length))
      ensures forall i :: 0 <= i < |reqs| ==> Outcome(reqs[i], ring.Length, outs[i])
      ensures (forall i :: 0 <= i < |reqs| ==> Carried(reqs[i], ring.Length)) ==>
        log == old(log) + Concat(seq(|reqs|, i requires 0 <= i < |reqs| => Wanted(reqs[i])))
    {
      hide IsPow2, OffsetBehind, Served, Wanted, Refused, Outcome, Carried, Concat, InMemory;
      rcs, outs := [], [];
      assert log + Concat([]) == log by {
        ConcatNone();
      }
      for k := 0 to |reqs|
        invariant Synced() && |rcs| == |outs| == k && log == old(log) + Concat(outs)
        invariant forall i :: 0 <= i < k ==> (rcs[i] == Failure <==> Refused(reqs[i], ring.Length))
        invariant forall i :: 0 <= i < k ==> Outcome(reqs[i], ring.Length, outs[i])
      {
        ghost var before, start := ring[..], position;
        var rc;
        ghost var seen;
        rc, seen := Transfer(reqs[k], upper);
        ServedOutcome(reqs[k], before, start, seen);
        ConcatSnoc(old(log), outs, seen);
        rcs, outs := rcs + [rc], outs + [seen];
      }
      if forall i :: 0 <= i < |reqs| ==> Carried(reqs[i], ring.Length) {
        OutcomesWanted(reqs, ring.Length, outs);
      }
    }

    /** Two requests without reading the offset back in between: the event is that of the
        second one counted from the first, so the hardware reads too few descriptors. */
    method AddTwice(a: Request, b: Request) returns (rc1: Result, rc2: Result)
      requires Synced() && ring.Length <= 0x2000 && InMemory(a) && InMemory(b)
      requires Carried(a, ring.Length) && Carried(b, ring.Length)
      modifies this, ring
      ensures rc1 == rc2 == Success
      ensures |log| == |old(log)| + |Wanted(b)|
      ensures |Wanted(a)| + |Wanted(b)| <= ring.Length ==> log == old(log) + (Wanted(a) + Wanted(b))[..|Wanted(b)|]
      ensures log != old(log) + (Wanted(a) + Wanted(b))
    {
      hide EventAfter, OffsetBehind, Placed, Window, Split, FlagsOk, IsPow2, At, And, Distance, Wanted, Refused, InMemory;
      ghost var before, start, size := ring[..], position, ring.Length;
      CarriedWritten(a, size);
      CarriedWritten(b, size);
      rc1 := AddDesc(a);
      ghost var mid := ring[..];
      rc2 := AddDesc(b);
      SyncedEvent(start, |Wanted(b)|, size);
      Consume();
      DistanceAt(start, |Wanted(b)|, size);
      if |Wanted(a)| + |Wanted(b)| <= size {
        TwiceSeen(before, mid, ring[..], start, position, Wanted(a), Wanted(b));
      }
    }
  }

  /** A pipe is reset and its ring set up. It is in step then, and this succeeds for rings of
      at most 0x4000 slots. */
  method Open(ring: array<Desc>) returns (p: Pipe, rc: Result)
    requires 1 <= ring.Length < OFFSETS && IsPow2(ring.Length)
    ensures fresh(p) && p.ring == ring && p.log == [] && p.position == 0
    ensures rc == Success <==> ring.Length <= 0x4000
    ensures rc == Success ==> p.Synced()
  {
    if ring.Length <= 0x7FFF {
      PowerBelow(ring.Length);
    }
    hide IsPow2;
    p := new Pipe(ring);
    p.SysPipeInit();
    rc := p.FifoInit();
  }

  lemma PowerBelow(n: nat)
    requires IsPow2(n) && n <= 0x7FFF
    ensures n <= 0x4000
  {
    var k: nat :| n == Pow2(k);
    assert Pow2(8) == 0x100 && Pow2(7) == 0x80;
    PowersDivide(8, 7);
    assert Pow2(15) == 2 * Pow2(14);
    hide Pow2;
    if k >= 15 {
      PowersDivide(15, k - 15);
      MulBound(Pow2(15), Pow2(k - 15));
    } else {
      PowersDivide(k, 14 - k);
      MulBound(Pow2(k), Pow2(14 - k));
    }
  }

  /** Requests that are accepted, leave a slot of the ring free and carry valid flags. */
  ghost predicate Carried(r: Request, size: nat) {
    !Refused(r, size) && |Wanted(r)| < size && FlagsOk(r.flags % 256)
  }

  function Concat(parts: seq<seq<Desc>>): seq<Desc> {
    if parts == [] then [] else Concat(parts[..|parts| - 1]) + parts[|parts| - 1]
  }

  lemma ConcatSnoc(log: seq<Desc>, parts: seq<seq<Desc>>, part: seq<Desc>)
    ensures log + Concat(parts + [part]) == log + Concat(parts) + part
  {
    assert (parts + [part])[..|parts|] == parts;
  }

  /** What the hardware reads in a round: nothing for a request that is refused or that fills
      the ring; otherwise all of the request, but what was in the last slot before if the
      flags for the last descriptor are refused. */
  ghost predicate Served(r: Request, before: seq<Desc>, start: nat, seen: seq<Desc>) {
    var w, size := Wanted(r), |before|;
    if Refused(r, size) || |w| == size then seen == []
    else
      && start < size && |seen| == |w| < size && seen[..|w| - 1] == w[..|w| - 1]
      && seen[|w| - 1] == if FlagsOk(r.flags % 256) then w[|w| - 1] else before[At(start, |w| - 1, size)]
  }

  /** What a request puts before the hardware in a run. */
  ghost predicate Outcome(r: Request, size: nat, seen: seq<Desc>) {
    && (Carried(r, size) ==> seen == Wanted(r))
    && (Refused(r, size) || |Wanted(r)| == size ==> seen == [])
    && (!Refused(r, size) && |Wanted(r)| < size ==>
          |seen| == |Wanted(r)| && seen[..|seen| - 1] == Wanted(r)[..|seen| - 1])
  }

  lemma ServedOutcome(r: Request, before: seq<Desc>, start: nat, seen: seq<Desc>)
    requires start < |before| && Served(r, before, start, seen)
    ensures Outcome(r, |before|, seen)
  {
    hide Split, FlagsOk;
    if !Refused(r, |before|) {
      WantedFits(r, |before|);
      ServedIff(r, before, start, seen);
    }
  }

  lemma OutcomesWanted(reqs: seq<Request>, size: nat, outs: seq<seq<Desc>>)
    requires |outs| == |reqs|
    requires forall i :: 0 <= i < |reqs| ==> Carried(reqs[i], size) && Outcome(reqs[i], size, outs[i])
    ensures outs == seq(|reqs|, i requires 0 <= i < |reqs| => Wanted(reqs[i]))
  {
    hide Carried, Wanted, Refused;
  }

  lemma ConcatNone()
    ensures Concat([]) == []
  {
  }

  lemma CarriedWritten(r: Request, size: nat)
    requires Carried(r, size)
    ensures !Refused(r, size) && r.len > 0 && Written(r, true) == Wanted(r) && 1 <= |Wanted(r)| < size
  {
    WantedFits(r, size);
  }

  lemma TwiceSeen(before: seq<Desc>, mid: seq<Desc>, ring: seq<Desc>, start: nat, end: nat, a: seq<Desc>, b: seq<Desc>)
    requires Placed(before, mid, start, a) && |a| + |b| <= |before| && |a| >= 1 && |b| < |before|
    requires Placed(mid, ring, At(start, |a|, |before|), b) && end == At(start, |b|, |before|)
    ensures Window(ring, start, Distance(start, end, |ring|)) == (a + b)[..|b|]
    ensures (a + b)[..|b|] != a + b
  {
    PlacedAfter(before, mid, ring, start, a, b);
    DistanceAt(start, |b|, |ring|);
    hide At, Distance, Placed;
    forall j | 0 <= j < |b|
      ensures Window(ring, start, |b|)[j] == (a + b)[j]
    {
      assert Window(ring, start, |a| + |b|)[j] == (a + b)[j];
    }
  }

  /** A request that is accepted reaches the hardware as it is exactly if it leaves a slot of
      the ring free and its flags are valid, or the slot held the same descriptor before. */
  lemma ServedIff(r: Request, before: seq<Desc>, start: nat, seen: seq<Desc>)
    requires start < |before| && Served(r, before, start, seen) && !Refused(r, |before|)
    ensures var w := Wanted(r);
      seen == w <==>
      |w| < |before| && (FlagsOk(r.flags % 256) || before[At(start, |w| - 1, |before|)] == w[|w| - 1])
  {
    var w, last := Wanted(r), |Wanted(r)| - 1;
    WantedFits(r, |before|);
    hide Split, FlagsOk;
    if |w| < |before| {
      assert seen == seen[..last] + [seen[last]];
      assert w == w[..last] + [w[last]];
    }
  }

  /** The hardware walks from where it was to `end`. */
  lemma ServedBy(r: Request, before: seq<Desc>, ring: seq<Desc>, start: nat, end: nat)
    requires |ring| == |before| && start < |ring| && end < |ring|
    requires Refused(r, |ring|) || |Wanted(r)| == |ring| ==> end == start
    requires !Refused(r, |ring|) ==> 0 < |Wanted(r)| <= |ring| && r.len > 0 && Placed(before, ring, start, Written(r, true))
    requires !Refused(r, |ring|) && |Wanted(r)| < |ring| ==> end == At(start, |Wanted(r)|, |ring|)
    ensures Served(r, before, start, Window(ring, start, Distance(start, end, |ring|)))
  {
    hide Split, FlagsOk, At, Distance;
    DistanceAt(start, 0, |ring|);
    AtStart(start, |ring|);
    if !Refused(r, |ring|) && |Wanted(r)| < |ring| {
      var w, last := Wanted(r), |Wanted(r)| - 1;
      DistanceAt(start, |w|, |ring|);
      PlacedPrefix(before, ring, start, Written(r, true), last);
      if FlagsOk(r.flags % 256) {
        assert Window(ring, start, |w|) == w;
      } else {
        assert Window(ring, start, |w|)[last] == ring[At(start, last, |ring|)];
      }
      assert Window(ring, start, |w|)[..last] == Window(ring, start, last);
    }
  }

  lemma AtStart(start: nat, n: nat)
    requires start < n
    ensures At(start, 0, n) == start
  {
  }

  lemma WantedFits(r: Request, size: nat)
    requires !Refused(r, size)
    ensures 1 <= |Wanted(r)| <= size
  {
  }

  /** The event offset of a pipe in step is that of the slot behind the new descriptors. */
  lemma SyncedEvent(start: nat, n: nat, size: nat)
    requires start < size <= 0x2000 && n <= size && IsPow2(size)
    ensures var event := BAM_DESC_SIZE * At(start, n, size);
      && EventAfter(n, OffsetBehind(start), size) == event
      && event % BAM_DESC_SIZE == 0 && event / BAM_DESC_SIZE == At(start, n, size)
      && At(start, 0, size) == start
  {
    var k: nat :| size == Pow2(k);
    var f := SlotsDivide(k);
    EventWhole(start, n, size, f);
    hide EventAfter, OffsetBehind, Pow2;
    DivModUnique(BAM_DESC_SIZE * (start + n), BAM_DESC_SIZE * size, if start + n < size then 0 else 1, BAM_DESC_SIZE * At(start, n, size));
  }

  /** The 16 bits of the offset do not matter to a ring that they hold a multiple of. */
  lemma EventWhole(start: nat, n: nat, size: nat, f: nat)
    requires size >= 1 && f >= 1 && BAM_DESC_SIZE * size * f == OFFSETS
    ensures EventAfter(n, OffsetBehind(start), size) == BAM_DESC_SIZE * (start + n) % (BAM_DESC_SIZE * size)
  {
    var bytes, next := BAM_DESC_SIZE * size, BAM_DESC_SIZE * start + BAM_DESC_SIZE;
    ModMod(next, bytes, f);
    ModAdd(next % OFFSETS, next, (n - 1) * BAM_DESC_SIZE, bytes);
  }

  lemma SlotsDivide(k: nat) returns (f: nat)
    requires Pow2(k) <= 0x2000
    ensures f >= 1 && BAM_DESC_SIZE * Pow2(k) * f == OFFSETS
  {
    assert Pow2(7) == 0x80;
    assert Pow2(6) == 0x40;
    hide Pow2;
    PowersDivide(7, 7);
    if k >= 14 {
      PowersDivide(14, k - 14);
      MulBound(Pow2(14), Pow2(k - 14));
    }
    PowersDivide(k, 13 - k);
    PowersDivide(7, 6);
    f := Pow2(13 - k);
  }

  /** Every descriptor but the last one is written. */
  lemma WrittenStep(r: Request, initialized: bool, n: nat)
    requires r.len > 0 && n < |Wanted(r)|
    ensures var w, ds := Wanted(r), Written(r, initialized);
      && w[..n + 1] == w[..n] + [w[n]]
      && (!initialized ==> ds == [])
      && (initialized && n + 1 == |w| ==> ds == if FlagsOk(r.flags % 256) then w[..n] + [w[n]] else w[..n])
  {
    hide FlagsOk, Split;
    var w := Wanted(r);
    assert n + 1 == |w| ==> w[..n + 1] == w;
  }

  lemma NoFlags()
    ensures FlagsOk(0)
  {
  }

  lemma Mask16(x: nat)
    ensures And(x, 0xFFFF) == x % OFFSETS
  {
    PowersOf16();
    MaskIsMod(x, 16);
  }

  lemma SlotOf(position: nat)
    ensures BAM_DESC_SIZE * position % OFFSETS == BAM_DESC_SIZE * (position % 0x2000)
    ensures (BAM_DESC_SIZE * (position % 0x2000) + BAM_DESC_SIZE) % OFFSETS == OffsetBehind(position)
    ensures position % 0x2000 <= position
    ensures position % 0x2000 == position <==> position < 0x2000
  {
  }

  lemma PowersOf16()
    ensures Pow2(16) == OFFSETS && Pow2(32) == ADDRESSES
  {
    assert Pow2(8) == 0x100;
    PowersDivide(8, 8);
    PowersDivide(16, 16);
  }

  /** Arithmetic of 32 bits under the mask of a ring is arithmetic modulo its size. */
  lemma EventOffset(x: int, offset: nat, size: nat)
    requires IsPow2(size) && size < OFFSETS
    ensures And((x % ADDRESSES + offset) % ADDRESSES, size * BAM_DESC_SIZE - 1) == (x + offset) % (BAM_DESC_SIZE * size)
  {
    var k: nat :| size == Pow2(k);
    PowersDivide(k, 3);
    assert Pow2(3) == 2 * Pow2(2) && Pow2(2) == 2 * Pow2(1) == 4;
    RingDivides(k);
    hide Pow2, And;
    EventSum(x, offset, Pow2(k + 3), Pow2(29 - k));
    MaskIsMod((x % ADDRESSES + offset) % ADDRESSES, k + 3);
  }

  lemma EventSum(x: int, offset: nat, ring: nat, f: nat)
    requires ring >= 1 && f >= 1 && ring * f == ADDRESSES
    ensures (x % ADDRESSES + offset) % ADDRESSES % ring == (x + offset) % ring
  {
    ModMod(x % ADDRESSES + offset, ring, f);
    ModMod(x, ring, f);
    ModAdd(x % ADDRESSES, x, offset, ring);
  }

  lemma RingDivides(k: nat)
    requires Pow2(k) < OFFSETS
    ensures k < 16 && Pow2(k + 3) * Pow2(29 - k) == ADDRESSES
  {
    PowersOf16();
    if k >= 16 {
      PowersDivide(16, k - 16);
      MulBound(Pow2(16), Pow2(k - 16));
    }
    PowersDivide(k + 3, 29 - k);
  }

  lemma ModAdd(a: int, b: int, offset: int, n: nat)
    requires n >= 1 && a % n == b % n
    ensures (a + offset) % n == (b + offset) % n
  {
    var qa, qb, q := a / n, b / n, (b + offset) / n;
    Distribute(n, qa - qb, q);
    Distribute(n, qa, -qb);
    DivModUnique(a + offset, n, qa - qb + q, (b + offset) % n);
  }
}
