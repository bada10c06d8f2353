/** Where the messages of a transfer fall, by their lengths, directions and addresses alone:
    which messages lose something, where each pass ends, and which fills are overfull. */
module QupLayout {
  import opened Bits
  import opened QupWords
  import opened QupSchedule
  import opened QupRefinement
  import opened QupTheorems

  /** A merged message that starts in `slot` is cut at 256 bytes before the fill is full. */
  predicate CutShort(msgs: seq<Msg>, k: nat, slot: nat, wr: nat)
    requires k < |msgs|
  {
    slot > 0 && msgs[k].Len() > 256 && slot + 257 < wr
  }

  /** And something of it is lost: the rest, if the fill goes on with the next message, or the
      half-word held back, if the fill ends because that is for another slave. */
  predicate LosesRest(msgs: seq<Msg>, k: nat, slot: nat, wr: nat)
    requires k < |msgs|
  {
    CutShort(msgs, k, slot, wr) && if SameSlaveNext(msgs, k) then !(slot + 258 == wr && ReadNext(msgs, k)) else slot % 2 == 0
  }

  /** The slot after message `k`, some of whose bytes fit into the current fill. */
  function EndSlot(msgs: seq<Msg>, k: nat, slot: nat, wr: nat): (e: nat)
    requires k < |msgs| && slot < wr && 1 <= msgs[k].Len() && 4 <= wr
    ensures e <= wr
  {
    var len := msgs[k].Len();
    if CutShort(msgs, k, slot, wr) then RefillEnd(len - 256, wr)
    else if slot + 1 + len <= wr then slot + 1 + len
    else if slot + 1 == wr then RefillEnd(len - 1, wr)
    else RefillEnd(len - (wr - 1 - slot), wr)
  }

  /** The slot after the last of `left` bytes that start a new fill. */
  function RefillEnd(left: nat, wr: nat): (e: nat)
    requires 4 <= wr
    ensures e <= wr
  {
    if left == 0 then wr else (left - 1) % (wr - 1) + 2
  }

  /** From message `k`, which starts in `slot`, to the end of the pass: no message but the
      last one starts in the last slot of a fill or loses a part, and one before a message
      for another slave ends in an even slot. */
  predicate Aligned(msgs: seq<Msg>, k: nat, slot: nat, wr: nat)
    requires NonEmpty(msgs) && k < |msgs| && slot < wr && 4 <= wr
    decreases |msgs| - k, 1
  {
    || IsLast(msgs, k)
    || (slot + 1 != wr && !LosesRest(msgs, k, slot, wr) && AlignedAfter(msgs, k, EndSlot(msgs, k, slot, wr), wr))
  }

  predicate AlignedAfter(msgs: seq<Msg>, k: nat, e: nat, wr: nat)
    requires NonEmpty(msgs) && k < |msgs| && e <= wr && 4 <= wr
    decreases |msgs| - k, 0
  {
    || IsLast(msgs, k)
    || if SameSlaveNext(msgs, k) then e == wr || msgs[k + 1].Read? || Aligned(msgs, k + 1, e, wr) else e % 2 == 1
  }

  lemma ModStep(x: nat, m: nat)
    requires m > 0 && x >= m
    ensures (x - m) % m == x % m
  {
    var q, r := x / m, x % m;
    assert x - m == m * (q - 1) + r;
    DivModUnique(x - m, m, q - 1, r);
  }

  /** One call: when it is faithful, and what follows it. */
  lemma BurstOutcome(msgs: seq<Msg>, k: nat, pos: nat, cnt: nat, slot: nat, wr: nat)
    requires WritePoint(msgs, k, pos, cnt, slot, wr)
    requires var left := msgs[k].Len() - pos; cnt == if slot == 0 then left else Min(left, 256)
    ensures var b := BurstAt(msgs, k, pos, cnt, slot, wr);
      var left := msgs[k].Len() - pos;
      && b.last == slot + b.n && b.n <= left && (slot + 1 != wr ==> b.last < wr)
      && b.n == (if slot + 1 == wr then 1 else if CutShort(msgs, k, slot, wr) then 256 else Min(left, wr - 1 - slot))
      && (FaithfulBurst(msgs, k, pos, cnt, slot, wr) <==>
            || IsLast(msgs, k)
            || (slot + 1 != wr && !LosesRest(msgs, k, slot, wr)
                && (b.n == left && !SameSlaveNext(msgs, k) ==> b.last % 2 == 0)))
      && (!FillEnds(msgs, k, b, wr) ==>
            SameSlaveNext(msgs, k) && b.last + 1 < wr && (b.n < left ==> LosesRest(msgs, k, slot, wr)))
      && (FillEnds(msgs, k, b, wr) && b.n == left ==> b.last + 1 >= wr || !SameSlaveNext(msgs, k) || msgs[k + 1].Read?)
  {
  }

  /** Where the message ends, seen from one call. */
  lemma EndSlotStep(msgs: seq<Msg>, k: nat, left: nat, n: nat, slot: nat, wr: nat)
    requires k < |msgs| && slot < wr && 1 <= left && 4 <= wr && (slot > 0 ==> left == msgs[k].Len())
    requires n == if slot + 1 == wr then 1 else if CutShort(msgs, k, slot, wr) then 256 else Min(left, wr - 1 - slot)
    ensures left == msgs[k].Len() && n < left ==> EndSlot(msgs, k, slot, wr) == RefillEnd(left - n, wr)
    ensures n < left && slot == 0 ==> RefillEnd(left, wr) == RefillEnd(left - n, wr)
    ensures left == msgs[k].Len() && n == left ==> EndSlot(msgs, k, slot, wr) == if slot + 1 + n <= wr then slot + 1 + n else wr
    ensures n == left && slot == 0 ==> RefillEnd(left, wr) == 1 + n <= wr
    ensures n == left ==> !CutShort(msgs, k, slot, wr)
  {
    RefillStep(left, n, wr);
    hide RefillEnd;
  }

  lemma RefillStep(left: nat, n: nat, wr: nat)
    requires 4 <= wr && 1 <= n <= left
    ensures n == wr - 1 ==> left == n || RefillEnd(left, wr) == RefillEnd(left - n, wr)
    ensures left <= wr - 1 ==> RefillEnd(left, wr) == 1 + left
    ensures RefillEnd(0, wr) == wr
  {
    if left > wr - 1 {
      ModStep(left - 1, wr - 1);
    } else {
      DivModUnique(left - 1, wr - 1, 0, left - 1);
    }
  }

  /** A pass is faithful exactly if it is aligned. */
  lemma {:induction false} AlignedIff(msgs: seq<Msg>, k: nat, pos: nat, cnt: nat, slot: nat, wr: nat)
    requires WritePoint(msgs, k, pos, cnt, slot, wr)
    requires var left := msgs[k].Len() - pos; cnt == if slot == 0 then left else Min(left, 256)
    ensures FaithfulPass(msgs, k, pos, cnt, slot, wr) <==>
      if pos == 0 then Aligned(msgs, k, slot, wr)
      else AlignedAfter(msgs, k, RefillEnd(msgs[k].Len() - pos, wr), wr)
    decreases |msgs| - k, msgs[k].Len() - pos
  {
    hide *;
    WriteAt(msgs, k, pos, cnt, slot, wr);
    PointBounds(msgs, k, pos, cnt, slot, wr);
    var b := BurstAt(msgs, k, pos, cnt, slot, wr);
    var left := msgs[k].Len() - pos;
    BurstOutcome(msgs, k, pos, cnt, slot, wr);
    EndSlotStep(msgs, k, left, b.n, slot, wr);
    LosesOnlyIfCut(msgs, k, slot, wr);
    FaithfulPassIs(msgs, k, pos, cnt, slot, wr);
    AlignedIs(msgs, k, slot, wr);
    AlignedAfterIs(msgs, k, if pos == 0 then EndSlot(msgs, k, slot, wr) else RefillEnd(left, wr), wr);
    if FillEnds(msgs, k, b, wr) {
      if b.n < left {
        PassStopsSettled(msgs, k, pos, cnt, slot, wr);
        AlignedIff(msgs, k, pos + b.n, left - b.n, 0, wr);
      }
    } else if msgs[k + 1].Write? {
      NextPoint(msgs, k, pos, cnt, slot, wr);
      AlignedIff(msgs, k + 1, 0, Min(msgs[k + 1].Len(), 256), b.last + 1, wr);
    }
  }

  lemma LosesOnlyIfCut(msgs: seq<Msg>, k: nat, slot: nat, wr: nat)
    requires k < |msgs|
    ensures LosesRest(msgs, k, slot, wr) ==> CutShort(msgs, k, slot, wr) && slot > 0
    ensures SameSlaveNext(msgs, k) ==> k + 1 < |msgs|
  {
  }

  lemma PointBounds(msgs: seq<Msg>, k: nat, pos: nat, cnt: nat, slot: nat, wr: nat)
    requires WritePoint(msgs, k, pos, cnt, slot, wr)
    ensures 4 <= wr && slot < wr && (pos > 0 ==> slot == 0) && pos < msgs[k].Len()
  {
  }

  lemma AlignedIs(msgs: seq<Msg>, k: nat, slot: nat, wr: nat)
    requires NonEmpty(msgs) && k < |msgs| && slot < wr && 4 <= wr
    ensures msgs[k].Len() >= 1
    ensures Aligned(msgs, k, slot, wr)
        <==> IsLast(msgs, k) || (slot + 1 != wr && !LosesRest(msgs, k, slot, wr) && AlignedAfter(msgs, k, EndSlot(msgs, k, slot, wr), wr))
  {
  }

  lemma AlignedAfterIs(msgs: seq<Msg>, k: nat, e: nat, wr: nat)
    requires NonEmpty(msgs) && k < |msgs| && e <= wr && 4 <= wr
    ensures IsLast(msgs, k) <==> k + 1 >= |msgs|
    ensures AlignedAfter(msgs, k, e, wr) <==>
      || IsLast(msgs, k)
      || if SameSlaveNext(msgs, k) then e == wr || msgs[k + 1].Read? || Aligned(msgs, k + 1, e, wr) else e % 2 == 1
  {
  }

  // Where a pass ends.

  /** A place in a message list from which a transfer goes on. */
  datatype Place = Place(k: nat, pos: nat)

  /** The rest of a cut message is passed over: the fill goes on with the next message. */
  predicate SkipsRest(msgs: seq<Msg>, k: nat, slot: nat, wr: nat)
    requires k < |msgs|
  {
    CutShort(msgs, k, slot, wr) && SameSlaveNext(msgs, k) && !(slot + 258 == wr && ReadNext(msgs, k))
  }

  /** After the first command of a read. */
  function AfterRead(msgs: seq<Msg>, k: nat): Place
    requires k < |msgs|
  {
    if msgs[k].Len() <= 256 then Place(k + 1, 0) else Place(k, 256)
  }

  /** Where the pass ends that sends message `k` from `slot` on: behind the last message it
      merges, or within the read that it takes along. */
  function PassEnd(msgs: seq<Msg>, k: nat, slot: nat, wr: nat): (p: Place)
    requires NonEmpty(msgs) && k < |msgs| && slot < wr && 4 <= wr
    ensures k < p.k && PassPoint(msgs, p.k, p.pos)
    decreases |msgs| - k, 1
  {
    if !SkipsRest(msgs, k, slot, wr) then PassEndAfter(msgs, k, EndSlot(msgs, k, slot, wr), wr)
    else if msgs[k + 1].Read? then AfterRead(msgs, k + 1)
    else PassEnd(msgs, k + 1, slot + 257, wr)
  }

  /** The same when message `k` is sent and the next free slot is `e`. */
  function PassEndAfter(msgs: seq<Msg>, k: nat, e: nat, wr: nat): (p: Place)
    requires NonEmpty(msgs) && k < |msgs| && e <= wr && 4 <= wr
    ensures k < p.k && PassPoint(msgs, p.k, p.pos)
    decreases |msgs| - k, 0
  {
    if !SameSlaveNext(msgs, k) || e == wr then Place(k + 1, 0)
    else if msgs[k + 1].Write? then PassEnd(msgs, k + 1, e, wr)
    else if e + 1 == wr then Place(k + 1, 0)
    else AfterRead(msgs, k + 1)
  }

  /** From message `k`, which starts in `slot`: the pass comes to the last message of the
      transfer in the last slot of a fill. */
  predicate Overfills(msgs: seq<Msg>, k: nat, slot: nat, wr: nat)
    requires NonEmpty(msgs) && k < |msgs| && slot < wr && 4 <= wr
    decreases |msgs| - k, 1
  {
    if IsLast(msgs, k) then slot + 1 == wr
    else if SkipsRest(msgs, k, slot, wr) then msgs[k + 1].Write? && Overfills(msgs, k + 1, slot + 257, wr)
    else OverfillsAfter(msgs, k, EndSlot(msgs, k, slot, wr), wr)
  }

  predicate OverfillsAfter(msgs: seq<Msg>, k: nat, e: nat, wr: nat)
    requires NonEmpty(msgs) && k < |msgs| && e <= wr && 4 <= wr
    decreases |msgs| - k, 0
  {
    SameSlaveNext(msgs, k) && msgs[k + 1].Write? && e < wr && Overfills(msgs, k + 1, e, wr)
  }

  /** How one call goes on, in these terms. */
  lemma CallOutcome(msgs: seq<Msg>, k: nat, pos: nat, cnt: nat, slot: nat, wr: nat)
    requires WritePoint(msgs, k, pos, cnt, slot, wr)
    requires var left := msgs[k].Len() - pos; cnt == if slot == 0 then left else Min(left, 256)
    requires 4 <= wr && slot < wr && 1 <= msgs[k].Len()
    ensures var b := BurstAt(msgs, k, pos, cnt, slot, wr);
      var left := msgs[k].Len() - pos;
      var e := if pos == 0 then EndSlot(msgs, k, slot, wr) else RefillEnd(left, wr);
      && b.n <= left && (pos > 0 ==> slot == 0 && !SkipsRest(msgs, k, slot, wr))
      && (SkipsRest(msgs, k, slot, wr) <==> b.n < left && !FillEnds(msgs, k, b, wr))
      && (SkipsRest(msgs, k, slot, wr) ==> pos == 0 && b.last == slot + 256 && slot + 257 < wr)
      && (FillEnds(msgs, k, b, wr) && b.n < left ==> e == RefillEnd(left - b.n, wr))
      && (FillEnds(msgs, k, b, wr) && b.n == left && SameSlaveNext(msgs, k) ==> e == wr || (msgs[k + 1].Read? && e + 1 == wr))
      && (!FillEnds(msgs, k, b, wr) ==> SameSlaveNext(msgs, k) && (msgs[k + 1].Read? && b.n == left ==> e + 1 < wr))
      && (!FillEnds(msgs, k, b, wr) && b.n == left ==> b.last + 1 == e < wr)
  {
    BurstOutcome(msgs, k, pos, cnt, slot, wr);
    var b := BurstAt(msgs, k, pos, cnt, slot, wr);
    EndSlotStep(msgs, k, msgs[k].Len() - pos, b.n, slot, wr);
    hide EndSlot, RefillEnd, NonEmpty;
  }

  lemma PassEndIs(msgs: seq<Msg>, k: nat, slot: nat, wr: nat)
    requires NonEmpty(msgs) && k < |msgs| && slot < wr && 4 <= wr
    ensures msgs[k].Len() >= 1 && (SkipsRest(msgs, k, slot, wr) ==> slot + 257 < wr && k + 1 < |msgs|)
    ensures PassEnd(msgs, k, slot, wr) ==
      if !SkipsRest(msgs, k, slot, wr) then PassEndAfter(msgs, k, EndSlot(msgs, k, slot, wr), wr)
      else if msgs[k + 1].Read? then AfterRead(msgs, k + 1)
      else PassEnd(msgs, k + 1, slot + 257, wr)
    ensures Overfills(msgs, k, slot, wr) <==>
      if IsLast(msgs, k) then slot + 1 == wr
      else if SkipsRest(msgs, k, slot, wr) then msgs[k + 1].Write? && Overfills(msgs, k + 1, slot + 257, wr)
      else OverfillsAfter(msgs, k, EndSlot(msgs, k, slot, wr), wr)
  {
    hide EndSlot, AfterRead;
  }

  lemma PassEndAfterIs(msgs: seq<Msg>, k: nat, e: nat, wr: nat)
    requires NonEmpty(msgs) && k < |msgs| && e <= wr && 4 <= wr
    ensures SameSlaveNext(msgs, k) ==> k + 1 < |msgs|
    ensures IsLast(msgs, k) ==> !SameSlaveNext(msgs, k)
    ensures PassEndAfter(msgs, k, e, wr) ==
      if !SameSlaveNext(msgs, k) || e == wr then Place(k + 1, 0)
      else if msgs[k + 1].Write? then PassEnd(msgs, k + 1, e, wr)
      else if e + 1 == wr then Place(k + 1, 0)
      else AfterRead(msgs, k + 1)
    ensures OverfillsAfter(msgs, k, e, wr) <==>
      SameSlaveNext(msgs, k) && msgs[k + 1].Write? && e < wr && Overfills(msgs, k + 1, e, wr)
  {
    hide AfterRead;
  }

  lemma AfterReadIs(msgs: seq<Msg>, k: nat)
    requires NonEmpty(msgs) && k < |msgs|
    ensures var q := After(msgs, k, Min(msgs[k].Len(), 256), []); AfterRead(msgs, k) == Place(q.k, q.pos)
  {
  }

  /** A pass ends where the lengths, directions and addresses say. */
  lemma {:induction false} PassEndsAt(msgs: seq<Msg>, k: nat, pos: nat, cnt: nat, slot: nat, wr: nat)
    requires WritePoint(msgs, k, pos, cnt, slot, wr)
    requires var left := msgs[k].Len() - pos; cnt == if slot == 0 then left else Min(left, 256)
    ensures var p := Pass(msgs, k, pos, cnt, slot, wr);
      var q := if pos == 0 then PassEnd(msgs, k, slot, wr) else PassEndAfter(msgs, k, RefillEnd(msgs[k].Len() - pos, wr), wr);
      p.k == q.k && p.pos == q.pos
    decreases |msgs| - k, msgs[k].Len() - pos
  {
    hide *;
    WriteAt(msgs, k, pos, cnt, slot, wr);
    PointBounds(msgs, k, pos, cnt, slot, wr);
    var b := BurstAt(msgs, k, pos, cnt, slot, wr);
    var left := msgs[k].Len() - pos;
    PassEndIs(msgs, k, slot, wr);
    PassEndAfterIs(msgs, k, if pos == 0 then EndSlot(msgs, k, slot, wr) else RefillEnd(left, wr), wr);
    CallOutcome(msgs, k, pos, cnt, slot, wr);
    if FillEnds(msgs, k, b, wr) {
      PassStops(msgs, k, pos, cnt, slot, wr);
      PassStopsSettled(msgs, k, pos, cnt, slot, wr);
      RestIs(msgs, k, pos + b.n, left - b.n, wr);
      PrependedPoint(BurstSent(msgs, k, pos, cnt, slot, wr), Rest(msgs, k, pos + b.n, left - b.n, wr));
      if b.n < left {
        PassEndsAt(msgs, k, pos + b.n, left - b.n, 0, wr);
      }
    } else {
      NextPoint(msgs, k, pos, cnt, slot, wr);
      var next := Min(msgs[k + 1].Len(), 256);
      if msgs[k + 1].Read? {
        PassReads(msgs, k, pos, cnt, slot, wr);
        AfterReadIs(msgs, k + 1);
        ReadRest(msgs, k + 1, next, wr, BurstEntries(msgs, k, pos, cnt, slot, wr) + ReadCommand(msgs[k + 1], msgs[k + 1].Len()));
      } else {
        PassGoesOn(msgs, k, pos, cnt, slot, wr);
        PrependedPoint(BurstEntries(msgs, k, pos, cnt, slot, wr), Pass(msgs, k + 1, 0, next, b.last + 1, wr));
        PassEndsAt(msgs, k + 1, 0, next, b.last + 1, wr);
      }
    }
  }

  /** A fill of a pass is overfull exactly if it comes to the last message in its last slot. */
  lemma {:induction false} OverfillsIff(msgs: seq<Msg>, k: nat, pos: nat, cnt: nat, slot: nat, wr: nat)
    requires WritePoint(msgs, k, pos, cnt, slot, wr)
    requires var left := msgs[k].Len() - pos; cnt == if slot == 0 then left else Min(left, 256)
    ensures PassOverruns(msgs, k, pos, cnt, slot, wr) <==>
      if pos == 0 then Overfills(msgs, k, slot, wr)
      else OverfillsAfter(msgs, k, RefillEnd(msgs[k].Len() - pos, wr), wr)
    decreases |msgs| - k, msgs[k].Len() - pos
  {
    hide *;
    WriteAt(msgs, k, pos, cnt, slot, wr);
    PointBounds(msgs, k, pos, cnt, slot, wr);
    var b := BurstAt(msgs, k, pos, cnt, slot, wr);
    var left := msgs[k].Len() - pos;
    PassEndIs(msgs, k, slot, wr);
    PassEndAfterIs(msgs, k, if pos == 0 then EndSlot(msgs, k, slot, wr) else RefillEnd(left, wr), wr);
    CallOutcome(msgs, k, pos, cnt, slot, wr);
    PassOverrunsIs(msgs, k, pos, cnt, slot, wr);
    if FillEnds(msgs, k, b, wr) {
      if b.n < left {
        PassStopsSettled(msgs, k, pos, cnt, slot, wr);
        OverfillsIff(msgs, k, pos + b.n, left - b.n, 0, wr);
        PassEndAfterIs(msgs, k, RefillEnd(left - b.n, wr), wr);
      }
    } else if msgs[k + 1].Write? {
      NextPoint(msgs, k, pos, cnt, slot, wr);
      OverfillsIff(msgs, k + 1, 0, Min(msgs[k + 1].Len(), 256), b.last + 1, wr);
    }
  }

  // Whole transfers.

  /** Where the pass ends that starts here. */
  function NextPass(g: Geometry, msgs: seq<Msg>, k: nat, pos: nat): (p: Place)
    requires ValidGeometry(g) && PassPoint(msgs, k, pos) && k < |msgs|
    ensures PassPoint(msgs, p.k, p.pos) && (k < p.k || (k == p.k && pos < p.pos))
  {
    if msgs[k].Write? then PassEnd(msgs, k, 0, FillSize(g, msgs, k))
    else if msgs[k].Len() - pos <= 256 then Place(k + 1, 0)
    else Place(k, pos + 256)
  }

  lemma NextPassIs(g: Geometry, msgs: seq<Msg>, k: nat, pos: nat)
    requires ValidGeometry(g) && PassPoint(msgs, k, pos) && k < |msgs|
    ensures var p, q := PassAt(g, msgs, k, pos), NextPass(g, msgs, k, pos); p.k == q.k && p.pos == q.pos
  {
    if msgs[k].Write? {
      WritePassIs(g, msgs, k);
      PassEndsAt(msgs, k, 0, msgs[k].Len(), 0, FillSize(g, msgs, k));
    } else {
      ReadPassIs(g, msgs, k, pos);
    }
    hide PassAt, PassEnd, FillSize;
  }

  /** Every pass of a transfer is aligned. */
  predicate AlignedTransfer(g: Geometry, msgs: seq<Msg>, k: nat, pos: nat)
    requires ValidGeometry(g) && PassPoint(msgs, k, pos)
    decreases |msgs| - k, if k < |msgs| then msgs[k].Len() - pos else 0
  {
    k == |msgs| ||
    var p := NextPass(g, msgs, k, pos);
    (msgs[k].Write? ==> Aligned(msgs, k, 0, FillSize(g, msgs, k))) && AlignedTransfer(g, msgs, p.k, p.pos)
  }

  /** Any transfer is sent as intended exactly if it is aligned. */
  lemma {:induction false} AlignedTransferIff(g: Geometry, msgs: seq<Msg>, k: nat, pos: nat)
    requires ValidGeometry(g) && PassPoint(msgs, k, pos)
    ensures DropNops(Transfer(g, msgs, k, pos)) == Intended(msgs, k, pos) <==> AlignedTransfer(g, msgs, k, pos)
    ensures Faithful(g, msgs, k, pos) <==> AlignedTransfer(g, msgs, k, pos)
    decreases |msgs| - k, if k < |msgs| then msgs[k].Len() - pos else 0
  {
    TransferIff(g, msgs, k, pos);
    if k < |msgs| {
      var p := NextPass(g, msgs, k, pos);
      NextPassIs(g, msgs, k, pos);
      if msgs[k].Write? {
        WritePassIs(g, msgs, k);
        AlignedIff(msgs, k, 0, msgs[k].Len(), 0, FillSize(g, msgs, k));
      }
      AlignedTransferIff(g, msgs, p.k, p.pos);
      hide Transfer, DropNops, Intended, PassAt, NextPass, FaithfulPass, Aligned;
    }
  }

  /** Some pass of a transfer comes to its last message in the last slot of a fill. */
  predicate OverfillsTransfer(g: Geometry, msgs: seq<Msg>, k: nat, pos: nat)
    requires ValidGeometry(g) && PassPoint(msgs, k, pos)
    decreases |msgs| - k, if k < |msgs| then msgs[k].Len() - pos else 0
  {
    k < |msgs| &&
    var p := NextPass(g, msgs, k, pos);
    (msgs[k].Write? && Overfills(msgs, k, 0, FillSize(g, msgs, k))) || OverfillsTransfer(g, msgs, p.k, p.pos)
  }

  /** Some fill of a transfer writes a word more than it has room for exactly then. */
  lemma {:induction false} TransferOverrunsIff(g: Geometry, msgs: seq<Msg>, k: nat, pos: nat)
    requires ValidGeometry(g) && PassPoint(msgs, k, pos)
    ensures TransferOverruns(g, msgs, k, pos) <==> OverfillsTransfer(g, msgs, k, pos)
    decreases |msgs| - k, if k < |msgs| then msgs[k].Len() - pos else 0
  {
    if k < |msgs| {
      var p := NextPass(g, msgs, k, pos);
      NextPassIs(g, msgs, k, pos);
      if msgs[k].Write? {
        WritePassIs(g, msgs, k);
        OverfillsIff(msgs, k, 0, msgs[k].Len(), 0, FillSize(g, msgs, k));
      }
      TransferOverrunsIff(g, msgs, p.k, p.pos);
      hide PassAt, NextPass, PassOverruns, Overfills;
    }
  }
}
