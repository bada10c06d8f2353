/** Facts about the schedule that the register-level engine is proved with. */
module QupRefinement {
  import opened QupWords
  import opened QupSchedule
  import opened Seqs

  /** The entries of a call before its last byte. */
  function Head(m: Msg, from: nat, to: nat): seq<bv16>
    requires m.Write? && from <= to <= |m.data|
  {
    [if from == 0 then WriteHeader(m.addr) else NOP] + Bytes(m.data[from..to], false)
  }

  /** The entry of its last byte and what follows it. */
  function Tail(b: Burst, byte: bv8): seq<bv16> {
    Half(Tagged(if b.stopped then STOP else DATA, byte)) + if b.padded then [NOP] else []
  }

  /** The entries of a call in the order the code produces them. */
  lemma BurstSplit(msgs: seq<Msg>, k: nat, pos: nat, cnt: nat, slot: nat, wr: nat)
    requires WritePoint(msgs, k, pos, cnt, slot, wr)
    ensures var b := BurstAt(msgs, k, pos, cnt, slot, wr);
      var at := pos + b.n - 1;
      BurstEntries(msgs, k, pos, cnt, slot, wr) == Head(msgs[k], pos, at) + Tail(b, msgs[k].data[at])
  {
    var b := BurstAt(msgs, k, pos, cnt, slot, wr);
    var at := pos + b.n - 1;
    BytesEnd(msgs[k].data, pos, at, b.stopped);
    hide BurstAt, Bytes, Tagged, Half;
    assert msgs[k].data[pos..pos + b.n] == msgs[k].data[pos..at + 1];
    RegroupPairs([if pos == 0 then WriteHeader(msgs[k].addr) else NOP], Bytes(msgs[k].data[pos..at], false),
                 Half(Tagged(if b.stopped then STOP else DATA, msgs[k].data[at])), if b.padded then [NOP] else []);
  }

  lemma BurstAfter(before: seq<bv16>, msgs: seq<Msg>, k: nat, pos: nat, cnt: nat, slot: nat, wr: nat)
    requires WritePoint(msgs, k, pos, cnt, slot, wr)
    ensures var b := BurstAt(msgs, k, pos, cnt, slot, wr);
      var at := pos + b.n - 1;
      before + BurstEntries(msgs, k, pos, cnt, slot, wr) == before + Head(msgs[k], pos, at) + Tail(b, msgs[k].data[at])
  {
    BurstSplit(msgs, k, pos, cnt, slot, wr);
    hide BurstAt, BurstEntries, Head, Tail;
  }

  lemma BytesEnd(d: seq<bv8>, from: nat, to: nat, stop: bool)
    requires from <= to < |d|
    ensures Bytes(d[from..to + 1], stop)
         == Bytes(d[from..to], false) + Half(Tagged(if stop then STOP else DATA, d[to]))
  {
    TaggedIsNoNop(d[to]);
    assert d[from..to + 1] == d[from..to] + [d[to]];
  }

  /** The half-word of an odd slot completes a word; that of an even slot is held back. */
  predicate Odd(slot: nat) {
    slot % 2 == 1
  }

  /** Words written once all slots below `slot` are taken, a held half-word aside. */
  function Words(slot: nat): nat {
    slot / 2
  }

  /** A byte index into a fill, and the slot it stands for. */
  lemma SlotOf(idx: nat, slot: nat)
    requires idx == 2 * slot
    ensures idx / 2 == slot && (idx % 4 == 0 <==> !Odd(slot)) && (Odd(slot + 1) <==> !Odd(slot))
    ensures Words(slot + 1) == Words(slot) + if Odd(slot) then 1 else 0
  {
  }

  /** A fill is over and message `k` is the current one. */
  predicate Settled(msgs: seq<Msg>, k: nat, pos: nat, cnt: nat, wr: nat) {
    && NonEmpty(msgs) && k < |msgs|
    && (msgs[k].Write? ==> pos + cnt == msgs[k].Len() && (cnt > 0 ==> WritePoint(msgs, k, pos, cnt, 0, wr)))
    && (msgs[k].Read? ==> pos < msgs[k].Len() && cnt == Min(msgs[k].Len() - pos, 256))
  }

  /** `flow` followed by what the pass still sends from this point is `goal`. */
  ghost predicate Open(flow: seq<bv16>, msgs: seq<Msg>, k: nat, pos: nat, cnt: nat, slot: nat, wr: nat,
                       goal: Progress) {
    WritePoint(msgs, k, pos, cnt, slot, wr) && Prepend(flow, Pass(msgs, k, pos, cnt, slot, wr)) == goal
  }

  ghost predicate Closed(flow: seq<bv16>, msgs: seq<Msg>, k: nat, pos: nat, cnt: nat, wr: nat, goal: Progress) {
    Settled(msgs, k, pos, cnt, wr) && Prepend(flow, Rest(msgs, k, pos, cnt, wr)) == goal
  }

  /** A read is next and both its entries fit into this fill. */
  ghost predicate ReadDue(flow: seq<bv16>, msgs: seq<Msg>, k: nat, pos: nat, cnt: nat, slot: nat, wr: nat,
                          goal: Progress) {
    && k < |msgs| && msgs[k].Read? && slot + 2 <= wr && wr % 2 == 0
    && pos < msgs[k].Len() && cnt == Min(msgs[k].Len() - pos, 256)
    && Closed(flow + ReadCommand(msgs[k], msgs[k].Len() - pos), msgs, k, pos, cnt, wr, goal)
  }

  predicate OpenOverruns(msgs: seq<Msg>, k: nat, pos: nat, cnt: nat, slot: nat, wr: nat) {
    WritePoint(msgs, k, pos, cnt, slot, wr) && Overruns(msgs, k, pos, cnt, slot, wr)
  }

  /** The same for this fill or a later one of the pass. */
  predicate AheadOverruns(msgs: seq<Msg>, k: nat, pos: nat, cnt: nat, slot: nat, wr: nat) {
    && k < |msgs| && msgs[k].Write? && cnt > 0
    && WritePoint(msgs, k, pos, cnt, slot, wr) && PassOverruns(msgs, k, pos, cnt, slot, wr)
  }

  /** And for this pass or a later one of the transfer. */
  predicate LaterOverruns(g: Geometry, msgs: seq<Msg>, k: nat, pos: nat) {
    ValidGeometry(g) && PassPoint(msgs, k, pos) && TransferOverruns(g, msgs, k, pos)
  }

  lemma PassOverrunsIs(msgs: seq<Msg>, k: nat, pos: nat, cnt: nat, slot: nat, wr: nat)
    requires WritePoint(msgs, k, pos, cnt, slot, wr)
    ensures var b := BurstAt(msgs, k, pos, cnt, slot, wr);
      var left := msgs[k].Len() - pos - b.n;
      PassOverruns(msgs, k, pos, cnt, slot, wr) <==>
        if FillEnds(msgs, k, b, wr) then
          (IsLast(msgs, k) && slot + 1 == wr) || (left > 0 && PassOverruns(msgs, k, pos + b.n, left, 0, wr))
        else msgs[k + 1].Write? && PassOverruns(msgs, k + 1, 0, Min(msgs[k + 1].Len(), 256), b.last + 1, wr)
  {
    hide BurstAt;
  }

  lemma OverrunsIs(msgs: seq<Msg>, k: nat, pos: nat, cnt: nat, slot: nat, wr: nat)
    requires WritePoint(msgs, k, pos, cnt, slot, wr)
    ensures var b := BurstAt(msgs, k, pos, cnt, slot, wr);
      OpenOverruns(msgs, k, pos, cnt, slot, wr) <==>
        if FillEnds(msgs, k, b, wr) then IsLast(msgs, k) && slot + 1 == wr
        else msgs[k + 1].Write? && Overruns(msgs, k + 1, 0, Min(msgs[k + 1].Len(), 256), b.last + 1, wr)
  {
    hide BurstAt, WritePoint;
  }

  /** What a call of the write routine makes of the overruns ahead. */
  lemma AheadAfterCall(msgs: seq<Msg>, k: nat, pos: nat, cnt: nat, slot: nat, wr: nat, idx: nat)
    requires WritePoint(msgs, k, pos, cnt, slot, wr)
    requires idx == 2 * NextSlot(msgs, k, BurstAt(msgs, k, pos, cnt, slot, wr))
    ensures var b := BurstAt(msgs, k, pos, cnt, slot, wr);
      var ahead := AheadOverruns(msgs, k, pos, cnt, slot, wr);
      if idx >= 2 * wr || k + 1 >= |msgs| || msgs[k + 1].addr != msgs[k].addr then
        ahead == (OpenOverruns(msgs, k, pos, cnt, slot, wr)
                  || AheadOverruns(msgs, k, pos + b.n, msgs[k].Len() - pos - b.n, 0, wr))
      else
        var next := if msgs[k + 1].Len() > 256 then 256 else msgs[k + 1].Len();
        ahead == AheadOverruns(msgs, k + 1, 0, next, b.last + 1, wr)
  {
    hide BurstAt, PassOverruns, Overruns, NextSlot, NonEmpty;
    EndsWhen(msgs, k, pos, cnt, slot, wr, idx);
    PassOverrunsIs(msgs, k, pos, cnt, slot, wr);
    OverrunsIs(msgs, k, pos, cnt, slot, wr);
    var b := BurstAt(msgs, k, pos, cnt, slot, wr);
    if FillEnds(msgs, k, b, wr) {
      PassStopsSettled(msgs, k, pos, cnt, slot, wr);
    } else {
      NextPoint(msgs, k, pos, cnt, slot, wr);
    }
  }

  lemma ReadNeverAhead(msgs: seq<Msg>, k: nat, pos: nat, cnt: nat, slot: nat, wr: nat)
    ensures k < |msgs| && (msgs[k].Read? || cnt == 0) ==> !AheadOverruns(msgs, k, pos, cnt, slot, wr)
    ensures OpenOverruns(msgs, k, pos, cnt, slot, wr) ==> k < |msgs| && msgs[k].Write?
  {
    hide PassOverruns, Overruns;
  }

  /** A pass and what comes after it. */
  lemma LaterIs(g: Geometry, msgs: seq<Msg>, k: nat, pos: nat, wr: nat, cnt: nat)
    requires ValidGeometry(g) && PassPoint(msgs, k, pos) && k < |msgs|
    requires wr == if msgs[k].Read? then g.outFifo else FillSize(g, msgs, k)
    requires var left := msgs[k].Len() - pos; cnt == if msgs[k].Read? && left > 256 then 256 else left
    ensures FillPoint(msgs, k, pos, cnt, wr)
    ensures var p := FillPass(msgs, k, pos, cnt, wr);
      LaterOverruns(g, msgs, k, pos) <==> AheadOverruns(msgs, k, pos, cnt, 0, wr) || LaterOverruns(g, msgs, p.k, p.pos)
  {
    hide Pass, PassOverruns, ChainLen;
    var p := PassAt(g, msgs, k, pos);
  }

  lemma NothingLater(g: Geometry, msgs: seq<Msg>, k: nat, pos: nat)
    requires k >= |msgs|
    ensures !LaterOverruns(g, msgs, k, pos)
  {
  }

  lemma PrependedPoint(o: seq<bv16>, p: Progress)
    ensures Prepend(o, p).k == p.k && Prepend(o, p).pos == p.pos
  {
  }

  lemma PrependTwice(a: seq<bv16>, b: seq<bv16>, p: Progress)
    ensures Prepend(a + b, p) == Prepend(a, Prepend(b, p))
  {
    assert a + b + p.sent == a + (b + p.sent);
  }

  /** A call that ends the fill. */
  lemma PassStops(msgs: seq<Msg>, k: nat, pos: nat, cnt: nat, slot: nat, wr: nat)
    requires WritePoint(msgs, k, pos, cnt, slot, wr)
    requires FillEnds(msgs, k, BurstAt(msgs, k, pos, cnt, slot, wr), wr)
    ensures var b := BurstAt(msgs, k, pos, cnt, slot, wr);
      var left := msgs[k].Len() - pos - b.n;
      && Settled(msgs, k, pos + b.n, left, wr)
      && Pass(msgs, k, pos, cnt, slot, wr)
         == Prepend(BurstSent(msgs, k, pos, cnt, slot, wr), Rest(msgs, k, pos + b.n, left, wr))
  {
    hide BurstAt, BurstSent, FillEnds, ReadCommand;
    PassStopsSettled(msgs, k, pos, cnt, slot, wr);
    var out := BurstSent(msgs, k, pos, cnt, slot, wr);
    hide WritePoint, Settled;
    assert out + [] == out;
  }

  lemma PassStopsSettled(msgs: seq<Msg>, k: nat, pos: nat, cnt: nat, slot: nat, wr: nat)
    requires WritePoint(msgs, k, pos, cnt, slot, wr)
    ensures var b := BurstAt(msgs, k, pos, cnt, slot, wr);
      var left := msgs[k].Len() - pos - b.n;
      left >= 0 && Settled(msgs, k, pos + b.n, left, wr) && (left > 0 ==> WritePoint(msgs, k, pos + b.n, left, 0, wr))
  {
    hide BurstAt;
  }

  /** The half-word still held when the fill ends is dropped. */
  lemma SentAfter(flow: seq<bv16>, msgs: seq<Msg>, k: nat, pos: nat, cnt: nat, slot: nat, wr: nat,
                  sent: seq<bv16>, held: bv16)
    requires WritePoint(msgs, k, pos, cnt, slot, wr)
    requires var b := BurstAt(msgs, k, pos, cnt, slot, wr);
      && FillEnds(msgs, k, b, wr)
      && sent + (if b.live then [held] else []) == flow + BurstEntries(msgs, k, pos, cnt, slot, wr)
    ensures sent == flow + BurstSent(msgs, k, pos, cnt, slot, wr)
  {
    var b := BurstAt(msgs, k, pos, cnt, slot, wr);
    var all := BurstEntries(msgs, k, pos, cnt, slot, wr);
    assert |all| > 0;
    hide BurstAt, BurstEntries;
    if b.live {
      assert (flow + all)[..|flow + all| - 1] == flow + all[..|all| - 1];
      assert (sent + [held])[..|sent|] == sent;
    } else {
      assert sent + [] == sent;
    }
  }

  lemma FillStops(flow: seq<bv16>, msgs: seq<Msg>, k: nat, pos: nat, cnt: nat, slot: nat, wr: nat, goal: Progress,
                  sent: seq<bv16>, held: bv16)
    requires Open(flow, msgs, k, pos, cnt, slot, wr, goal)
    requires var b := BurstAt(msgs, k, pos, cnt, slot, wr);
      && FillEnds(msgs, k, b, wr)
      && sent + (if b.live then [held] else []) == flow + BurstEntries(msgs, k, pos, cnt, slot, wr)
    ensures var b := BurstAt(msgs, k, pos, cnt, slot, wr);
      Closed(sent, msgs, k, pos + b.n, msgs[k].Len() - pos - b.n, wr, goal)
  {
    hide BurstAt, BurstSent, BurstEntries, FillEnds, Rest, Pass, Settled;
    PassStopsSettled(msgs, k, pos, cnt, slot, wr);
    PassStops(msgs, k, pos, cnt, slot, wr);
    SentAfter(flow, msgs, k, pos, cnt, slot, wr, sent, held);
    var b := BurstAt(msgs, k, pos, cnt, slot, wr);
    PrependTwice(flow, BurstSent(msgs, k, pos, cnt, slot, wr), Rest(msgs, k, pos + b.n, msgs[k].Len() - pos - b.n, wr));
  }

  /** A following read is issued with both its entries in this fill. */
  lemma RoomForRead(msgs: seq<Msg>, k: nat, pos: nat, cnt: nat, slot: nat, wr: nat)
    requires WritePoint(msgs, k, pos, cnt, slot, wr)
    requires var b := BurstAt(msgs, k, pos, cnt, slot, wr); !FillEnds(msgs, k, b, wr)
    ensures var b := BurstAt(msgs, k, pos, cnt, slot, wr);
      && BurstSent(msgs, k, pos, cnt, slot, wr) == BurstEntries(msgs, k, pos, cnt, slot, wr)
      && b.last + 1 < wr && (msgs[k + 1].Read? ==> b.last + 3 <= wr)
      && !b.padded && !(b.stopped && !IsLast(msgs, k)) && (b.live <==> Odd(b.last + 1))
  {
    hide BurstEntries, NonEmpty;
  }

  lemma NextPoint(msgs: seq<Msg>, k: nat, pos: nat, cnt: nat, slot: nat, wr: nat)
    requires WritePoint(msgs, k, pos, cnt, slot, wr)
    requires !FillEnds(msgs, k, BurstAt(msgs, k, pos, cnt, slot, wr), wr)
    ensures k + 1 < |msgs| && msgs[k + 1].Len() >= 1
    ensures var next := Min(msgs[k + 1].Len(), 256);
      && 1 <= next
      && (msgs[k + 1].Read? ==> Settled(msgs, k + 1, 0, next, wr))
      && (msgs[k + 1].Write? ==> WritePoint(msgs, k + 1, 0, next, BurstAt(msgs, k, pos, cnt, slot, wr).last + 1, wr))
  {
    hide BurstAt;
  }

  /** A call after which the fill goes on with another write. */
  lemma PassGoesOn(msgs: seq<Msg>, k: nat, pos: nat, cnt: nat, slot: nat, wr: nat)
    requires WritePoint(msgs, k, pos, cnt, slot, wr)
    requires !FillEnds(msgs, k, BurstAt(msgs, k, pos, cnt, slot, wr), wr) && msgs[k + 1].Write?
    ensures var next := Min(msgs[k + 1].Len(), 256);
      var last := BurstAt(msgs, k, pos, cnt, slot, wr).last;
      && WritePoint(msgs, k + 1, 0, next, last + 1, wr)
      && Pass(msgs, k, pos, cnt, slot, wr)
         == Prepend(BurstEntries(msgs, k, pos, cnt, slot, wr), Pass(msgs, k + 1, 0, next, last + 1, wr))
  {
    NextPoint(msgs, k, pos, cnt, slot, wr);
    RoomForRead(msgs, k, pos, cnt, slot, wr);
    hide WritePoint, NonEmpty, FillEnds, BurstAt, BurstEntries, BurstSent, Prepend, Min, After, ReadCommand;
  }

  /** A call after which the fill ends with a read command. */
  lemma PassReads(msgs: seq<Msg>, k: nat, pos: nat, cnt: nat, slot: nat, wr: nat)
    requires WritePoint(msgs, k, pos, cnt, slot, wr)
    requires !FillEnds(msgs, k, BurstAt(msgs, k, pos, cnt, slot, wr), wr) && msgs[k + 1].Read?
    ensures var next := Min(msgs[k + 1].Len(), 256);
      && 1 <= next && Settled(msgs, k + 1, 0, next, wr)
      && Pass(msgs, k, pos, cnt, slot, wr)
         == Prepend(BurstEntries(msgs, k, pos, cnt, slot, wr) + ReadCommand(msgs[k + 1], msgs[k + 1].Len()),
                    Rest(msgs, k + 1, 0, next, wr))
  {
    NextPoint(msgs, k, pos, cnt, slot, wr);
    RoomForRead(msgs, k, pos, cnt, slot, wr);
    var cmd := ReadCommand(msgs[k + 1], msgs[k + 1].Len());
    AfterPrepended(msgs, k + 1, Min(msgs[k + 1].Len(), 256), BurstEntries(msgs, k, pos, cnt, slot, wr) + cmd);
    hide WritePoint, NonEmpty, FillEnds, BurstAt, BurstEntries, BurstSent, Prepend, Min, After, ReadCommand, Settled;
  }

  lemma AfterPrepended(msgs: seq<Msg>, k: nat, pos: nat, sent: seq<bv16>)
    requires k < |msgs|
    ensures After(msgs, k, pos, sent) == Prepend(sent, After(msgs, k, pos, []))
  {
    assert sent + [] == sent;
  }

  lemma FillGoesOn(flow: seq<bv16>, msgs: seq<Msg>, k: nat, pos: nat, cnt: nat, slot: nat, wr: nat, goal: Progress)
    requires Open(flow, msgs, k, pos, cnt, slot, wr, goal)
    requires !FillEnds(msgs, k, BurstAt(msgs, k, pos, cnt, slot, wr), wr) && msgs[k + 1].Write?
    ensures var b := BurstAt(msgs, k, pos, cnt, slot, wr);
      Open(flow + BurstEntries(msgs, k, pos, cnt, slot, wr), msgs, k + 1, 0, Min(msgs[k + 1].Len(), 256), b.last + 1, wr, goal)
  {
    hide BurstAt, BurstEntries, FillEnds, Rest, Pass, Settled, Prepend, ReadCommand;
    PassGoesOn(msgs, k, pos, cnt, slot, wr);
    PrependTwice(flow, BurstEntries(msgs, k, pos, cnt, slot, wr),
                 Pass(msgs, k + 1, 0, Min(msgs[k + 1].Len(), 256), BurstAt(msgs, k, pos, cnt, slot, wr).last + 1, wr));
  }

  lemma FillReads(flow: seq<bv16>, msgs: seq<Msg>, k: nat, pos: nat, cnt: nat, slot: nat, wr: nat, goal: Progress)
    requires Open(flow, msgs, k, pos, cnt, slot, wr, goal)
    requires !FillEnds(msgs, k, BurstAt(msgs, k, pos, cnt, slot, wr), wr) && msgs[k + 1].Read?
    ensures var b := BurstAt(msgs, k, pos, cnt, slot, wr);
      var next := Min(msgs[k + 1].Len(), 256);
      ReadDue(flow + BurstEntries(msgs, k, pos, cnt, slot, wr), msgs, k + 1, 0, next, b.last + 1, wr, goal)
  {
    RoomForRead(msgs, k, pos, cnt, slot, wr);
    PassReads(msgs, k, pos, cnt, slot, wr);
    var all, cmd := BurstEntries(msgs, k, pos, cnt, slot, wr), ReadCommand(msgs[k + 1], msgs[k + 1].Len());
    assert flow + (all + cmd) == flow + all + cmd;
    PrependTwice(flow, all + cmd, Rest(msgs, k + 1, 0, Min(msgs[k + 1].Len(), 256), wr));
    assert wr % 2 == 0;
    hide WritePoint, NonEmpty, BurstAt, BurstEntries, FillEnds, Rest, Pass, Settled, Prepend, ReadCommand, Min;
  }

  /** What a call of the write routine leaves behind, fill over or not. */
  lemma AfterCall(flow: seq<bv16>, msgs: seq<Msg>, k: nat, pos: nat, cnt: nat, slot: nat, wr: nat, goal: Progress,
                  words: seq<bv32>, held: bv16, idx: nat)
    requires Open(flow, msgs, k, pos, cnt, slot, wr, goal)
    requires var b := BurstAt(msgs, k, pos, cnt, slot, wr);
      && idx == 2 * NextSlot(msgs, k, b)
      && InFlight(words, b.live, held) == flow + BurstEntries(msgs, k, pos, cnt, slot, wr)
      && (b.live ==> Half(held) == [held])
    ensures var b := BurstAt(msgs, k, pos, cnt, slot, wr);
      var stored := Words(b.last) + if b.live then 0 else 1;
      if idx >= 2 * wr || k + 1 >= |msgs| || msgs[k + 1].addr != msgs[k].addr then
        && Closed(Entries(words), msgs, k, pos + b.n, msgs[k].Len() - pos - b.n, wr, goal)
        && (stored > wr / 2 <==> OpenOverruns(msgs, k, pos, cnt, slot, wr))
      else
        && idx == 2 * (b.last + 1) && stored == Words(b.last + 1)
        && var next := if msgs[k + 1].Len() > 256 then 256 else msgs[k + 1].Len();
           if msgs[k + 1].Read? then
             && !OpenOverruns(msgs, k, pos, cnt, slot, wr)
             && ReadDue(InFlight(words, Odd(b.last + 1), held), msgs, k + 1, 0, next, b.last + 1, wr, goal)
           else
             && Open(InFlight(words, Odd(b.last + 1), held), msgs, k + 1, 0, next, b.last + 1, wr, goal)
             && OpenOverruns(msgs, k, pos, cnt, slot, wr) == OpenOverruns(msgs, k + 1, 0, next, b.last + 1, wr)
  {
    assert k + 1 < |msgs| ==> msgs[k + 1].Len() >= 1;
    hide Entries, Half, BurstEntries, Pass, Rest, Settled, NonEmpty, Closed;
    var b := BurstAt(msgs, k, pos, cnt, slot, wr);
    EndsWhen(msgs, k, pos, cnt, slot, wr, idx);
    hide BurstAt;
    if FillEnds(msgs, k, b, wr) {
      FillStops(flow, msgs, k, pos, cnt, slot, wr, goal, Entries(words), held);
    } else {
      RoomForRead(msgs, k, pos, cnt, slot, wr);
      if msgs[k + 1].Read? {
        FillReads(flow, msgs, k, pos, cnt, slot, wr, goal);
      } else {
        FillGoesOn(flow, msgs, k, pos, cnt, slot, wr, goal);
      }
    }
  }

  /** The code's test for a full fill, and the words a finished fill has written. */
  lemma EndsWhen(msgs: seq<Msg>, k: nat, pos: nat, cnt: nat, slot: nat, wr: nat, idx: nat)
    requires WritePoint(msgs, k, pos, cnt, slot, wr)
    requires idx == 2 * NextSlot(msgs, k, BurstAt(msgs, k, pos, cnt, slot, wr))
    ensures var b := BurstAt(msgs, k, pos, cnt, slot, wr);
      var stored := Words(b.last) + if b.live then 0 else 1;
      && (FillEnds(msgs, k, b, wr) <==> idx >= 2 * wr || k + 1 >= |msgs| || msgs[k + 1].addr != msgs[k].addr)
      && (FillEnds(msgs, k, b, wr) ==> (stored > wr / 2 <==> IsLast(msgs, k) && slot + 1 == wr))
      && (!FillEnds(msgs, k, b, wr) ==> idx == 2 * (b.last + 1) && stored == Words(b.last + 1))
  {
    hide NonEmpty;
  }

  lemma PointIs(msgs: seq<Msg>, k: nat, pos: nat, cnt: nat, slot: nat, wr: nat)
    requires WritePoint(msgs, k, pos, cnt, slot, wr)
    ensures k < |msgs| && msgs[k].Write? && pos + BurstAt(msgs, k, pos, cnt, slot, wr).n <= |msgs[k].data|
  {
    hide BurstAt;
  }

  lemma FillBegins(words: seq<bv32>, held: bv16, msgs: seq<Msg>, k: nat, pos: nat, cnt: nat, wr: nat)
    requires FillPoint(msgs, k, pos, cnt, wr)
    ensures Words(0) == 0 && k < |msgs|
    ensures var goal := Prepend(Entries(words), FillPass(msgs, k, pos, cnt, wr));
      if msgs[k].Write? then
        Open(InFlight(words, Odd(0), held), msgs, k, pos, cnt, 0, wr, goal)
      else
        && ReadDue(InFlight(words, Odd(0), held), msgs, k, pos, cnt, 0, wr, goal)
        && !OpenOverruns(msgs, k, pos, cnt, 0, wr)
  {
    hide Entries, Pass, ReadCommand;
    assert Entries(words) + [] == Entries(words);
    if msgs[k].Read? {
      var cmd := ReadCommand(msgs[k], msgs[k].Len() - pos);
      AfterPrepended(msgs, k, pos + cnt, cmd);
      PrependTwice(Entries(words), cmd, Rest(msgs, k, pos, cnt, wr));
    }
  }

  lemma OpenPoint(flow: seq<bv16>, msgs: seq<Msg>, k: nat, pos: nat, cnt: nat, slot: nat, wr: nat, goal: Progress)
    requires Open(flow, msgs, k, pos, cnt, slot, wr, goal)
    ensures WritePoint(msgs, k, pos, cnt, slot, wr)
    ensures k < |msgs| && msgs[k].Write? && msgs[k].Len() == |msgs[k].data|
  {
  }

  lemma DueAsks(flow: seq<bv16>, msgs: seq<Msg>, k: nat, pos: nat, cnt: nat, slot: nat, wr: nat, goal: Progress)
    requires ReadDue(flow, msgs, k, pos, cnt, slot, wr, goal)
    ensures k < |msgs| && slot + 2 <= wr && wr % 2 == 0 && pos < msgs[k].Len() && cnt == Min(msgs[k].Len() - pos, 256) >= 1
    ensures Closed(flow + ReadCommand(msgs[k], msgs[k].Len() - pos), msgs, k, pos, cnt, wr, goal)
  {
  }

  lemma ClosedIs(flow: seq<bv16>, msgs: seq<Msg>, k: nat, pos: nat, cnt: nat, wr: nat, goal: Progress)
    requires Closed(flow, msgs, k, pos, cnt, wr, goal)
    ensures Settled(msgs, k, pos, cnt, wr)
    ensures k < |msgs| && (msgs[k].Write? && cnt > 0 ==> WritePoint(msgs, k, pos, cnt, 0, wr))
    ensures Prepend(flow, Rest(msgs, k, pos, cnt, wr)) == goal
  {
  }

  /** A word stored at an even slot, or completed from a half-word held back. */
  lemma WordStored(words: seq<bv32>, words': seq<bv32>, lo: bv16, hi: bv16, dead: bv16, dead': bv16)
    requires Entries(words') == Entries(words) + Half(lo) + Half(hi)
    ensures InFlight(words', false, dead') == InFlight(words, false, dead) + (Half(lo) + Half(hi))
    ensures InFlight(words', false, dead') == InFlight(words, true, lo) + (Half(hi) + [])
  {
    hide Entries, Half;
  }

  lemma HeldBack(words: seq<bv32>, lo: bv16, dead: bv16)
    ensures InFlight(words, true, lo) == InFlight(words, false, dead) + (Half(lo) + [])
  {
    hide Entries, Half;
  }

  /** The two ways a read command is stored. */
  lemma ReadEntries(words: seq<bv32>, held: bv16, msg: Msg, left: nat)
    requires 1 <= left
    ensures var n := Min(left, 256);
      && Entries(words) + Half(held) + Half(ReadHeader(msg.addr)) + Half(Receive(n)) + Half(0)
         == InFlight(words, true, held) + ReadCommand(msg, left)
      && Entries(words) + Half(ReadHeader(msg.addr)) + Half(Receive(n))
         == InFlight(words, false, held) + ReadCommand(msg, left)
  {
    var n := Min(left, 256);
    assert Half(ReadHeader(msg.addr)) == [ReadHeader(msg.addr)] && Half(Receive(n)) == [Receive(n)] && Half(0) == [];
    hide Entries, Half, ReadHeader, Receive;
  }

  /** A read from this slot on stays within the fill. */
  lemma RoomOf(slot: nat, wr: nat)
    requires slot + 2 <= wr && wr % 2 == 0
    ensures Words(slot) + (if Odd(slot) then 2 else 1) <= wr / 2
  {
  }

  lemma NopIsNoFiller()
    ensures Half(NOP) == [NOP] && Half(0) == []
  {
  }

  /** The conditions the code tests before the last entry of a call. */
  lemma LastCases(msgs: seq<Msg>, k: nat, pos: nat, cnt: nat, slot: nat, wr: nat, idx: nat)
    requires WritePoint(msgs, k, pos, cnt, slot, wr)
    requires idx == 2 * BurstAt(msgs, k, pos, cnt, slot, wr).last
    ensures var b := BurstAt(msgs, k, pos, cnt, slot, wr);
      var done := pos + b.n - 1 == |msgs[k].data| - 1;
      && (idx % 4 == 0 <==> !Odd(b.last))
      && (b.padded <==> idx % 4 == 0 && k + 1 < |msgs| && msgs[k + 1].addr == msgs[k].addr && msgs[k + 1].Read? && idx == wr * 2 - 4)
      && (b.stopped <==> done && (k + 1 >= |msgs| || (idx % 4 == 0 && idx < wr * 2 && msgs[k + 1].addr != msgs[k].addr)))
      && (b.live <==> idx % 4 == 0 && k + 1 < |msgs| && !b.padded && !b.stopped)
      && pos + b.n <= |msgs[k].data|
  {
    hide NonEmpty;
  }

  lemma ChainStep(msgs: seq<Msg>, k: nat)
    requires k < |msgs|
    ensures if SameSlaveNext(msgs, k) && msgs[k + 1].Write? then
        ChainLen(msgs, k) == msgs[k].Len() + 1 + ChainLen(msgs, k + 1) && ChainEnd(msgs, k) == ChainEnd(msgs, k + 1)
      else
        ChainLen(msgs, k) == msgs[k].Len() && ChainEnd(msgs, k) == k
  {
  }

  /** A fill is due and `flow` is what the FIFO has taken so far. */
  ghost predicate Filling(flow: seq<bv16>, msgs: seq<Msg>, k: nat, pos: nat, cnt: nat, wr: nat, goal: Progress) {
    FillPoint(msgs, k, pos, cnt, wr) && Prepend(flow, FillPass(msgs, k, pos, cnt, wr)) == goal
  }

  lemma FillingPoint(flow: seq<bv16>, msgs: seq<Msg>, k: nat, pos: nat, cnt: nat, wr: nat, goal: Progress)
    requires Filling(flow, msgs, k, pos, cnt, wr, goal)
    ensures FillPoint(msgs, k, pos, cnt, wr) && k < |msgs| && pos <= msgs[k].Len() && 1 <= cnt && 4 <= wr && wr % 2 == 0
    ensures msgs[k].Read? ==> pos < msgs[k].Len() && cnt == Min(msgs[k].Len() - pos, 256)
    ensures Prepend(flow, FillPass(msgs, k, pos, cnt, wr)) == goal
    ensures flow <= goal.sent
  {
  }

  /** After a fill: the message is sent, or the next fill is due, or a read is under way. */
  lemma FillDone(flow: seq<bv16>, msgs: seq<Msg>, k: nat, pos: nat, cnt: nat, wr: nat, goal: Progress)
    requires Settled(msgs, k, pos, cnt, wr) && 4 <= wr && wr % 2 == 0
    requires Prepend(flow, Rest(msgs, k, pos, cnt, wr)) == goal
    ensures k < |msgs| && flow <= goal.sent && pos <= msgs[k].Len()
    ensures msgs[k].Write? && cnt > 0 ==> Filling(flow, msgs, k, pos, cnt, wr, goal)
    ensures msgs[k].Write? && cnt == 0 ==> pos == msgs[k].Len() && After(msgs, k, pos, flow) == goal
    ensures msgs[k].Read? ==> msgs[k].Len() == msgs[k].buf.Length
    ensures msgs[k].Read? ==> pos < msgs[k].Len() && 1 <= cnt == Min(msgs[k].Len() - pos, 256) <= 256 && After(msgs, k, pos + cnt, flow) == goal
  {
    if msgs[k].Write? && cnt == 0 {
      assert flow + [] == flow;
    }
    if msgs[k].Read? {
      AfterPrepended(msgs, k, pos + cnt, flow);
    }
  }

  lemma PassBegins(flow: seq<bv16>, msgs: seq<Msg>, k: nat, pos: nat, cnt: nat, wr: nat)
    requires FillPoint(msgs, k, pos, cnt, wr)
    ensures k < |msgs| && Filling(flow, msgs, k, pos, cnt, wr, Prepend(flow, FillPass(msgs, k, pos, cnt, wr)))
  {
  }

  /** A pass is due and `flow` is what the FIFO has taken of `all`. */
  ghost predicate Sending(g: Geometry, msgs: seq<Msg>, k: nat, pos: nat, flow: seq<bv16>, all: seq<bv16>) {
    ValidGeometry(g) && PassPoint(msgs, k, pos) && flow + Transfer(g, msgs, k, pos) == all
  }

  lemma TransferBegins(g: Geometry, msgs: seq<Msg>, flow: seq<bv16>)
    requires ValidGeometry(g) && NonEmpty(msgs)
    ensures PassPoint(msgs, 0, 0) && Sending(g, msgs, 0, 0, flow, flow + Transfer(g, msgs, 0, 0))
    ensures LaterOverruns(g, msgs, 0, 0) == TransferOverruns(g, msgs, 0, 0)
  {
  }

  lemma TransferEnds(g: Geometry, msgs: seq<Msg>, k: nat, pos: nat, flow: seq<bv16>, all: seq<bv16>)
    requires Sending(g, msgs, k, pos, flow, all) && k >= |msgs|
    ensures flow == all && k == |msgs| && pos == 0
  {
  }

  lemma SendingPrefix(g: Geometry, msgs: seq<Msg>, k: nat, pos: nat, flow: seq<bv16>, all: seq<bv16>)
    requires Sending(g, msgs, k, pos, flow, all)
    ensures flow <= all && ValidGeometry(g) && PassPoint(msgs, k, pos)
    ensures k < |msgs| ==> pos <= msgs[k].Len() && (msgs[k].Write? ==> pos == 0)
  {
  }

  lemma PrefixTrans(a: seq<bv16>, b: seq<bv16>, c: seq<bv16>)
    requires a <= b <= c
    ensures a <= c
  {
  }

  lemma AfterIs(msgs: seq<Msg>, k: nat, pos: nat, flow: seq<bv16>, goal: Progress)
    requires k < |msgs| && After(msgs, k, pos, flow) == goal
    ensures goal == if pos == msgs[k].Len() then Progress(flow, k + 1, 0) else Progress(flow, k, pos)
  {
  }

  /** The pass that starts here, and what it makes of a transfer. */
  lemma PassStarts(g: Geometry, msgs: seq<Msg>, k: nat, pos: nat, flow: seq<bv16>, all: seq<bv16>, wr: nat, cnt: nat)
    requires Sending(g, msgs, k, pos, flow, all) && k < |msgs|
    requires wr == if msgs[k].Read? then g.outFifo else FillSize(g, msgs, k)
    requires var left := msgs[k].Len() - pos; cnt == if msgs[k].Read? && left > 256 then 256 else left
    ensures FillPoint(msgs, k, pos, cnt, wr)
    ensures var p := Prepend(flow, FillPass(msgs, k, pos, cnt, wr));
      PassPoint(msgs, p.k, p.pos) && Sending(g, msgs, p.k, p.pos, p.sent, all) && p.sent <= all
  {
    hide Pass, ChainLen;
    var p := PassAt(g, msgs, k, pos);
    assert flow + (p.sent + Transfer(g, msgs, p.k, p.pos)) == flow + p.sent + Transfer(g, msgs, p.k, p.pos);
  }
}
