/** When a message list is faithful, in terms a caller can check. */
module QupCases {
  import opened Bits
  import opened QupWords
  import opened QupSchedule
  import opened QupRefinement
  import opened QupTheorems
  import opened QupLayout
  import opened QupBus

  /** The last message of a transfer is sent faithfully wherever it starts. */
  lemma {:induction false} LastFaithful(msgs: seq<Msg>, k: nat, pos: nat, cnt: nat, slot: nat, wr: nat)
    requires WritePoint(msgs, k, pos, cnt, slot, wr) && IsLast(msgs, k)
    ensures FaithfulPass(msgs, k, pos, cnt, slot, wr)
    decreases msgs[k].Len() - pos
  {
    var b := BurstAt(msgs, k, pos, cnt, slot, wr);
    var left := |msgs[k].data| - pos - b.n;
    if left > 0 {
      LastFaithful(msgs, k, pos + b.n, left, 0, wr);
    }
  }

  /** A single write of any length, in any geometry, is sent as intended: for a slave with a
      7-bit address START, the address, its bytes in order, and STOP. */
  lemma SingleWrite(g: Geometry, addr: bv16, data: seq<bv8>)
    requires ValidGeometry(g) && 1 <= |data| < 0x10000
    ensures var msgs := [Write(addr, data)];
      DropNops(Transfer(g, msgs, 0, 0)) == [WriteHeader(addr)] + Bytes(data, true)
    ensures addr < 0x80 ==> Bus(Transfer(g, [Write(addr, data)], 0, 0)) == [Address(addr, false)] + Sends(data, true)
  {
    var msgs := [Write(addr, data)];
    SingleWriteSent(g, addr, data);
    hide *;
    BusDrops(Transfer(g, msgs, 0, 0));
    BusConcat([WriteHeader(addr)], Bytes(data, true));
    OpeningOnBus(addr);
    BytesOnBus(data, true);
  }

  lemma SingleWriteSent(g: Geometry, addr: bv16, data: seq<bv8>)
    requires ValidGeometry(g) && 1 <= |data| < 0x10000
    ensures var msgs := [Write(addr, data)];
      PassPoint(msgs, 0, 0) && DropNops(Transfer(g, msgs, 0, 0)) == [WriteHeader(addr)] + Bytes(data, true)
  {
    var msgs := [Write(addr, data)];
    var wr := FillSize(g, msgs, 0);
    LastFaithful(msgs, 0, 0, |data|, 0, wr);
    TransferIff(g, msgs, 0, 0);
    assert data[0..] == data;
    hide Transfer, DropNops, FaithfulPass, Bytes;
  }

  // FIFO mode.

  predicate OneSlave(msgs: seq<Msg>) {
    forall i, j :: 0 <= i < |msgs| && 0 <= j < |msgs| ==> msgs[i].addr == msgs[j].addr
  }

  /** Every chain of writes is short enough for the FIFO to be filled as a whole. */
  predicate ShortChains(g: Geometry, msgs: seq<Msg>) {
    forall k :: 0 <= k < |msgs| && msgs[k].Write? ==> ChainLen(msgs, k) < g.outFifo - 1
  }

  /** No write is longer than 256 bytes if another write is before it and a message after it. */
  predicate ShortInside(msgs: seq<Msg>, from: nat) {
    forall i :: from < i < |msgs| - 1 && msgs[i - 1].Write? && msgs[i].Write? ==> msgs[i].Len() <= 256
  }

  /** The same along one chain that is merged from its first message on if `slot` is not 0. */
  predicate ShortChainInside(msgs: seq<Msg>, k: nat, slot: nat)
    requires k < |msgs|
  {
    forall i :: k <= i <= ChainEnd(msgs, k) && i < |msgs| - 1 && (i > k || slot > 0) ==> msgs[i].Len() <= 256
  }

  /** A chain that fits into the fill with a slot to spare is aligned exactly if no message
      inside it is longer than 256 bytes. */
  lemma {:induction false} ChainAlignedIff(msgs: seq<Msg>, k: nat, slot: nat, wr: nat)
    requires NonEmpty(msgs) && OneSlave(msgs)
    requires k < |msgs| && msgs[k].Write? && 4 <= wr && slot + 1 + ChainLen(msgs, k) < wr
    ensures Aligned(msgs, k, slot, wr) <==> ShortChainInside(msgs, k, slot)
    decreases |msgs| - k
  {
    hide ChainLen, ChainEnd;
    ChainStep(msgs, k);
    if SameSlaveNext(msgs, k) && msgs[k + 1].Write? {
      ChainAlignedIff(msgs, k + 1, slot + 1 + msgs[k].Len(), wr);
    }
  }

  /** A pass over such a chain ends with the chain or with the read behind it. */
  lemma {:induction false} ChainPassEnds(msgs: seq<Msg>, k: nat, pos: nat, cnt: nat, slot: nat, wr: nat)
    requires WritePoint(msgs, k, pos, cnt, slot, wr) && slot + 1 + ChainLen(msgs, k) < wr + pos
    requires cnt == if slot == 0 then msgs[k].Len() - pos else Min(msgs[k].Len() - pos, 256)
    ensures var p := Pass(msgs, k, pos, cnt, slot, wr);
      ChainEnd(msgs, k) < p.k <= ChainEnd(msgs, k) + 2
    ensures !PassOverruns(msgs, k, pos, cnt, slot, wr)
    decreases |msgs| - k, msgs[k].Len() - pos
  {
    hide *;
    WriteAt(msgs, k, pos, cnt, slot, wr);
    PointBounds(msgs, k, pos, cnt, slot, wr);
    var b := BurstAt(msgs, k, pos, cnt, slot, wr);
    var left := msgs[k].Len() - pos;
    PassOverrunsIs(msgs, k, pos, cnt, slot, wr);
    ChainStep(msgs, k);
    ChainBurst(msgs, k, pos, cnt, slot, wr);
    if FillEnds(msgs, k, b, wr) {
      PassStops(msgs, k, pos, cnt, slot, wr);
      PassStopsSettled(msgs, k, pos, cnt, slot, wr);
      RestIs(msgs, k, pos + b.n, left - b.n, wr);
      PrependedPoint(BurstSent(msgs, k, pos, cnt, slot, wr), Rest(msgs, k, pos + b.n, left - b.n, wr));
      if b.n < left {
        ChainPassEnds(msgs, k, pos + b.n, left - b.n, 0, wr);
      }
    } else {
      NextPoint(msgs, k, pos, cnt, slot, wr);
      if msgs[k + 1].Read? {
        ReadPassEnds(msgs, k, pos, cnt, slot, wr);
      } else {
        PassGoesOn(msgs, k, pos, cnt, slot, wr);
        var next := Min(msgs[k + 1].Len(), 256);
        PrependedPoint(BurstEntries(msgs, k, pos, cnt, slot, wr), Pass(msgs, k + 1, 0, next, b.last + 1, wr));
        ChainPassEnds(msgs, k + 1, 0, next, b.last + 1, wr);
      }
    }
  }

  /** One call in such a chain. */
  lemma ChainBurst(msgs: seq<Msg>, k: nat, pos: nat, cnt: nat, slot: nat, wr: nat)
    requires WritePoint(msgs, k, pos, cnt, slot, wr) && slot + 1 + ChainLen(msgs, k) < wr + pos
    ensures var b := BurstAt(msgs, k, pos, cnt, slot, wr);
      var left := msgs[k].Len() - pos;
      && slot + 1 + left < wr && b.n <= left && b.last == slot + b.n
      && (FillEnds(msgs, k, b, wr) ==> !SameSlaveNext(msgs, k) || msgs[k + 1].Read?)
      && (!FillEnds(msgs, k, b, wr) ==> SameSlaveNext(msgs, k))
  {
    hide ChainEnd, NonEmpty;
    ChainStep(msgs, k);
    hide ChainLen;
  }

  lemma ReadPassEnds(msgs: seq<Msg>, k: nat, pos: nat, cnt: nat, slot: nat, wr: nat)
    requires WritePoint(msgs, k, pos, cnt, slot, wr)
    requires !FillEnds(msgs, k, BurstAt(msgs, k, pos, cnt, slot, wr), wr) && msgs[k + 1].Read?
    ensures k + 1 <= Pass(msgs, k, pos, cnt, slot, wr).k <= k + 2
  {
    hide BurstSent, ReadCommand, BurstAt;
  }

  /** The passes of a transfer of short chains. */
  lemma {:induction false} ShortChainsIff(g: Geometry, msgs: seq<Msg>, k: nat, pos: nat)
    requires ValidGeometry(g) && PassPoint(msgs, k, pos) && OneSlave(msgs) && ShortChains(g, msgs)
    ensures AlignedTransfer(g, msgs, k, pos) <==> ShortInside(msgs, k)
    decreases |msgs| - k, if k < |msgs| then msgs[k].Len() - pos else 0
  {
    if k < |msgs| {
      var p := NextPass(g, msgs, k, pos);
      NextPassIs(g, msgs, k, pos);
      ShortChainsIff(g, msgs, p.k, p.pos);
      if msgs[k].Write? {
        var wr := FillSize(g, msgs, k);
        WritePassIs(g, msgs, k);
        ChainPassEnds(msgs, k, 0, msgs[k].Len(), 0, wr);
        ChainAlignedIff(msgs, k, 0, wr);
        ChainWrites(msgs, k);
        InsideSplit(msgs, k, p.k);
      }
      hide AlignedTransfer, Aligned, ChainLen, ChainEnd, Pass, PassOverruns;
    }
  }

  lemma {:induction false} ChainWrites(msgs: seq<Msg>, k: nat)
    requires k < |msgs| && msgs[k].Write? && OneSlave(msgs)
    ensures forall i :: k <= i <= ChainEnd(msgs, k) ==> msgs[i].Write?
    ensures ChainEnd(msgs, k) + 1 < |msgs| ==> msgs[ChainEnd(msgs, k) + 1].Read?
    decreases |msgs| - k
  {
    if SameSlaveNext(msgs, k) && msgs[k + 1].Write? {
      ChainWrites(msgs, k + 1);
    }
  }

  lemma InsideSplit(msgs: seq<Msg>, k: nat, next: nat)
    requires k < |msgs| && ChainEnd(msgs, k) < next <= ChainEnd(msgs, k) + 2
    requires forall i :: k <= i <= ChainEnd(msgs, k) ==> msgs[i].Write?
    requires ChainEnd(msgs, k) + 1 < |msgs| ==> msgs[ChainEnd(msgs, k) + 1].Read?
    ensures ShortInside(msgs, k) <==> ShortChainInside(msgs, k, 0) && ShortInside(msgs, next)
  {
    hide ChainEnd;
    var e := ChainEnd(msgs, k);
    if ShortChainInside(msgs, k, 0) && ShortInside(msgs, next) {
      forall i | k < i < |msgs| - 1 && msgs[i - 1].Write? && msgs[i].Write?
        ensures msgs[i].Len() <= 256
      {
        assert i <= e || i > next;
      }
    }
    if ShortInside(msgs, k) {
      forall i | k < i <= e && i < |msgs| - 1
        ensures msgs[i].Len() <= 256
      {
        assert msgs[i - 1].Write? && msgs[i].Write?;
      }
    }
  }

  /** No fill of such a transfer writes more words than it has room for. */
  lemma {:induction false} FifoNeverOverruns(g: Geometry, msgs: seq<Msg>, k: nat, pos: nat)
    requires ValidGeometry(g) && PassPoint(msgs, k, pos) && ShortChains(g, msgs)
    ensures !TransferOverruns(g, msgs, k, pos)
    decreases |msgs| - k, if k < |msgs| then msgs[k].Len() - pos else 0
  {
    if k < |msgs| {
      var p := PassAt(g, msgs, k, pos);
      FifoNeverOverruns(g, msgs, p.k, p.pos);
      if msgs[k].Write? {
        WritePassIs(g, msgs, k);
        ChainPassEnds(msgs, k, 0, msgs[k].Len(), 0, FillSize(g, msgs, k));
      }
      hide PassAt, PassOverruns, ChainLen;
    }
  }

  /** FIFO mode: short chains of writes for one slave, each optionally ended by a read, are
      sent as intended exactly if no write inside a chain is longer than 256 bytes. Either
      way, no fill writes more words than it has room for. */
  lemma FifoTransfer(g: Geometry, msgs: seq<Msg>)
    requires ValidGeometry(g) && NonEmpty(msgs) && OneSlave(msgs) && ShortChains(g, msgs)
    ensures DropNops(Transfer(g, msgs, 0, 0)) == Intended(msgs, 0, 0) <==> ShortInside(msgs, 0)
    ensures !TransferOverruns(g, msgs, 0, 0)
  {
    ShortChainsIff(g, msgs, 0, 0);
    AlignedTransferIff(g, msgs, 0, 0);
    FifoNeverOverruns(g, msgs, 0, 0);
  }

  /** A write that starts or goes on with a fill and is followed by a message for another slave. */
  predicate CutPoint(msgs: seq<Msg>, k: nat, pos: nat, wr: nat) {
    && k + 1 < |msgs| && msgs[k + 1].addr != msgs[k].addr && pos < msgs[k].Len()
    && WritePoint(msgs, k, pos, msgs[k].Len() - pos, 0, wr)
  }

  /** Such a write is stopped exactly if its last byte falls into an even slot. */
  lemma {:induction false} CutIff(msgs: seq<Msg>, k: nat, pos: nat, wr: nat)
    requires CutPoint(msgs, k, pos, wr)
    ensures var left := msgs[k].Len() - pos;
      FaithfulPass(msgs, k, pos, left, 0, wr) <==> (left - 1) % (wr - 1) % 2 == 1
    decreases msgs[k].Len() - pos
  {
    hide *;
    CutPointIs(msgs, k, pos, wr);
    var left := msgs[k].Len() - pos;
    CutBurst(msgs, k, pos, wr);
    FaithfulPassIs(msgs, k, pos, left, 0, wr);
    var n := BurstAt(msgs, k, pos, left, 0, wr).n;
    if n < left {
      CutIff(msgs, k, pos + n, wr);
      ModStep(left - 1, wr - 1);
    }
  }

  lemma CutPointIs(msgs: seq<Msg>, k: nat, pos: nat, wr: nat)
    requires CutPoint(msgs, k, pos, wr)
    ensures k + 1 < |msgs| && pos < msgs[k].Len() && msgs[k].Write? && wr >= 4 && msgs[k].Len() == |msgs[k].data|
    ensures WritePoint(msgs, k, pos, msgs[k].Len() - pos, 0, wr)
  {
  }

  lemma CutBurst(msgs: seq<Msg>, k: nat, pos: nat, wr: nat)
    requires CutPoint(msgs, k, pos, wr)
    ensures var left := msgs[k].Len() - pos;
      var b := BurstAt(msgs, k, pos, left, 0, wr);
      && k < |msgs| && wr >= 4 && b.n <= left <= |msgs[k].data| && FillEnds(msgs, k, b, wr)
      && (b.n < left ==>
          b.n == wr - 1 && CutPoint(msgs, k, pos + b.n, wr) && FaithfulBurst(msgs, k, pos, left, 0, wr))
      && (b.n == left ==>
          (left - 1) % (wr - 1) == left - 1 && (FaithfulBurst(msgs, k, pos, left, 0, wr) <==> left % 2 == 0))
  {
    var left := msgs[k].Len() - pos;
    if left <= wr - 1 {
      DivModUnique(left - 1, wr - 1, 0, left - 1);
    }
    hide NonEmpty;
  }

  /** Such a pass covers that one write. */
  lemma {:induction false} CutResumes(msgs: seq<Msg>, k: nat, pos: nat, wr: nat)
    requires CutPoint(msgs, k, pos, wr)
    ensures var p := Pass(msgs, k, pos, msgs[k].Len() - pos, 0, wr); p.k == k + 1 && p.pos == 0
    decreases msgs[k].Len() - pos
  {
    hide *;
    CutPointIs(msgs, k, pos, wr);
    var left := msgs[k].Len() - pos;
    CutBurst(msgs, k, pos, wr);
    PassStops(msgs, k, pos, left, 0, wr);
    PassStopsSettled(msgs, k, pos, left, 0, wr);
    var b := BurstAt(msgs, k, pos, left, 0, wr);
    RestIs(msgs, k, pos + b.n, left - b.n, wr);
    PrependedPoint(BurstSent(msgs, k, pos, left, 0, wr), Rest(msgs, k, pos + b.n, left - b.n, wr));
    if b.n < left {
      CutResumes(msgs, k, pos + b.n, wr);
    }
  }

  /** Two writes for two slaves are sent as intended exactly when the first one is stopped. */
  lemma TwoSlaves(g: Geometry, a: bv16, d: seq<bv8>, a': bv16, d': seq<bv8>)
    requires ValidGeometry(g) && a != a' && 1 <= |d| < 0x10000 && 1 <= |d'| < 0x10000
    ensures var msgs := [Write(a, d), Write(a', d')];
      var wr := if |d| >= g.outFifo - 1 then g.outBlk else g.outFifo;
      && Intended(msgs, 0, 0) == [WriteHeader(a)] + Bytes(d, true) + ([WriteHeader(a')] + Bytes(d', true))
      && (DropNops(Transfer(g, msgs, 0, 0)) == Intended(msgs, 0, 0) <==> (|d| - 1) % (wr - 1) % 2 == 1)
  {
    hide *;
    var msgs := [Write(a, d), Write(a', d')];
    TwoPoints(g, a, d, a', d');
    TwoIntended(a, d, a', d');
    TransferIff(g, msgs, 0, 0);
    var wr, wr' := FillSize(g, msgs, 0), FillSize(g, msgs, 1);
    WritePassIs(g, msgs, 0);
    WritePassIs(g, msgs, 1);
    CutIff(msgs, 0, 0, wr);
    CutResumes(msgs, 0, 0, wr);
    LastFaithful(msgs, 1, 0, |d'|, 0, wr');
    TwoFaithful(g, msgs);
  }

  lemma TwoPoints(g: Geometry, a: bv16, d: seq<bv8>, a': bv16, d': seq<bv8>)
    requires ValidGeometry(g) && a != a' && 1 <= |d| < 0x10000 && 1 <= |d'| < 0x10000
    ensures var msgs := [Write(a, d), Write(a', d')];
      var wr := if |d| >= g.outFifo - 1 then g.outBlk else g.outFifo;
      && PassPoint(msgs, 0, 0) && PassPoint(msgs, 1, 0) && NonEmpty(msgs)
      && wr == FillSize(g, msgs, 0) && CutPoint(msgs, 0, 0, wr) && IsLast(msgs, 1)
      && msgs[0].Len() == |d| && msgs[1].Len() == |d'|
  {
  }

  lemma TwoIntended(a: bv16, d: seq<bv8>, a': bv16, d': seq<bv8>)
    requires a != a' && 1 <= |d| < 0x10000 && 1 <= |d'| < 0x10000
    ensures var msgs := [Write(a, d), Write(a', d')];
      Intended(msgs, 0, 0) == [WriteHeader(a)] + Bytes(d, true) + ([WriteHeader(a')] + Bytes(d', true))
  {
    var msgs := [Write(a, d), Write(a', d')];
    assert d[0..] == d && d'[0..] == d';
    hide Bytes, WriteHeader;
    IntendedWrite(msgs, 0, 0);
    IntendedWrite(msgs, 1, 0);
    assert Intended(msgs, 2, 0) == [];
  }

  lemma TwoFaithful(g: Geometry, msgs: seq<Msg>)
    requires ValidGeometry(g) && NonEmpty(msgs) && |msgs| == 2
    requires var p := PassAt(g, msgs, 0, 0); p.k == 1 && p.pos == 0
    ensures Faithful(g, msgs, 0, 0) <==> FaithfulAt(g, msgs, 0, 0) && (FaithfulAt(g, msgs, 1, 0) && Faithful(g, msgs, PassAt(g, msgs, 1, 0).k, PassAt(g, msgs, 1, 0).pos))
    ensures msgs[1].Write? ==> PassAt(g, msgs, 1, 0).k == 2 && Faithful(g, msgs, 2, 0)
  {
    hide FaithfulAt;
  }

  /** A one-byte write followed by a write for another slave is never stopped. */
  lemma OneByteNotStopped(g: Geometry, a: bv16, x: bv8, a': bv16, d': seq<bv8>)
    requires ValidGeometry(g) && a != a' && 1 <= |d'| < 0x10000
    ensures var msgs := [Write(a, [x]), Write(a', d')];
      DropNops(Transfer(g, msgs, 0, 0)) != Intended(msgs, 0, 0)
  {
    TwoSlaves(g, a, [x], a', d');
    DivModUnique(0, g.outFifo - 2, 0, 0);
    DivModUnique(0, g.outBlk - 1, 0, 0);
    hide Transfer, DropNops, Intended, Bytes;
  }

  /** A merged write is cut at 256 bytes. Nothing is lost exactly if the fill has no room left,
      or just the room for the NOP before a read; before a message for another slave, if the
      byte at the cut is in an odd slot. */
  lemma CutAt256(msgs: seq<Msg>, k: nat, slot: nat, wr: nat)
    requires WritePoint(msgs, k, 0, 256, slot, wr) && msgs[k].Len() > 256 && !IsLast(msgs, k) && slot + 1 != wr
    ensures FaithfulBurst(msgs, k, 0, 256, slot, wr) <==>
      || slot + 257 >= wr
      || if SameSlaveNext(msgs, k) then slot + 258 == wr && msgs[k + 1].Read? else slot % 2 == 1
  {
  }

  /** It happens: of the second of three writes for one slave, all but 256 bytes are lost. */
  lemma MergedWriteLost(a: bv16, x: bv8, d: seq<bv8>, y: bv8)
    requires |d| == 300
    ensures SizesOf(0x14) == Geometry(8, 512)
    ensures var msgs := [Write(a, [x]), Write(a, d), Write(a, [y])];
      DropNops(Transfer(SizesOf(0x14), msgs, 0, 0)) != Intended(msgs, 0, 0)
  {
    var msgs := [Write(a, [x]), Write(a, d), Write(a, [y])];
    assert SizesOf(0x14) == Geometry(8, 512);
    assert ChainLen(msgs, 2) == 1;
    assert ChainLen(msgs, 1) == 302;
    assert ChainLen(msgs, 0) == 304;
    hide ChainLen;
    FifoTransfer(SizesOf(0x14), msgs);
    assert msgs[1].Len() == 300;
    hide Transfer, Intended, DropNops;
  }

  // Block mode: a message that comes to the last slot of a fill.

  /** The bytes of a first message end one slot before the end of a fill. */
  predicate LeavesOneSlot(len: nat, wr: nat)
    requires 4 <= wr
  {
    1 <= len && (len - 1) % (wr - 1) == wr - 3
  }

  lemma FirstEnds(g: Geometry, msgs: seq<Msg>)
    requires ValidGeometry(g) && NonEmpty(msgs) && |msgs| >= 2 && msgs[0].Write? && ChainLen(msgs, 0) >= g.outFifo - 1
    ensures FillSize(g, msgs, 0) == g.outBlk >= 4 && !IsLast(msgs, 0) && !SkipsRest(msgs, 0, 0, g.outBlk)
    ensures EndSlot(msgs, 0, 0, g.outBlk) + 1 == g.outBlk <==> LeavesOneSlot(msgs[0].Len(), g.outBlk)
    ensures !LosesRest(msgs, 0, 0, g.outBlk)
  {
    var wr := g.outBlk;
    var n := Min(msgs[0].Len(), wr - 1);
    EndSlotStep(msgs, 0, msgs[0].Len(), n, 0, wr);
    RefillStep(msgs[0].Len(), n, wr);
    hide ChainLen, EndSlot, NonEmpty;
  }

  /** Two writes for one slave: a fill is overfull exactly if they do not fit the FIFO and the
      bytes of the first leave one slot of a block. */
  lemma TwoWritesOverrunIff(g: Geometry, a: bv16, d: seq<bv8>, e: seq<bv8>)
    requires ValidGeometry(g) && 1 <= |d| < 0x10000 && 1 <= |e| < 0x10000
    ensures TransferOverruns(g, [Write(a, d), Write(a, e)], 0, 0)
        <==> |d| + 1 + |e| >= g.outFifo - 1 && LeavesOneSlot(|d|, g.outBlk)
  {
    var msgs := [Write(a, d), Write(a, e)];
    PairIs(g, a, d, e);
    hide *;
    if |d| + 1 + |e| < g.outFifo - 1 {
      FifoNeverOverruns(g, msgs, 0, 0);
    } else {
      FirstEnds(g, msgs);
      TransferOverrunsIff(g, msgs, 0, 0);
      PairOverfills(g, msgs);
    }
  }

  lemma PairIs(g: Geometry, a: bv16, d: seq<bv8>, e: seq<bv8>)
    requires ValidGeometry(g) && 1 <= |d| < 0x10000 && 1 <= |e| < 0x10000
    ensures var msgs := [Write(a, d), Write(a, e)];
      && PassPoint(msgs, 0, 0) && NonEmpty(msgs) && msgs[0].Len() == |d| && g.outBlk >= 4
      && ChainLen(msgs, 0) == |d| + 1 + |e| && SameSlaveNext(msgs, 0)
      && (|d| + 1 + |e| < g.outFifo - 1 ==> ShortChains(g, msgs))
  {
    var msgs := [Write(a, d), Write(a, e)];
    assert ChainLen(msgs, 1) == |e|;
  }

  lemma PairOverfills(g: Geometry, msgs: seq<Msg>)
    requires ValidGeometry(g) && NonEmpty(msgs) && |msgs| == 2 && msgs[0].Write? && msgs[1].Write? && SameSlaveNext(msgs, 0)
    requires FillSize(g, msgs, 0) == g.outBlk >= 4 && !SkipsRest(msgs, 0, 0, g.outBlk) && PassPoint(msgs, 0, 0)
    ensures OverfillsTransfer(g, msgs, 0, 0) <==> EndSlot(msgs, 0, 0, g.outBlk) + 1 == g.outBlk
  {
    var wr := g.outBlk;
    PassEndIs(msgs, 0, 0, wr);
    var e := EndSlot(msgs, 0, 0, wr);
    PassEndAfterIs(msgs, 0, e, wr);
    LastAlone(g, msgs);
    hide *;
    if e < wr {
      LastEnds(msgs, 1, e, wr);
    }
    WriteTransferIs(g, msgs, 0);
    NotLast(msgs, 0);
  }

  lemma NotLast(msgs: seq<Msg>, k: nat)
    ensures IsLast(msgs, k) <==> k + 1 >= |msgs|
  {
  }

  lemma WriteTransferIs(g: Geometry, msgs: seq<Msg>, k: nat)
    requires ValidGeometry(g) && PassPoint(msgs, k, 0) && k < |msgs| && msgs[k].Write?
    ensures NonEmpty(msgs) && FillSize(g, msgs, k) >= 4
    ensures var wr := FillSize(g, msgs, k);
      var p := PassEnd(msgs, k, 0, wr);
      && PassPoint(msgs, p.k, p.pos)
      && (OverfillsTransfer(g, msgs, k, 0) <==> Overfills(msgs, k, 0, wr) || OverfillsTransfer(g, msgs, p.k, p.pos))
      && (AlignedTransfer(g, msgs, k, 0) <==> Aligned(msgs, k, 0, wr) && AlignedTransfer(g, msgs, p.k, p.pos))
  {
    hide ChainLen, PassEnd, Overfills, Aligned;
    assert NextPass(g, msgs, k, 0) == PassEnd(msgs, k, 0, FillSize(g, msgs, k));
  }

  lemma LastEnds(msgs: seq<Msg>, k: nat, slot: nat, wr: nat)
    requires NonEmpty(msgs) && k + 1 == |msgs| && slot < wr && 4 <= wr
    ensures PassEnd(msgs, k, slot, wr) == Place(k + 1, 0)
    ensures Overfills(msgs, k, slot, wr) <==> slot + 1 == wr
  {
    hide EndSlot;
  }

  lemma LastAlone(g: Geometry, msgs: seq<Msg>)
    requires ValidGeometry(g) && NonEmpty(msgs) && |msgs| == 2 && msgs[1].Write?
    ensures PassPoint(msgs, 1, 0) && PassPoint(msgs, 2, 0)
    ensures !OverfillsTransfer(g, msgs, 1, 0) && !OverfillsTransfer(g, msgs, 2, 0)
  {
    hide EndSlot, FillSize, PassEnd, Overfills;
    WriteTransferIs(g, msgs, 1);
    LastEnds(msgs, 1, 0, FillSize(g, msgs, 1));
  }

  /** Writes for one slave that do not fit the FIFO: a message that comes to the one slot
      left of a block, and is not the last, is not sent as intended. */
  lemma HalfWordLost(g: Geometry, a: bv16, d: seq<bv8>, m: seq<bv8>, e: seq<bv8>)
    requires ValidGeometry(g) && 1 <= |d| < 0x10000 && 1 <= |m| < 0x10000 && 1 <= |e| < 0x10000
    requires |d| + 1 + |m| + 1 + |e| >= g.outFifo - 1 && LeavesOneSlot(|d|, g.outBlk)
    ensures var msgs := [Write(a, d), Write(a, m), Write(a, e)];
      DropNops(Transfer(g, msgs, 0, 0)) != Intended(msgs, 0, 0)
  {
    var msgs := [Write(a, d), Write(a, m), Write(a, e)];
    TripleIs(g, a, d, m, e);
    hide *;
    FirstEnds(g, msgs);
    AlignedTransferIff(g, msgs, 0, 0);
    TripleAligned(g, msgs);
  }

  lemma TripleIs(g: Geometry, a: bv16, d: seq<bv8>, m: seq<bv8>, e: seq<bv8>)
    requires ValidGeometry(g) && 1 <= |d| < 0x10000 && 1 <= |m| < 0x10000 && 1 <= |e| < 0x10000
    ensures var msgs := [Write(a, d), Write(a, m), Write(a, e)];
      && PassPoint(msgs, 0, 0) && NonEmpty(msgs) && msgs[0].Len() == |d| && g.outBlk >= 4
      && ChainLen(msgs, 0) == |d| + 1 + |m| + 1 + |e| && SameSlaveNext(msgs, 0)
  {
    var msgs := [Write(a, d), Write(a, m), Write(a, e)];
    assert ChainLen(msgs, 2) == |e|;
    assert ChainLen(msgs, 1) == |m| + 1 + |e|;
  }

  lemma TripleAligned(g: Geometry, msgs: seq<Msg>)
    requires ValidGeometry(g) && NonEmpty(msgs) && |msgs| == 3 && msgs[0].Write? && msgs[1].Write? && SameSlaveNext(msgs, 0)
    requires FillSize(g, msgs, 0) == g.outBlk >= 4 && EndSlot(msgs, 0, 0, g.outBlk) + 1 == g.outBlk && PassPoint(msgs, 0, 0)
    ensures !AlignedTransfer(g, msgs, 0, 0)
  {
    hide *;
    var wr := g.outBlk;
    WriteTransferIs(g, msgs, 0);
    AlignedIs(msgs, 0, 0, wr);
    AlignedAfterIs(msgs, 0, wr - 1, wr);
    AlignedIs(msgs, 1, wr - 1, wr);
    NotLast(msgs, 0);
    NotLast(msgs, 1);
  }

  /** Both happen with blocks of 8 and a FIFO of 16 entries: writes of 6 and 20 bytes overfill
      a block, and writes of 6, 1 and 20 bytes are not sent as intended. */
  lemma LastSlotOccurs(a: bv16, d: seq<bv8>, m: bv8, e: seq<bv8>)
    requires |d| == 6 && |e| == 20
    ensures SizesOf(0) == Geometry(8, 16)
    ensures TransferOverruns(SizesOf(0), [Write(a, d), Write(a, e)], 0, 0)
    ensures var msgs := [Write(a, d), Write(a, [m]), Write(a, e)];
      DropNops(Transfer(SizesOf(0), msgs, 0, 0)) != Intended(msgs, 0, 0)
  {
    assert SizesOf(0) == Geometry(8, 16);
    TwoWritesOverrunIff(SizesOf(0), a, d, e);
    HalfWordLost(SizesOf(0), a, d, [m], e);
    hide Transfer, Intended, DropNops, TransferOverruns;
  }

  /** Fills that `left` bytes take when they start a fill of `wr` slots. */
  function Fills(left: nat, wr: nat): nat
    requires 4 <= wr
  {
    (left + wr - 2) / (wr - 1)
  }

  lemma FillsStep(left: nat, wr: nat)
    requires 4 <= wr && 1 <= left
    ensures left > wr - 1 ==> Fills(left, wr) == Fills(left - (wr - 1), wr) + 1
    ensures left <= wr - 1 ==> Fills(left, wr) == 1
    ensures Fills(0, wr) == 0
  {
    var m := wr - 1;
    DivModUnique(m - 1, m, 0, m - 1);
    if left > m {
      var x := left + m - 1;
      assert x - m == m * (x / m - 1) + x % m;
      DivModUnique(x - m, m, x / m - 1, x % m);
    } else {
      DivModUnique(left + m - 1, m, 1, left - 1);
    }
  }

  predicate LastPoint(msgs: seq<Msg>, k: nat, pos: nat, wr: nat) {
    IsLast(msgs, k) && k < |msgs| && pos < msgs[k].Len() && WritePoint(msgs, k, pos, msgs[k].Len() - pos, 0, wr)
  }

  /** A last message that starts a fill takes a slot for each byte and one for each fill. */
  lemma {:induction false} LastEntries(msgs: seq<Msg>, k: nat, pos: nat, wr: nat)
    requires LastPoint(msgs, k, pos, wr)
    ensures var left := msgs[k].Len() - pos;
      && |Pass(msgs, k, pos, left, 0, wr).sent| == left + Fills(left, wr)
      && Pass(msgs, k, pos, left, 0, wr).k == k + 1
    decreases msgs[k].Len() - pos
  {
    hide BurstAt, BurstSent, Pass, Rest, Fills, FillEnds, LastPoint;
    LastBurst(msgs, k, pos, wr);
    var left := msgs[k].Len() - pos;
    var n := BurstAt(msgs, k, pos, left, 0, wr).n;
    FillsStep(left, wr);
    PassStopsSettled(msgs, k, pos, left, 0, wr);
    PassStops(msgs, k, pos, left, 0, wr);
    RestIs(msgs, k, pos + n, left - n, wr);
    if n < left {
      LastEntries(msgs, k, pos + n, wr);
    }
  }

  lemma LastBurst(msgs: seq<Msg>, k: nat, pos: nat, wr: nat)
    requires LastPoint(msgs, k, pos, wr)
    ensures k < |msgs| && pos < msgs[k].Len() && msgs[k].Write? && wr >= 4
    ensures var left := msgs[k].Len() - pos;
      && WritePoint(msgs, k, pos, left, 0, wr)
      && var b := BurstAt(msgs, k, pos, left, 0, wr);
      && FillEnds(msgs, k, b, wr) && b.n == (if left <= wr - 1 then left else wr - 1)
      && |BurstSent(msgs, k, pos, left, 0, wr)| == b.n + 1
      && (b.n < left ==> LastPoint(msgs, k, pos + b.n, wr))
  {
  }

  lemma SingleTransfer(g: Geometry, msgs: seq<Msg>)
    requires ValidGeometry(g) && NonEmpty(msgs) && |msgs| == 1 && msgs[0].Write?
    ensures var len := msgs[0].Len();
      var wr := FillSize(g, msgs, 0);
      && wr == (if len >= g.outFifo - 1 then g.outBlk else g.outFifo)
      && |Transfer(g, msgs, 0, 0)| == len + Fills(len, wr)
      && (wr == g.outBlk ==> WriteCount(g, msgs, 0) == len + 1 + len / (wr - 1))
  {
    hide *;
    SingleSizes(g, msgs);
    WritePassIs(g, msgs, 0);
    LastEntries(msgs, 0, 0, FillSize(g, msgs, 0));
    OnePass(g, msgs);
  }

  lemma SingleSizes(g: Geometry, msgs: seq<Msg>)
    requires ValidGeometry(g) && NonEmpty(msgs) && |msgs| == 1 && msgs[0].Write?
    ensures var len, wr := msgs[0].Len(), FillSize(g, msgs, 0);
      && wr == (if len >= g.outFifo - 1 then g.outBlk else g.outFifo)
      && (wr == g.outBlk ==> WriteCount(g, msgs, 0) == len + 1 + len / (wr - 1))
      && PassPoint(msgs, 0, 0) && LastPoint(msgs, 0, 0, wr)
  {
  }

  lemma OnePass(g: Geometry, msgs: seq<Msg>)
    requires ValidGeometry(g) && PassPoint(msgs, 0, 0) && |msgs| == 1 && PassAt(g, msgs, 0, 0).k == 1
    ensures Transfer(g, msgs, 0, 0) == PassAt(g, msgs, 0, 0).sent
  {
    hide PassAt;
  }

  /** Block mode, a single write: the programmed count is the number of tagged entries put
      into the FIFO over all refills, and one more if the bytes fill their blocks exactly. */
  lemma WriteCountOf(g: Geometry, addr: bv16, data: seq<bv8>)
    requires ValidGeometry(g) && g.outFifo - 1 <= |data| < 0x10000
    ensures var msgs := [Write(addr, data)];
      && FillSize(g, msgs, 0) == g.outBlk
      && WriteCount(g, msgs, 0) == |Transfer(g, msgs, 0, 0)| + if |data| % (g.outBlk - 1) == 0 then 1 else 0
  {
    hide Transfer, Fills, WriteCount, FillSize;
    SingleTransfer(g, [Write(addr, data)]);
    FillsOf(|data|, g.outBlk);
  }

  lemma FillsOf(len: nat, wr: nat)
    requires 4 <= wr
    ensures len / (wr - 1) + 1 == Fills(len, wr) + if len % (wr - 1) == 0 then 1 else 0
  {
    var m := wr - 1;
    var q, r := len / m, len % m;
    assert len == m * q + r;
    if r == 0 {
      DivModUnique(len + m - 1, m, q, m - 1);
    } else {
      DivModUnique(len + m - 1, m, q + 1, r - 1);
    }
  }

  // Block mode, chains of writes.

  /** The chain goes on with another write. */
  predicate Merges(msgs: seq<Msg>, k: nat)
    requires k < |msgs|
  {
    SameSlaveNext(msgs, k) && msgs[k + 1].Write?
  }

  /** One pass takes the whole chain: from message `k`, which starts in `slot`, no message
      starts in the last slot of a fill or is cut, and none but the last ends with a fill. */
  predicate Whole(msgs: seq<Msg>, k: nat, slot: nat, wr: nat)
    requires NonEmpty(msgs) && k < |msgs| && slot < wr && 4 <= wr
    decreases |msgs| - k, 1
  {
    slot + 1 != wr && !CutShort(msgs, k, slot, wr) && WholeAfter(msgs, k, EndSlot(msgs, k, slot, wr), wr)
  }

  predicate WholeAfter(msgs: seq<Msg>, k: nat, e: nat, wr: nat)
    requires NonEmpty(msgs) && k < |msgs| && 4 <= wr
    decreases |msgs| - k, 0
  {
    Merges(msgs, k) ==> e < wr && Whole(msgs, k + 1, e, wr)
  }

  /** The slot of the last of `x` entries that follow the opening ones of their fills. */
  function LastSlot(x: nat, wr: nat): nat
    requires 1 <= x && 4 <= wr
  {
    (x - 1) % (wr - 1) + 1
  }

  /** What follows the last byte of a chain in its pass: a read command if one is next and
      fits, or the NOP that keeps it out of the last slot. */
  function ChainTail(msgs: seq<Msg>, k: nat, last: nat, wr: nat): nat
    requires k < |msgs|
  {
    if !ReadNext(msgs, k) || last + 1 == wr then 0 else if last + 2 == wr then 1 else 2
  }

  /** A pass over a whole chain: a slot for each byte and each later header, one to open each
      fill, and the tail. */
  lemma {:induction false} ChainEntries(msgs: seq<Msg>, k: nat, pos: nat, cnt: nat, slot: nat, wr: nat)
    requires WritePoint(msgs, k, pos, cnt, slot, wr)
    requires var left := msgs[k].Len() - pos; cnt == if slot == 0 then left else Min(left, 256)
    requires 4 <= wr && slot < wr && NonEmpty(msgs) && pos < msgs[k].Len()
    requires if pos == 0 then Whole(msgs, k, slot, wr) else WholeAfter(msgs, k, RefillEnd(msgs[k].Len() - pos, wr), wr)
    ensures ChainLen(msgs, k) > pos
    ensures var x := slot + ChainLen(msgs, k) - pos;
      |Pass(msgs, k, pos, cnt, slot, wr).sent|
      == ChainLen(msgs, k) - pos + Fills(x, wr) + ChainTail(msgs, ChainEnd(msgs, k), LastSlot(x, wr), wr)
    decreases |msgs| - k, msgs[k].Len() - pos
  {
    hide *;
    WriteAt(msgs, k, pos, cnt, slot, wr);
    PointBounds(msgs, k, pos, cnt, slot, wr);
    var b := BurstAt(msgs, k, pos, cnt, slot, wr);
    var left := msgs[k].Len() - pos;
    WholeIs(msgs, k, slot, wr);
    WholeAfterIs(msgs, k, if pos == 0 then EndSlot(msgs, k, slot, wr) else RefillEnd(left, wr), wr);
    BurstOutcome(msgs, k, pos, cnt, slot, wr);
    EndSlotStep(msgs, k, left, b.n, slot, wr);
    WholeBurst(msgs, k, pos, cnt, slot, wr);
    ChainStep(msgs, k);
    var x := slot + ChainLen(msgs, k) - pos;
    SlotStep(x, wr);
    if b.n < left {
      PassStops(msgs, k, pos, cnt, slot, wr);
      PassStopsSettled(msgs, k, pos, cnt, slot, wr);
      RestIs(msgs, k, pos + b.n, left - b.n, wr);
      PrependedLen(BurstSent(msgs, k, pos, cnt, slot, wr), Rest(msgs, k, pos + b.n, left - b.n, wr));
      ChainEntries(msgs, k, pos + b.n, left - b.n, 0, wr);
    } else if Merges(msgs, k) {
      NextPoint(msgs, k, pos, cnt, slot, wr);
      PassGoesOn(msgs, k, pos, cnt, slot, wr);
      var next := Min(msgs[k + 1].Len(), 256);
      PrependedLen(BurstEntries(msgs, k, pos, cnt, slot, wr), Pass(msgs, k + 1, 0, next, b.last + 1, wr));
      NonEmptyAt(msgs, k + 1);
      ChainEntries(msgs, k + 1, 0, next, b.last + 1, wr);
    } else {
      ChainEnds(msgs, k, pos, cnt, slot, wr);
    }
  }

  lemma NonEmptyAt(msgs: seq<Msg>, k: nat)
    requires NonEmpty(msgs) && k < |msgs|
    ensures msgs[k].Len() >= 1
  {
  }

  lemma PrependedLen(o: seq<bv16>, p: Progress)
    ensures |Prepend(o, p).sent| == |o| + |p.sent|
  {
  }

  lemma WholeIs(msgs: seq<Msg>, k: nat, slot: nat, wr: nat)
    requires NonEmpty(msgs) && k < |msgs| && slot < wr && 4 <= wr
    ensures Whole(msgs, k, slot, wr)
        <==> slot + 1 != wr && !CutShort(msgs, k, slot, wr) && WholeAfter(msgs, k, EndSlot(msgs, k, slot, wr), wr)
    ensures slot == 0 ==> !CutShort(msgs, k, slot, wr)
  {
  }

  lemma WholeAfterIs(msgs: seq<Msg>, k: nat, e: nat, wr: nat)
    requires NonEmpty(msgs) && k < |msgs| && 4 <= wr
    ensures WholeAfter(msgs, k, e, wr) <==> (Merges(msgs, k) ==> e < wr && Whole(msgs, k + 1, e, wr))
    ensures SameSlaveNext(msgs, k) ==> k + 1 < |msgs|
    ensures Merges(msgs, k) <==> SameSlaveNext(msgs, k) && msgs[k + 1].Write?
  {
  }

  /** One call of such a pass. */
  lemma WholeBurst(msgs: seq<Msg>, k: nat, pos: nat, cnt: nat, slot: nat, wr: nat)
    requires WritePoint(msgs, k, pos, cnt, slot, wr) && slot + 1 != wr && !CutShort(msgs, k, slot, wr)
    requires var left := msgs[k].Len() - pos; cnt == if slot == 0 then left else Min(left, 256)
    ensures var b := BurstAt(msgs, k, pos, cnt, slot, wr);
      var left := msgs[k].Len() - pos;
      && (b.n < left ==> slot + b.n == wr - 1 && FillEnds(msgs, k, b, wr) && |BurstSent(msgs, k, pos, cnt, slot, wr)| == 1 + b.n)
      && (b.n == left && Merges(msgs, k) && b.last + 1 < wr ==> !FillEnds(msgs, k, b, wr))
      && |BurstEntries(msgs, k, pos, cnt, slot, wr)| == 1 + b.n + (if b.padded then 1 else 0)
      && (b.padded ==> !Merges(msgs, k))
  {
  }

  /** The last call of such a pass. */
  lemma ChainEnds(msgs: seq<Msg>, k: nat, pos: nat, cnt: nat, slot: nat, wr: nat)
    requires WritePoint(msgs, k, pos, cnt, slot, wr) && slot + 1 != wr && !Merges(msgs, k)
    requires pos + BurstAt(msgs, k, pos, cnt, slot, wr).n == msgs[k].Len()
    ensures var n := msgs[k].Len() - pos;
      |Pass(msgs, k, pos, cnt, slot, wr).sent| == 1 + n + ChainTail(msgs, k, slot + n, wr)
  {
    hide *;
    WriteAt(msgs, k, pos, cnt, slot, wr);
    var b := BurstAt(msgs, k, pos, cnt, slot, wr);
    LastCallSent(msgs, k, pos, cnt, slot, wr);
    if FillEnds(msgs, k, b, wr) {
      PassStops(msgs, k, pos, cnt, slot, wr);
      RestIs(msgs, k, pos + b.n, 0, wr);
      PrependedLen(BurstSent(msgs, k, pos, cnt, slot, wr), Rest(msgs, k, pos + b.n, 0, wr));
    } else {
      PassReads(msgs, k, pos, cnt, slot, wr);
      var all := BurstEntries(msgs, k, pos, cnt, slot, wr) + ReadCommand(msgs[k + 1], msgs[k + 1].Len());
      var next := Min(msgs[k + 1].Len(), 256);
      ReadRest(msgs, k + 1, next, wr, all);
      AfterSent(msgs, k + 1, next);
      PrependedLen(all, Rest(msgs, k + 1, 0, next, wr));
    }
  }

  lemma AfterSent(msgs: seq<Msg>, k: nat, pos: nat)
    requires k < |msgs|
    ensures After(msgs, k, pos, []).sent == []
    ensures msgs[k].Len() >= 1 ==> |ReadCommand(msgs[k], msgs[k].Len())| == 2
  {
  }

  lemma LastCallSent(msgs: seq<Msg>, k: nat, pos: nat, cnt: nat, slot: nat, wr: nat)
    requires WritePoint(msgs, k, pos, cnt, slot, wr) && slot + 1 != wr && !Merges(msgs, k)
    requires pos + BurstAt(msgs, k, pos, cnt, slot, wr).n == msgs[k].Len()
    ensures var b := BurstAt(msgs, k, pos, cnt, slot, wr);
      var tail := ChainTail(msgs, k, b.last, wr);
      && b.last == slot + b.n
      && (FillEnds(msgs, k, b, wr) ==> |BurstSent(msgs, k, pos, cnt, slot, wr)| == 1 + b.n + tail)
      && (!FillEnds(msgs, k, b, wr) ==>
            k + 1 < |msgs| && msgs[k + 1].Len() >= 1 && msgs[k + 1].Read? && tail == 2 && |BurstEntries(msgs, k, pos, cnt, slot, wr)| == 1 + b.n)
  {
  }

  lemma SlotStep(x: nat, wr: nat)
    requires 4 <= wr && 1 <= x
    ensures x > wr - 1 ==> Fills(x, wr) == Fills(x - (wr - 1), wr) + 1 && LastSlot(x, wr) == LastSlot(x - (wr - 1), wr)
    ensures x <= wr - 1 ==> Fills(x, wr) == 1 && LastSlot(x, wr) == x
  {
    FillsStep(x, wr);
    RefillStep(x, if x >= wr - 1 then wr - 1 else x, wr);
    hide Fills;
  }

  /** Block mode, a chain of writes that one pass takes as a whole: the programmed count is
      the number of entries of the pass, and more only if the bytes and headers fill their
      blocks exactly, or if a read is next for which the last block has no room. */
  lemma WriteCountOfChain(g: Geometry, msgs: seq<Msg>, k: nat)
    requires ValidGeometry(g) && PassPoint(msgs, k, 0) && k < |msgs| && msgs[k].Write?
    requires ChainLen(msgs, k) >= g.outFifo - 1 && Whole(msgs, k, 0, g.outBlk)
    ensures FillSize(g, msgs, k) == g.outBlk
    ensures var over := ChainLen(msgs, k) % (g.outBlk - 1);
      WriteCount(g, msgs, k) == |PassAt(g, msgs, k, 0).sent|
        + (if over == 0 then 1 else 0)
        + if ReadNext(msgs, ChainEnd(msgs, k)) && (over == 0 || over == g.outBlk - 2) then 2 else 0
  {
    hide *;
    var wr, len := g.outBlk, ChainLen(msgs, k);
    WritePassIs(g, msgs, k);
    CountIs(g, msgs, k);
    ChainEntries(msgs, k, 0, msgs[k].Len(), 0, wr);
    FillsOf(len, wr);
    CountSlots(len, wr);
    TailIs(msgs, ChainEnd(msgs, k), LastSlot(len, wr), wr);
  }

  lemma CountIs(g: Geometry, msgs: seq<Msg>, k: nat)
    requires ValidGeometry(g) && PassPoint(msgs, k, 0) && k < |msgs| && msgs[k].Write? && ChainLen(msgs, k) >= g.outFifo - 1
    ensures FillSize(g, msgs, k) == g.outBlk && g.outBlk >= 4 && NonEmpty(msgs) && msgs[k].Len() >= 1 && ChainLen(msgs, k) >= 1
    ensures ChainEnd(msgs, k) < |msgs|
    ensures var total := ChainLen(msgs, k) + 1 + ChainLen(msgs, k) / (g.outBlk - 1);
      WriteCount(g, msgs, k) == total + if !ReadNext(msgs, ChainEnd(msgs, k)) then 0
                                        else if total % g.outBlk == g.outBlk - 1 then 3 else 2
  {
    hide ChainLen, ChainEnd;
  }

  lemma TailIs(msgs: seq<Msg>, k: nat, last: nat, wr: nat)
    requires k < |msgs|
    ensures ChainTail(msgs, k, last, wr)
         == if !ReadNext(msgs, k) || last + 1 == wr then 0 else if last + 2 == wr then 1 else 2
  {
  }

  /** Where the last of `len` entries lies, and what the driver's test makes of it. */
  lemma CountSlots(len: nat, wr: nat)
    requires 4 <= wr && 1 <= len
    ensures var m := wr - 1;
      && LastSlot(len, wr) == (if len % m == 0 then m else len % m)
      && (len + 1 + len / m) % wr == len % m + 1
  {
    var m := wr - 1;
    var q, r := len / m, len % m;
    assert len == m * q + r;
    Distribute(q, wr, -1);
    DivModUnique(len + 1 + q, wr, q, r + 1);
    if r == 0 {
      Distribute(m, q, -1);
      DivModUnique(len - 1, m, q - 1, m - 1);
    } else {
      DivModUnique(len - 1, m, q, r - 1);
    }
  }
}
