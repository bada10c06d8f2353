/** What the QUP transfer engine puts into the output FIFO, entry by entry.

    This is the slot-level view of the engine: fills of `wr` slots, one tagged
    entry a slot, without words, halves or carried values. QupDevice proves that
    the register-level code refines it; QupTheorems relates it to the messages. */
module QupSchedule {
  import opened QupWords

  /** One I2C message: bytes to send, or a buffer to receive into. */
  datatype Msg =
    | Write(addr: bv16, data: seq<bv8>)
    | Read(addr: bv16, buf: array<bv8>)
  {
    function Len(): nat {
      match this
      case Write(_, data) => |data|
      case Read(_, buf) => buf.Length
    }
  }

  /** FIFO and block sizes, counted in tagged entries. */
  datatype Geometry = Geometry(outBlk: nat, outFifo: nat)

  /** What the sizing code guarantees of every geometry it computes. */
  predicate ValidGeometry(g: Geometry) {
    g.outBlk % 2 == 0 && 4 <= g.outBlk && g.outFifo % 2 == 0 && 2 * g.outBlk <= g.outFifo
  }

  /** The sizes coded in the I/O mode register; half of each size holds tags. */
  function SizesOf(modeReg: bv32): (g: Geometry)
    ensures ValidGeometry(g)
  {
    var units := (modeReg & 0x3) as nat;
    var blk := (if units != 0 then units * 16 else 16) / 2;
    var factor := Factor((modeReg & 0x1C) >> 2);
    assert blk == 8 * (if units != 0 then units else 1);
    EvenProduct(blk, factor);
    Geometry(blk, blk * factor)
  }

  /** Blocks of the FIFO: 2 shifted by a 3-bit field. */
  function Factor(field: bv32): (f: nat)
    requires field <= 7
    ensures 2 <= f <= 256
  {
    var two: bv32 := 2;
    (two << field) as nat
  }

  /** The sizes for each value of the two fields: blocks of 16, 16, 32 or 48 bytes, and 2 to 256
      blocks in the FIFO. */
  lemma SizesAre(modeReg: bv32)
    ensures var g, blk, blocks := SizesOf(modeReg), modeReg & 0x03, modeReg & 0x1C;
      && g.outBlk == (if blk == 3 then 24 else if blk == 2 then 16 else 8)
      && g.outFifo == g.outBlk * (
           if blocks == 0x00 then 2 else if blocks == 0x04 then 4 else if blocks == 0x08 then 8 else if blocks == 0x0C then 16
           else if blocks == 0x10 then 32 else if blocks == 0x14 then 64 else if blocks == 0x18 then 128 else 256)
  {
    FactorIs((modeReg & 0x1C) >> 2);
    BlocksField(modeReg);
    hide Factor;
  }

  lemma FactorIs(field: bv32)
    requires field <= 7
    ensures Factor(field) == (
      if field == 0 then 2 else if field == 1 then 4 else if field == 2 then 8 else if field == 3 then 16
      else if field == 4 then 32 else if field == 5 then 64 else if field == 6 then 128 else 256)
  {
  }

  lemma BlocksField(modeReg: bv32)
    ensures var blocks, field := modeReg & 0x1C, (modeReg & 0x1C) >> 2;
      && field <= 7
      && (blocks == 0x00 <==> field == 0) && (blocks == 0x04 <==> field == 1) && (blocks == 0x08 <==> field == 2)
      && (blocks == 0x0C <==> field == 3) && (blocks == 0x10 <==> field == 4) && (blocks == 0x14 <==> field == 5)
      && (blocks == 0x18 <==> field == 6)
  {
  }

  lemma EvenProduct(blk: nat, factor: nat)
    requires blk % 2 == 0 && factor >= 2
    ensures blk * factor % 2 == 0 && blk * factor >= 2 * blk
  {
    var h := blk / 2;
    assert blk * factor == 2 * (h * factor);
  }

  predicate NonEmpty(msgs: seq<Msg>) {
    forall i :: 0 <= i < |msgs| ==> 1 <= msgs[i].Len() < 0x10000
  }

  function Min(a: int, b: int): int {
    if a <= b then a else b
  }

  predicate IsLast(msgs: seq<Msg>, k: nat) {
    k + 1 >= |msgs|
  }

  /** Messages `k0` up to `k` are writes. */
  predicate WritesOnly(msgs: seq<Msg>, k0: nat, k: nat) {
    k <= |msgs| && forall i :: k0 <= i < k ==> msgs[i].Write?
  }

  lemma WritesOnlyStep(msgs: seq<Msg>, k0: nat, k: nat)
    requires WritesOnly(msgs, k0, k) && k < |msgs|
    ensures msgs[k].Write? ==> WritesOnly(msgs, k0, k + 1)
  {
  }

  /** The transfer goes on with another message for the same slave. */
  predicate SameSlaveNext(msgs: seq<Msg>, k: nat)
    requires k < |msgs|
  {
    k + 1 < |msgs| && msgs[k + 1].addr == msgs[k].addr
  }

  predicate ReadNext(msgs: seq<Msg>, k: nat)
    requires k < |msgs|
  {
    SameSlaveNext(msgs, k) && msgs[k + 1].Read?
  }

  /** A point of the engine's write loop: `cnt` bytes of write message `k` may be
      sent from byte `pos` on, into a fill of `wr` slots, the next free being `slot`. */
  predicate WritePoint(msgs: seq<Msg>, k: nat, pos: nat, cnt: nat, slot: nat, wr: nat) {
    && NonEmpty(msgs)
    && k < |msgs| && msgs[k].Write?
    && 1 <= cnt && pos + cnt <= |msgs[k].data|
    && slot < wr && 4 <= wr && wr % 2 == 0
    && (pos > 0 ==> slot == 0 && pos + cnt == |msgs[k].data|)
  }

  /** One call of the write routine: `n` bytes, the last of them in slot `last`. */
  datatype Burst = Burst(n: nat, last: nat, padded: bool, stopped: bool, live: bool)

  function BurstAt(msgs: seq<Msg>, k: nat, pos: nat, cnt: nat, slot: nat, wr: nat): (b: Burst)
    requires WritePoint(msgs, k, pos, cnt, slot, wr)
    ensures 1 <= b.n <= cnt && b.last == slot + b.n
    ensures b.n == if slot + 1 == wr then 1 else Min(cnt, wr - 1 - slot)
  {
    var n := if slot == wr - 1 then 1 else Min(cnt, wr - 1 - slot);
    var last := slot + n;
    var even := last % 2 == 0;
    // a NOP keeps a following read out of the last slot
    var padded := even && ReadNext(msgs, k) && last == wr - 2;
    // a write ended early because the next message is for another slave
    var cut := even && k + 1 < |msgs| && !SameSlaveNext(msgs, k) && pos + n == |msgs[k].data| && last < wr;
    Burst(n, last, padded,
          pos + n == |msgs[k].data| && (IsLast(msgs, k) || cut),
          even && !IsLast(msgs, k) && !padded && !cut)
  }

  /** The slot the engine goes on with after a call. */
  function NextSlot(msgs: seq<Msg>, k: nat, b: Burst): nat {
    b.last + if b.padded || (b.stopped && !IsLast(msgs, k)) then 2 else 1
  }

  /** The entries of one call, all of them. */
  function BurstEntries(msgs: seq<Msg>, k: nat, pos: nat, cnt: nat, slot: nat, wr: nat): seq<bv16>
    requires WritePoint(msgs, k, pos, cnt, slot, wr)
  {
    var b := BurstAt(msgs, k, pos, cnt, slot, wr);
    [if pos == 0 then WriteHeader(msgs[k].addr) else NOP]
    + Bytes(msgs[k].data[pos..pos + b.n], b.stopped)
    + if b.padded then [NOP] else []
  }

  /** The fill ends after this call. */
  predicate FillEnds(msgs: seq<Msg>, k: nat, b: Burst, wr: nat)
    requires k < |msgs|
  {
    b.last + 1 >= wr || b.padded || !SameSlaveNext(msgs, k)
  }

  /** The entries of one call that reach the FIFO: a half-word still held back
      when the fill ends is never written. */
  function BurstSent(msgs: seq<Msg>, k: nat, pos: nat, cnt: nat, slot: nat, wr: nat): seq<bv16>
    requires WritePoint(msgs, k, pos, cnt, slot, wr)
  {
    var b := BurstAt(msgs, k, pos, cnt, slot, wr);
    var all := BurstEntries(msgs, k, pos, cnt, slot, wr);
    if FillEnds(msgs, k, b, wr) && b.live then all[..|all| - 1] else all
  }

  function ReadCommand(m: Msg, left: nat): (s: seq<bv16>)
    requires 1 <= left
  {
    [ReadHeader(m.addr), Receive(Min(left, 256))]
  }

  /** Where the next pass of the transfer loop starts, and what was sent until then. */
  datatype Progress = Progress(sent: seq<bv16>, k: nat, pos: nat)

  function After(msgs: seq<Msg>, k: nat, pos: nat, sent: seq<bv16>): Progress
    requires k < |msgs|
  {
    if pos == msgs[k].Len() then Progress(sent, k + 1, 0) else Progress(sent, k, pos)
  }

  function Prepend(s: seq<bv16>, p: Progress): Progress {
    p.(sent := s + p.sent)
  }

  /** One pass of the transfer loop that starts with a write: the message, the
      writes merged with it and the read that may end the chain. */
  function Pass(msgs: seq<Msg>, k: nat, pos: nat, cnt: nat, slot: nat, wr: nat): (p: Progress)
    requires WritePoint(msgs, k, pos, cnt, slot, wr)
    ensures k < p.k || (k == p.k && pos < p.pos)
    ensures p.k <= |msgs| && (p.pos > 0 ==> p.k < |msgs| && msgs[p.k].Read? && p.pos < msgs[p.k].Len())
    decreases |msgs| - k, msgs[k].Len() - pos
  {
    var b := BurstAt(msgs, k, pos, cnt, slot, wr);
    var sent := BurstSent(msgs, k, pos, cnt, slot, wr);
    if FillEnds(msgs, k, b, wr) then
      var left := |msgs[k].data| - pos - b.n;
      if left == 0 then After(msgs, k, pos + b.n, sent)
      else Prepend(sent, Pass(msgs, k, pos + b.n, left, 0, wr))
    else if msgs[k + 1].Read? then
      var len := msgs[k + 1].Len();
      After(msgs, k + 1, Min(len, 256), sent + ReadCommand(msgs[k + 1], len))
    else
      Prepend(sent, Pass(msgs, k + 1, 0, Min(msgs[k + 1].Len(), 256), b.last + 1, wr))
  }

  /** A fill may start here. */
  predicate FillPoint(msgs: seq<Msg>, k: nat, pos: nat, cnt: nat, wr: nat) {
    && NonEmpty(msgs) && k < |msgs| && 4 <= wr && wr % 2 == 0
    && (msgs[k].Write? ==> WritePoint(msgs, k, pos, cnt, 0, wr))
    && (msgs[k].Read? ==> pos < msgs[k].Len() && cnt == Min(msgs[k].Len() - pos, 256))
  }

  /** What is left of a pass when a fill starts here. */
  function FillPass(msgs: seq<Msg>, k: nat, pos: nat, cnt: nat, wr: nat): Progress
    requires FillPoint(msgs, k, pos, cnt, wr)
  {
    if msgs[k].Read? then After(msgs, k, pos + cnt, ReadCommand(msgs[k], msgs[k].Len() - pos))
    else Pass(msgs, k, pos, cnt, 0, wr)
  }

  /** What is left of a pass when a fill is over and message `k` has `cnt` bytes to go. */
  function Rest(msgs: seq<Msg>, k: nat, pos: nat, cnt: nat, wr: nat): Progress
    requires k < |msgs| && (msgs[k].Write? ==> cnt == 0 || WritePoint(msgs, k, pos, cnt, 0, wr))
  {
    if msgs[k].Read? then After(msgs, k, pos + cnt, [])
    else if cnt == 0 then Progress([], k + 1, 0)
    else Pass(msgs, k, pos, cnt, 0, wr)
  }

  /** The fill that starts at this point writes one word more than it has room for:
      the last message of the transfer starts in the last slot. */
  predicate Overruns(msgs: seq<Msg>, k: nat, pos: nat, cnt: nat, slot: nat, wr: nat)
    requires WritePoint(msgs, k, pos, cnt, slot, wr)
    decreases |msgs| - k
  {
    var b := BurstAt(msgs, k, pos, cnt, slot, wr);
    if FillEnds(msgs, k, b, wr) then IsLast(msgs, k) && slot + 1 == wr
    else msgs[k + 1].Write? && Overruns(msgs, k + 1, 0, Min(msgs[k + 1].Len(), 256), b.last + 1, wr)
  }

  /** This fill or a later one of the pass does so. */
  predicate PassOverruns(msgs: seq<Msg>, k: nat, pos: nat, cnt: nat, slot: nat, wr: nat)
    requires WritePoint(msgs, k, pos, cnt, slot, wr)
    decreases |msgs| - k, msgs[k].Len() - pos
  {
    var b := BurstAt(msgs, k, pos, cnt, slot, wr);
    if FillEnds(msgs, k, b, wr) then
      var left := |msgs[k].data| - pos - b.n;
      (IsLast(msgs, k) && slot + 1 == wr) || (left > 0 && PassOverruns(msgs, k, pos + b.n, left, 0, wr))
    else
      msgs[k + 1].Write? && PassOverruns(msgs, k + 1, 0, Min(msgs[k + 1].Len(), 256), b.last + 1, wr)
  }

  /** Entries of the chain of writes that starts at message `k`, without its first header. */
  function ChainLen(msgs: seq<Msg>, k: nat): nat
    requires k < |msgs|
    decreases |msgs| - k
  {
    msgs[k].Len() + if SameSlaveNext(msgs, k) && msgs[k + 1].Write? then 1 + ChainLen(msgs, k + 1) else 0
  }

  /** The last write of that chain. */
  function ChainEnd(msgs: seq<Msg>, k: nat): (e: nat)
    requires k < |msgs|
    ensures k <= e < |msgs|
    decreases |msgs| - k
  {
    if SameSlaveNext(msgs, k) && msgs[k + 1].Write? then ChainEnd(msgs, k + 1) else k
  }

  /** Slots of one fill: the whole FIFO if the chain fits with a slot to spare, else a block. */
  function FillSize(g: Geometry, msgs: seq<Msg>, k: nat): nat
    requires k < |msgs|
  {
    if ChainLen(msgs, k) >= g.outFifo - 1 then g.outBlk else g.outFifo
  }

  /** The value programmed into the write count register. */
  function WriteCount(g: Geometry, msgs: seq<Msg>, k: nat): nat
    requires ValidGeometry(g) && k < |msgs|
  {
    var len := ChainLen(msgs, k);
    var total := if len >= g.outFifo - 1 then len + 1 + len / (g.outBlk - 1) else 0;
    if !ReadNext(msgs, ChainEnd(msgs, k)) then total
    else if total % g.outBlk == g.outBlk - 1 then total + 3
    else total + 2
  }

  predicate PassPoint(msgs: seq<Msg>, k: nat, pos: nat) {
    && NonEmpty(msgs) && k <= |msgs|
    && (pos > 0 ==> k < |msgs| && msgs[k].Read? && pos < msgs[k].Len())
  }

  /** One pass of the transfer loop, read or write. */
  function PassAt(g: Geometry, msgs: seq<Msg>, k: nat, pos: nat): (p: Progress)
    requires ValidGeometry(g) && PassPoint(msgs, k, pos) && k < |msgs|
    ensures k < p.k || (k == p.k && pos < p.pos)
    ensures PassPoint(msgs, p.k, p.pos)
  {
    if msgs[k].Read? then FillPass(msgs, k, pos, Min(msgs[k].Len() - pos, 256), g.outFifo)
    else FillPass(msgs, k, 0, msgs[k].Len(), FillSize(g, msgs, k))
  }

  /** Everything the transfer loop puts into the output FIFO from message `k` on. */
  function Transfer(g: Geometry, msgs: seq<Msg>, k: nat, pos: nat): seq<bv16>
    requires ValidGeometry(g) && PassPoint(msgs, k, pos)
    decreases |msgs| - k, if k < |msgs| then msgs[k].Len() - pos else 0
  {
    if k == |msgs| then []
    else
      var p := PassAt(g, msgs, k, pos);
      p.sent + Transfer(g, msgs, p.k, p.pos)
  }

  /** Some fill of the transfer writes a word more than it has room for. */
  predicate TransferOverruns(g: Geometry, msgs: seq<Msg>, k: nat, pos: nat)
    requires ValidGeometry(g) && PassPoint(msgs, k, pos)
    decreases |msgs| - k, if k < |msgs| then msgs[k].Len() - pos else 0
  {
    k < |msgs| &&
    var p := PassAt(g, msgs, k, pos);
    || (msgs[k].Write? && PassOverruns(msgs, k, 0, msgs[k].Len(), 0, FillSize(g, msgs, k)))
    || TransferOverruns(g, msgs, p.k, p.pos)
  }
}
