/** Descriptors of a BAM transfer and the ring that holds them, as values. */
module BamRing {
  import opened Bits

  const BAM_DESC_SIZE := 8
  const BAM_MAX_DESC_DATA_LEN := 0xFFFF
  const BAM_DESC_EOT_FLAG := 0x40
  const BAM_DESC_CMD_FLAG := 0x08
  const BAM_DESC_LOCK_FLAG := 0x04
  const BAM_DESC_UNLOCK_FLAG := 0x02

  datatype Desc = Desc(addr: nat, size: nat, reserved: nat, flags: nat)

  /** The flags that one descriptor may carry. */
  predicate FlagsOk(flags: nat) {
    && !(And(flags, BAM_DESC_LOCK_FLAG) != 0 && And(flags, BAM_DESC_UNLOCK_FLAG) != 0)
    && !(And(flags, BAM_DESC_EOT_FLAG) != 0 && And(flags, BAM_DESC_CMD_FLAG) != 0)
  }

  /** By their bits: no lock with an unlock (bits 2 and 1), and no end of transfer with a
      command (bits 6 and 3). */
  lemma FlagsMean(flags: nat)
    ensures FlagsOk(flags) <==>
      !(flags / 4 % 2 == 1 && flags / 2 % 2 == 1) && !(flags / 64 % 2 == 1 && flags / 8 % 2 == 1)
  {
    BitIs(flags, 1);
    BitIs(flags, 2);
    BitIs(flags, 3);
    BitIs(flags, 6);
    assert Pow2(1) == 2 && Pow2(2) == 4 && Pow2(3) == 8;
    assert Pow2(6) == 64;
    hide And, Pow2;
  }

  /** The descriptors of a buffer of `len` bytes at `addr`. */
  function Split(addr: nat, len: nat, flags: nat): (r: seq<Desc>)
    ensures |r| == (len + BAM_MAX_DESC_DATA_LEN - 1) / BAM_MAX_DESC_DATA_LEN
    decreases len
  {
    if len == 0 then []
    else if len <= BAM_MAX_DESC_DATA_LEN then [Desc(addr, len, 0, flags)]
    else [Desc(addr, BAM_MAX_DESC_DATA_LEN, 0, 0)]
         + Split(addr + BAM_MAX_DESC_DATA_LEN, len - BAM_MAX_DESC_DATA_LEN, flags)
  }

  /** The next descriptor of a buffer, and the rest. */
  lemma SplitStep(addr: nat, len: nat, flags: nat)
    requires len > 0
    ensures var d, big := Split(addr, len, flags), len > BAM_MAX_DESC_DATA_LEN;
      && |d| >= 1
      && d[0] == Desc(addr, if big then BAM_MAX_DESC_DATA_LEN else len, 0, if big then 0 else flags)
      && (big ==> |d| >= 2 && d[1..] == Split(addr + BAM_MAX_DESC_DATA_LEN, len - BAM_MAX_DESC_DATA_LEN, flags))
      && (!big ==> |d| == 1 && forall a: nat :: Split(a, 0, flags) == [])
  {
  }

  /** The descriptors tile the buffer in pieces of 65535 bytes: each starts where the one before
      it ends, the last one ends where the buffer ends, and only the last one carries the flags. */
  lemma {:induction false} SplitTiles(addr: nat, len: nat, flags: nat, k: nat)
    requires k < |Split(addr, len, flags)|
    ensures var d, last := Split(addr, len, flags), |Split(addr, len, flags)| - 1;
      && d[k].addr == addr + 0xFFFF * k
      && 1 <= d[k].size < 0x10000
      && d[k].addr + d[k].size == (if k == last then addr + len else d[k + 1].addr)
      && d[k].flags == (if k == last then flags else 0) && d[k].reserved == 0
    decreases len
  {
    SplitStep(addr, len, flags);
    hide Split;
    if len > BAM_MAX_DESC_DATA_LEN {
      var rest := Split(addr + BAM_MAX_DESC_DATA_LEN, len - BAM_MAX_DESC_DATA_LEN, flags);
      SplitTiles(addr + BAM_MAX_DESC_DATA_LEN, len - BAM_MAX_DESC_DATA_LEN, flags, if k == 0 then 0 else k - 1);
      var d := Split(addr, len, flags);
      assert d == [d[0]] + rest;
      if k > 0 {
        assert d[k] == rest[k - 1];
        assert k < |d| - 1 ==> d[k + 1] == rest[k];
      } else {
        assert d[1] == rest[0];
        SplitStep(addr + BAM_MAX_DESC_DATA_LEN, len - BAM_MAX_DESC_DATA_LEN, flags);
      }
    }
  }

  /** The slot `j` places after `start` in a ring of `n` slots. */
  function At(start: nat, j: nat, n: nat): (r: nat)
    requires start < n && j <= n
    ensures r < n
  {
    if start + j < n then start + j else start + j - n
  }

  /** The `k` descriptors from slot `start` on. */
  ghost function Window(ring: seq<Desc>, start: nat, k: nat): (r: seq<Desc>)
    requires start < |ring| && k <= |ring|
    ensures |r| == k
  {
    seq(k, j requires 0 <= j < k => ring[At(start, j, |ring|)])
  }

  /** The slots from `start` to `end`, as the hardware walks them. */
  function Distance(start: nat, end: nat, n: nat): (r: nat)
    requires start < n && end < n
    ensures r < n && At(start, r, n) == end
  {
    if start <= end then end - start else end + n - start
  }

  lemma DistanceAt(start: nat, j: nat, n: nat)
    requires start < n && j < n
    ensures Distance(start, At(start, j, n), n) == j
  {
  }

  /** What writing `ds` from slot `start` on leaves in the ring. */
  ghost predicate Placed(before: seq<Desc>, ring: seq<Desc>, start: nat, ds: seq<Desc>) {
    && |ring| == |before| && start < |ring| && |ds| <= |ring|
    && Window(ring, start, |ds|) == ds
    && (forall j :: |ds| <= j < |ring| ==> ring[At(start, j, |ring|)] == before[At(start, j, |ring|)])
  }

  lemma PlacedNone(ring: seq<Desc>, start: nat)
    requires start < |ring|
    ensures Placed(ring, ring, start, [])
  {
  }

  lemma PlacedOne(before: seq<Desc>, ring: seq<Desc>, start: nat, ds: seq<Desc>, d: Desc)
    requires Placed(before, ring, start, ds) && |ds| < |ring|
    ensures Placed(before, ring[At(start, |ds|, |ring|) := d], start, ds + [d])
  {
    var n, i := |ring|, At(start, |ds|, |ring|);
    var ring' := ring[i := d];
    forall j | 0 <= j <= |ds|
      ensures Window(ring', start, |ds| + 1)[j] == (ds + [d])[j]
    {
      if j < |ds| {
        assert Window(ring, start, |ds|)[j] == ds[j];
      }
    }
  }

  /** Descriptors placed after others extend the window. */
  lemma PlacedAfter(before: seq<Desc>, mid: seq<Desc>, ring: seq<Desc>, start: nat, a: seq<Desc>, b: seq<Desc>)
    requires Placed(before, mid, start, a) && |a| + |b| <= |before|
    requires Placed(mid, ring, At(start, |a|, |before|), b)
    ensures Window(ring, start, |a| + |b|) == a + b
  {
    var n, next := |before|, At(start, |a|, |before|);
    forall j | 0 <= j < |a| + |b|
      ensures Window(ring, start, |a| + |b|)[j] == (a + b)[j]
    {
      if j < |a| {
        assert At(next, n - |a| + j, n) == At(start, j, n);
        assert Window(mid, start, |a|)[j] == a[j];
      } else {
        assert At(next, j - |a|, n) == At(start, j, n);
        assert Window(ring, next, |b|)[j - |a|] == b[j - |a|];
      }
    }
  }

  /** Window of a part. */
  lemma PlacedPrefix(before: seq<Desc>, ring: seq<Desc>, start: nat, ds: seq<Desc>, k: nat)
    requires Placed(before, ring, start, ds) && k <= |ds|
    ensures Window(ring, start, k) == ds[..k]
  {
    forall j | 0 <= j < k
      ensures Window(ring, start, k)[j] == ds[j]
    {
      assert Window(ring, start, |ds|)[j] == ds[j];
    }
  }
}
