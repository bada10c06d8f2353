/** What a transfer means: when the entries on the bus are those the messages ask for. */
module QupTheorems {
  import opened QupWords
  import opened QupSchedule
  import opened QupRefinement
  import opened Seqs

  /** A STOP is due after message `k`: the transfer ends, or goes on with another slave. */
  predicate StopDue(msgs: seq<Msg>, k: nat)
    requires k < |msgs|
  {
    !SameSlaveNext(msgs, k)
  }

  /** What the messages ask for from byte `pos` of message `k` on: for a write START with
      the address and each byte once, in order, the last tagged STOP if one is due; for a
      read a command for each chunk of at most 256 bytes. */
  function Intended(msgs: seq<Msg>, k: nat, pos: nat): seq<bv16>
    requires NonEmpty(msgs) && k <= |msgs| && (pos > 0 ==> k < |msgs| && pos < msgs[k].Len())
    decreases |msgs| - k, if k < |msgs| then msgs[k].Len() - pos else 0
  {
    if k == |msgs| then []
    else if msgs[k].Write? then
      (if pos == 0 then [WriteHeader(msgs[k].addr)] else [])
      + Bytes(msgs[k].data[pos..], StopDue(msgs, k))
      + Intended(msgs, k + 1, 0)
    else
      var left := msgs[k].Len() - pos;
      ReadCommand(msgs[k], left)
      + if left <= 256 then Intended(msgs, k + 1, 0) else Intended(msgs, k, pos + 256)
  }

  /** One call of the write routine loses nothing and tags its last byte right: no
      half-word is held when the fill ends, no rest of the message is passed over, and a
      STOP is sent if one is due. */
  predicate FaithfulBurst(msgs: seq<Msg>, k: nat, pos: nat, cnt: nat, slot: nat, wr: nat)
    requires WritePoint(msgs, k, pos, cnt, slot, wr)
  {
    var b := BurstAt(msgs, k, pos, cnt, slot, wr);
    var done := pos + b.n == |msgs[k].data|;
    && (FillEnds(msgs, k, b, wr) ==> !b.live)
    && (!FillEnds(msgs, k, b, wr) ==> done)
    && (done && StopDue(msgs, k) ==> b.stopped)
  }

  predicate FaithfulPass(msgs: seq<Msg>, k: nat, pos: nat, cnt: nat, slot: nat, wr: nat)
    requires WritePoint(msgs, k, pos, cnt, slot, wr)
    decreases |msgs| - k, msgs[k].Len() - pos
  {
    var b := BurstAt(msgs, k, pos, cnt, slot, wr);
    && FaithfulBurst(msgs, k, pos, cnt, slot, wr)
    && if FillEnds(msgs, k, b, wr) then
         var left := |msgs[k].data| - pos - b.n;
         left > 0 ==> FaithfulPass(msgs, k, pos + b.n, left, 0, wr)
       else
         msgs[k + 1].Write? ==> FaithfulPass(msgs, k + 1, 0, Min(msgs[k + 1].Len(), 256), b.last + 1, wr)
  }

  /** A condition on the lengths, addresses and directions of the messages alone. */
  predicate Faithful(g: Geometry, msgs: seq<Msg>, k: nat, pos: nat)
    requires ValidGeometry(g) && PassPoint(msgs, k, pos)
    decreases |msgs| - k, if k < |msgs| then msgs[k].Len() - pos else 0
  {
    if k == |msgs| then true
    else
      var p := PassAt(g, msgs, k, pos);
      FaithfulAt(g, msgs, k, pos) && Faithful(g, msgs, p.k, p.pos)
  }

  /** What one call is asked to send. */
  function Wanted(msgs: seq<Msg>, k: nat, pos: nat, n: nat): seq<bv16>
    requires k < |msgs| && msgs[k].Write? && pos + n <= |msgs[k].data|
  {
    (if pos == 0 then [WriteHeader(msgs[k].addr)] else [])
    + Bytes(msgs[k].data[pos..pos + n], pos + n == |msgs[k].data| && StopDue(msgs, k))
  }

  lemma EqualSplit<T>(o: seq<T>, w: seq<T>, x: seq<T>, y: seq<T>)
    requires |o| <= |w| && |x| <= |y|
    ensures o + x == w + y <==> o == w && x == y
  {
    if o + x == w + y {
      assert |o| == |w|;
      assert o == (o + x)[..|o|] == (w + y)[..|w|] == w;
      assert x == (o + x)[|o|..] == (w + y)[|w|..] == y;
    }
  }

  lemma BytesEqual(d: seq<bv8>, s: bool, t: bool)
    requires |d| >= 1
    ensures Bytes(d, s) == Bytes(d, t) <==> s == t
  {
    TaggedIsNoNop(d[|d| - 1]);
    assert Bytes(d, s)[|d| - 1] == Tagged(if s then STOP else DATA, d[|d| - 1]);
    assert Bytes(d, t)[|d| - 1] == Tagged(if t then STOP else DATA, d[|d| - 1]);
  }

  lemma DropNopsOf(h: bv16)
    ensures DropNops([h]) == if IsNop(h) then [] else [h]
    ensures IsNop(NOP)
  {
    assert [h][1..] == [];
  }

  /** The entries of a call without its NOPs. */
  lemma BurstOnBus(msgs: seq<Msg>, k: nat, pos: nat, cnt: nat, slot: nat, wr: nat)
    requires WritePoint(msgs, k, pos, cnt, slot, wr)
    ensures var b := BurstAt(msgs, k, pos, cnt, slot, wr);
      DropNops(BurstEntries(msgs, k, pos, cnt, slot, wr))
      == (if pos == 0 then [WriteHeader(msgs[k].addr)] else []) + Bytes(msgs[k].data[pos..pos + b.n], b.stopped)
  {
    var b := BurstAt(msgs, k, pos, cnt, slot, wr);
    var d := Bytes(msgs[k].data[pos..pos + b.n], b.stopped);
    var h := if pos == 0 then WriteHeader(msgs[k].addr) else NOP;
    BytesAreTagged(msgs[k].data[pos..pos + b.n], b.stopped);
    DropNopsIdentity(d);
    DropNopsOf(h);
    DropNopsOf(NOP);
    hide BurstAt, Bytes, IsNop, WritePoint;
    DropNopsConcat([h] + d, if b.padded then [NOP] else []);
    DropNopsConcat([h], d);
  }

  /** What reaches the bus of one call, against what it was asked to send. */
  lemma BurstSentOnBus(msgs: seq<Msg>, k: nat, pos: nat, cnt: nat, slot: nat, wr: nat)
    requires WritePoint(msgs, k, pos, cnt, slot, wr)
    ensures var b := BurstAt(msgs, k, pos, cnt, slot, wr);
      var o, w := DropNops(BurstSent(msgs, k, pos, cnt, slot, wr)), Wanted(msgs, k, pos, b.n);
      && |o| <= |w|
      && (o == w <==> (FillEnds(msgs, k, b, wr) ==> !b.live)
                      && (pos + b.n == |msgs[k].data| && StopDue(msgs, k) ==> b.stopped))
  {
    var b := BurstAt(msgs, k, pos, cnt, slot, wr);
    StoppedOnlyIfDue(msgs, k, pos, cnt, slot, wr);
    BurstOnBus(msgs, k, pos, cnt, slot, wr);
    var d := msgs[k].data[pos..pos + b.n];
    BytesEqual(d, b.stopped, pos + b.n == |msgs[k].data| && StopDue(msgs, k));
    var h := if pos == 0 then [WriteHeader(msgs[k].addr)] else [];
    var all := BurstEntries(msgs, k, pos, cnt, slot, wr);
    LastIsByte(msgs, k, pos, cnt, slot, wr);
    hide BurstAt, Bytes, BurstEntries, StopDue, FillEnds, IsNop, WritePoint, NonEmpty;
    EqualSplit(h, h, Bytes(d, b.stopped), Bytes(d, pos + b.n == |msgs[k].data| && StopDue(msgs, k)));
    if FillEnds(msgs, k, b, wr) && b.live {
      var front, last := all[..|all| - 1], all[|all| - 1];
      assert all == front + [last];
      DropNopsConcat(front, [last]);
    }
  }

  lemma StoppedOnlyIfDue(msgs: seq<Msg>, k: nat, pos: nat, cnt: nat, slot: nat, wr: nat)
    requires WritePoint(msgs, k, pos, cnt, slot, wr)
    ensures k < |msgs| && pos + BurstAt(msgs, k, pos, cnt, slot, wr).n <= |msgs[k].data|
    ensures BurstAt(msgs, k, pos, cnt, slot, wr).stopped
        ==> pos + BurstAt(msgs, k, pos, cnt, slot, wr).n == |msgs[k].data| && StopDue(msgs, k)
  {
  }

  /** A half-word that is held back carries a byte. */
  lemma LastIsByte(msgs: seq<Msg>, k: nat, pos: nat, cnt: nat, slot: nat, wr: nat)
    requires WritePoint(msgs, k, pos, cnt, slot, wr)
    ensures var all := BurstEntries(msgs, k, pos, cnt, slot, wr);
      |all| >= 2 && (BurstAt(msgs, k, pos, cnt, slot, wr).live ==> DropNops([all[|all| - 1]]) == [all[|all| - 1]])
  {
    var b := BurstAt(msgs, k, pos, cnt, slot, wr);
    var all := BurstEntries(msgs, k, pos, cnt, slot, wr);
    BytesAreTagged(msgs[k].data[pos..pos + b.n], b.stopped);
    DropNopsOf(all[|all| - 1]);
    hide IsNop;
  }

  lemma BytesSplit(d: seq<bv8>, n: nat, stop: bool)
    requires n < |d|
    ensures Bytes(d, stop) == Bytes(d[..n], false) + Bytes(d[n..], stop)
  {
    hide Tagged;
  }

  function Opening(msgs: seq<Msg>, k: nat, pos: nat): seq<bv16>
    requires k < |msgs|
  {
    if pos == 0 then [WriteHeader(msgs[k].addr)] else []
  }

  lemma IntendedWrite(msgs: seq<Msg>, k: nat, pos: nat)
    requires NonEmpty(msgs) && k < |msgs| && msgs[k].Write? && pos < |msgs[k].data|
    ensures Intended(msgs, k, pos) == Opening(msgs, k, pos) + Bytes(msgs[k].data[pos..], StopDue(msgs, k)) + Intended(msgs, k + 1, 0)
  {
    hide StopDue, Bytes;
  }

  /** The messages' entries, split at the bytes of one call. */
  lemma IntendedSplit(msgs: seq<Msg>, k: nat, pos: nat, n: nat)
    requires NonEmpty(msgs) && k < |msgs| && msgs[k].Write? && 1 <= n && pos + n <= |msgs[k].data|
    ensures pos + n < |msgs[k].data| ==>
      && Intended(msgs, k, pos) == Wanted(msgs, k, pos, n) + Intended(msgs, k, pos + n)
      && |Intended(msgs, k, pos + n)| > |Intended(msgs, k + 1, 0)|
    ensures pos + n == |msgs[k].data| ==>
      Intended(msgs, k, pos) == Wanted(msgs, k, pos, n) + Intended(msgs, k + 1, 0)
  {
    hide StopDue, Bytes, Intended;
    var d := msgs[k].data;
    IntendedWrite(msgs, k, pos);
    if pos + n < |d| {
      IntendedWrite(msgs, k, pos + n);
      BytesSplit(d[pos..], n, StopDue(msgs, k));
      assert d[pos..][..n] == d[pos..pos + n] && d[pos..][n..] == d[pos + n..];
      RegroupPairs(Opening(msgs, k, pos), Bytes(d[pos..pos + n], false), Bytes(d[pos + n..], StopDue(msgs, k)),
                   Intended(msgs, k + 1, 0));
    } else {
      assert d[pos..] == d[pos..pos + n];
    }
  }

  lemma ReadOnBus(m: Msg, left: nat)
    requires 1 <= left
    ensures DropNops(ReadCommand(m, left)) == ReadCommand(m, left)
  {
    DropNopsIdentity(ReadCommand(m, left));
  }

  /** One call that ends its fill, and whatever follows it. */
  lemma StepIff(msgs: seq<Msg>, k: nat, pos: nat, cnt: nat, slot: nat, wr: nat, x: seq<bv16>, y: seq<bv16>)
    requires WritePoint(msgs, k, pos, cnt, slot, wr) && |x| <= |y|
    requires y == var to := pos + BurstAt(msgs, k, pos, cnt, slot, wr).n;
      if to == |msgs[k].data| then Intended(msgs, k + 1, 0) else Intended(msgs, k, to)
    ensures var o := DropNops(BurstSent(msgs, k, pos, cnt, slot, wr));
      var b := BurstAt(msgs, k, pos, cnt, slot, wr);
      && |o + x| <= |Intended(msgs, k, pos)|
      && (o + x == Intended(msgs, k, pos) <==>
          (FillEnds(msgs, k, b, wr) ==> !b.live) && (pos + b.n == |msgs[k].data| && StopDue(msgs, k) ==> b.stopped) && x == y)
  {
    hide BurstAt, BurstSent, FillEnds, StopDue, Wanted, Intended;
    var b := BurstAt(msgs, k, pos, cnt, slot, wr);
    BurstSentOnBus(msgs, k, pos, cnt, slot, wr);
    IntendedSplit(msgs, k, pos, b.n);
    EqualSplit(DropNops(BurstSent(msgs, k, pos, cnt, slot, wr)), Wanted(msgs, k, pos, b.n), x, y);
  }

  /** A pass on the bus with what follows it, against what is intended. */
  ghost predicate PassMeets(msgs: seq<Msg>, k: nat, pos: nat, cnt: nat, slot: nat, wr: nat, rest: seq<bv16>)
    requires WritePoint(msgs, k, pos, cnt, slot, wr)
  {
    var p := Pass(msgs, k, pos, cnt, slot, wr);
    && |DropNops(p.sent) + rest| <= |Intended(msgs, k, pos)|
    && (DropNops(p.sent) + rest == Intended(msgs, k, pos)
        <==> FaithfulPass(msgs, k, pos, cnt, slot, wr) && rest == Intended(msgs, p.k, p.pos))
  }

  lemma DropPrepended(o: seq<bv16>, p: Progress, rest: seq<bv16>)
    ensures DropNops(Prepend(o, p).sent) + rest == DropNops(o) + (DropNops(p.sent) + rest)
  {
    DropNopsConcat(o, p.sent);
    hide DropNops;
  }

  lemma MeetsIs(msgs: seq<Msg>, k: nat, pos: nat, cnt: nat, slot: nat, wr: nat, rest: seq<bv16>)
    requires WritePoint(msgs, k, pos, cnt, slot, wr)
    ensures var p := Pass(msgs, k, pos, cnt, slot, wr);
      PassMeets(msgs, k, pos, cnt, slot, wr, rest) <==>
        && |DropNops(p.sent) + rest| <= |Intended(msgs, k, pos)|
        && (DropNops(p.sent) + rest == Intended(msgs, k, pos)
            <==> FaithfulPass(msgs, k, pos, cnt, slot, wr) && rest == Intended(msgs, p.k, p.pos))
  {
    hide DropNops, Intended, Pass, FaithfulPass;
  }

  lemma FaithfulPassIs(msgs: seq<Msg>, k: nat, pos: nat, cnt: nat, slot: nat, wr: nat)
    requires WritePoint(msgs, k, pos, cnt, slot, wr)
    ensures var b := BurstAt(msgs, k, pos, cnt, slot, wr);
      var left := |msgs[k].data| - pos - b.n;
      FaithfulPass(msgs, k, pos, cnt, slot, wr) <==>
        && FaithfulBurst(msgs, k, pos, cnt, slot, wr)
        && (FillEnds(msgs, k, b, wr) && left > 0 ==> FaithfulPass(msgs, k, pos + b.n, left, 0, wr))
        && (!FillEnds(msgs, k, b, wr) && msgs[k + 1].Write? ==>
            FaithfulPass(msgs, k + 1, 0, Min(msgs[k + 1].Len(), 256), b.last + 1, wr))
  {
    hide BurstAt, FaithfulBurst;
  }

  lemma FaithfulBurstIs(msgs: seq<Msg>, k: nat, pos: nat, cnt: nat, slot: nat, wr: nat)
    requires WritePoint(msgs, k, pos, cnt, slot, wr)
    ensures var b := BurstAt(msgs, k, pos, cnt, slot, wr);
      FaithfulBurst(msgs, k, pos, cnt, slot, wr) <==>
        && (FillEnds(msgs, k, b, wr) ==> !b.live)
        && (!FillEnds(msgs, k, b, wr) ==> pos + b.n == |msgs[k].data|)
        && (pos + b.n == |msgs[k].data| && StopDue(msgs, k) ==> b.stopped)
  {
    hide BurstAt;
  }

  /** A call that ends the fill: the message is done or goes on in the next fill. */
  lemma MeetsAtEnd(msgs: seq<Msg>, k: nat, pos: nat, cnt: nat, slot: nat, wr: nat, rest: seq<bv16>)
    requires WritePoint(msgs, k, pos, cnt, slot, wr)
    requires FillEnds(msgs, k, BurstAt(msgs, k, pos, cnt, slot, wr), wr)
    requires var p := Pass(msgs, k, pos, cnt, slot, wr); |rest| <= |Intended(msgs, p.k, p.pos)|
    requires var to := pos + BurstAt(msgs, k, pos, cnt, slot, wr).n;
      var left := msgs[k].Len() - to;
      left > 0 ==> WritePoint(msgs, k, to, left, 0, wr) && PassMeets(msgs, k, to, left, 0, wr, rest)
    ensures PassMeets(msgs, k, pos, cnt, slot, wr, rest)
  {
    hide *;
    WriteAt(msgs, k, pos, cnt, slot, wr);
    var b, o := BurstAt(msgs, k, pos, cnt, slot, wr), BurstSent(msgs, k, pos, cnt, slot, wr);
    var to := pos + b.n;
    var left := msgs[k].Len() - to;
    PassStopsSettled(msgs, k, pos, cnt, slot, wr);
    PassStops(msgs, k, pos, cnt, slot, wr);
    RestIs(msgs, k, to, left, wr);
    var q := Rest(msgs, k, to, left, wr);
    DropPrepended(o, q, rest);
    PrependedPoint(o, q);
    MeetsIs(msgs, k, pos, cnt, slot, wr, rest);
    FaithfulPassIs(msgs, k, pos, cnt, slot, wr);
    FaithfulBurstIs(msgs, k, pos, cnt, slot, wr);
    if left == 0 {
      DropNothing(rest);
      StepIff(msgs, k, pos, cnt, slot, wr, rest, Intended(msgs, k + 1, 0));
    } else {
      MeetsIs(msgs, k, to, left, 0, wr, rest);
      StepIff(msgs, k, pos, cnt, slot, wr, DropNops(q.sent) + rest, Intended(msgs, k, to));
    }
  }

  lemma WriteAt(msgs: seq<Msg>, k: nat, pos: nat, cnt: nat, slot: nat, wr: nat)
    requires WritePoint(msgs, k, pos, cnt, slot, wr)
    ensures k < |msgs| && msgs[k].Write? && NonEmpty(msgs) && msgs[k].Len() == |msgs[k].data|
    ensures pos + BurstAt(msgs, k, pos, cnt, slot, wr).n <= |msgs[k].data|
  {
    hide BurstAt;
  }

  lemma RestIs(msgs: seq<Msg>, k: nat, pos: nat, cnt: nat, wr: nat)
    requires k < |msgs| && msgs[k].Write? && (cnt == 0 || WritePoint(msgs, k, pos, cnt, 0, wr))
    ensures Rest(msgs, k, pos, cnt, wr) == if cnt == 0 then Progress([], k + 1, 0) else Pass(msgs, k, pos, cnt, 0, wr)
  {
  }

  lemma DropNothing(rest: seq<bv16>)
    ensures DropNops([]) + rest == rest
  {
  }

  /** A call followed by another message of the same fill. */
  lemma MeetsWithNext(msgs: seq<Msg>, k: nat, pos: nat, cnt: nat, slot: nat, wr: nat, rest: seq<bv16>)
    requires WritePoint(msgs, k, pos, cnt, slot, wr)
    requires !FillEnds(msgs, k, BurstAt(msgs, k, pos, cnt, slot, wr), wr) && msgs[k + 1].Write?
    requires var next := Min(msgs[k + 1].Len(), 256);
      var last := BurstAt(msgs, k, pos, cnt, slot, wr).last;
      WritePoint(msgs, k + 1, 0, next, last + 1, wr) && PassMeets(msgs, k + 1, 0, next, last + 1, wr, rest)
    ensures PassMeets(msgs, k, pos, cnt, slot, wr, rest)
  {
    hide *;
    WriteAt(msgs, k, pos, cnt, slot, wr);
    NextPoint(msgs, k, pos, cnt, slot, wr);
    RoomForRead(msgs, k, pos, cnt, slot, wr);
    PassGoesOn(msgs, k, pos, cnt, slot, wr);
    var b, next := BurstAt(msgs, k, pos, cnt, slot, wr), Min(msgs[k + 1].Len(), 256);
    var q := Pass(msgs, k + 1, 0, next, b.last + 1, wr);
    DropPrepended(BurstEntries(msgs, k, pos, cnt, slot, wr), q, rest);
    PrependedPoint(BurstEntries(msgs, k, pos, cnt, slot, wr), q);
    MeetsIs(msgs, k, pos, cnt, slot, wr, rest);
    MeetsIs(msgs, k + 1, 0, next, b.last + 1, wr, rest);
    FaithfulPassIs(msgs, k, pos, cnt, slot, wr);
    GoesOnIff(msgs, k, pos, cnt, slot, wr, DropNops(q.sent) + rest);
  }

  /** The same for a read command, which ends the fill. */
  lemma MeetsWithRead(msgs: seq<Msg>, k: nat, pos: nat, cnt: nat, slot: nat, wr: nat, rest: seq<bv16>)
    requires WritePoint(msgs, k, pos, cnt, slot, wr)
    requires !FillEnds(msgs, k, BurstAt(msgs, k, pos, cnt, slot, wr), wr) && msgs[k + 1].Read?
    requires var p := Pass(msgs, k, pos, cnt, slot, wr); |rest| <= |Intended(msgs, p.k, p.pos)|
    ensures PassMeets(msgs, k, pos, cnt, slot, wr, rest)
  {
    hide *;
    WriteAt(msgs, k, pos, cnt, slot, wr);
    NextPoint(msgs, k, pos, cnt, slot, wr);
    RoomForRead(msgs, k, pos, cnt, slot, wr);
    PassReads(msgs, k, pos, cnt, slot, wr);
    var all, next := BurstEntries(msgs, k, pos, cnt, slot, wr), Min(msgs[k + 1].Len(), 256);
    var cmd, q := ReadCommand(msgs[k + 1], msgs[k + 1].Len()), Rest(msgs, k + 1, 0, next, wr);
    ReadRest(msgs, k + 1, next, wr, all + cmd);
    ReadMeets(msgs, k + 1, wr, all, rest);
    PrependedPoint(all + cmd, q);
    MeetsIs(msgs, k, pos, cnt, slot, wr, rest);
    FaithfulPassIs(msgs, k, pos, cnt, slot, wr);
    GoesOnIff(msgs, k, pos, cnt, slot, wr, cmd + rest);
  }

  lemma ReadRest(msgs: seq<Msg>, k: nat, n: nat, wr: nat, sent: seq<bv16>)
    requires k < |msgs| && msgs[k].Read?
    ensures Rest(msgs, k, 0, n, wr) == After(msgs, k, n, [])
    ensures Prepend(sent, Rest(msgs, k, 0, n, wr)).k == After(msgs, k, n, []).k
    ensures Prepend(sent, Rest(msgs, k, 0, n, wr)).pos == After(msgs, k, n, []).pos
  {
  }

  /** The command a read starts with, and what follows it. */
  lemma ReadMeets(msgs: seq<Msg>, k: nat, wr: nat, all: seq<bv16>, rest: seq<bv16>)
    requires NonEmpty(msgs) && k < |msgs| && msgs[k].Read? && msgs[k].Len() >= 1
    requires var q := After(msgs, k, Min(msgs[k].Len(), 256), []); |rest| <= |Intended(msgs, q.k, q.pos)|
    ensures var cmd := ReadCommand(msgs[k], msgs[k].Len());
      var q := After(msgs, k, Min(msgs[k].Len(), 256), []);
      && q == Rest(msgs, k, 0, Min(msgs[k].Len(), 256), wr)
      && DropNops(Prepend(all + cmd, q).sent) + rest == DropNops(all) + (cmd + rest)
      && |cmd + rest| <= |Intended(msgs, k, 0)|
      && (cmd + rest == Intended(msgs, k, 0) <==> rest == Intended(msgs, q.k, q.pos))
  {
    hide DropNops, ReadCommand, Intended, NonEmpty;
    var cmd, q := ReadCommand(msgs[k], msgs[k].Len()), After(msgs, k, Min(msgs[k].Len(), 256), []);
    IntendedRead(msgs, k, 0);
    ReadOnBus(msgs[k], msgs[k].Len());
    DropNopsConcat(all, cmd);
    EqualSplit(cmd, cmd, rest, Intended(msgs, q.k, q.pos));
    assert all + cmd + [] == all + cmd;
    assert DropNops(all) + cmd + rest == DropNops(all) + (cmd + rest);
  }

  lemma IntendedRead(msgs: seq<Msg>, k: nat, pos: nat)
    requires NonEmpty(msgs) && k < |msgs| && msgs[k].Read? && pos < msgs[k].Len()
    ensures var p := After(msgs, k, pos + Min(msgs[k].Len() - pos, 256), []);
      Intended(msgs, k, pos) == ReadCommand(msgs[k], msgs[k].Len() - pos) + Intended(msgs, p.k, p.pos)
  {
    hide ReadCommand, Bytes, StopDue, NonEmpty;
  }

  /** A call after which the fill goes on: nothing is held back for good, but the rest of
      the message is lost if it is not done. */
  lemma GoesOnIff(msgs: seq<Msg>, k: nat, pos: nat, cnt: nat, slot: nat, wr: nat, x: seq<bv16>)
    requires WritePoint(msgs, k, pos, cnt, slot, wr)
    requires !FillEnds(msgs, k, BurstAt(msgs, k, pos, cnt, slot, wr), wr)
    requires |x| <= |Intended(msgs, k + 1, 0)|
    ensures var o := DropNops(BurstSent(msgs, k, pos, cnt, slot, wr));
      && |o + x| <= |Intended(msgs, k, pos)|
      && (o + x == Intended(msgs, k, pos) <==> FaithfulBurst(msgs, k, pos, cnt, slot, wr) && x == Intended(msgs, k + 1, 0))
  {
    hide *;
    WriteAt(msgs, k, pos, cnt, slot, wr);
    var n := BurstAt(msgs, k, pos, cnt, slot, wr).n;
    FaithfulBurstIs(msgs, k, pos, cnt, slot, wr);
    IntendedSplit(msgs, k, pos, n);
    if pos + n < |msgs[k].data| {
      StepIff(msgs, k, pos, cnt, slot, wr, x, Intended(msgs, k, pos + n));
    } else {
      StepIff(msgs, k, pos, cnt, slot, wr, x, Intended(msgs, k + 1, 0));
    }
  }

  /** A pass sends what is intended exactly if each of its calls is faithful. */
  lemma {:induction false} PassIff(msgs: seq<Msg>, k: nat, pos: nat, cnt: nat, slot: nat, wr: nat, rest: seq<bv16>)
    requires WritePoint(msgs, k, pos, cnt, slot, wr)
    requires var p := Pass(msgs, k, pos, cnt, slot, wr); |rest| <= |Intended(msgs, p.k, p.pos)|
    ensures PassMeets(msgs, k, pos, cnt, slot, wr, rest)
    decreases |msgs| - k, msgs[k].Len() - pos
  {
    hide *;
    WriteAt(msgs, k, pos, cnt, slot, wr);
    var b := BurstAt(msgs, k, pos, cnt, slot, wr);
    if FillEnds(msgs, k, b, wr) {
      PassStopsSettled(msgs, k, pos, cnt, slot, wr);
      PassStops(msgs, k, pos, cnt, slot, wr);
      var left := msgs[k].Len() - pos - b.n;
      RestIs(msgs, k, pos + b.n, left, wr);
      PrependedPoint(BurstSent(msgs, k, pos, cnt, slot, wr), Rest(msgs, k, pos + b.n, left, wr));
      if left > 0 {
        PassIff(msgs, k, pos + b.n, left, 0, wr, rest);
      }
      MeetsAtEnd(msgs, k, pos, cnt, slot, wr, rest);
    } else {
      NextPoint(msgs, k, pos, cnt, slot, wr);
      if msgs[k + 1].Read? {
        MeetsWithRead(msgs, k, pos, cnt, slot, wr, rest);
      } else {
        var next := Min(msgs[k + 1].Len(), 256);
        PassGoesOn(msgs, k, pos, cnt, slot, wr);
        PrependedPoint(BurstEntries(msgs, k, pos, cnt, slot, wr), Pass(msgs, k + 1, 0, next, b.last + 1, wr));
        PassIff(msgs, k + 1, 0, next, b.last + 1, wr, rest);
        MeetsWithNext(msgs, k, pos, cnt, slot, wr, rest);
      }
    }
  }

  /** What one pass of the transfer loop has to fulfil. */
  predicate FaithfulAt(g: Geometry, msgs: seq<Msg>, k: nat, pos: nat)
    requires ValidGeometry(g) && PassPoint(msgs, k, pos) && k < |msgs|
  {
    msgs[k].Write? ==> FaithfulPass(msgs, k, 0, msgs[k].Len(), 0, FillSize(g, msgs, k))
  }

  /** One pass of the transfer loop with what follows it. */
  lemma PassAtIff(g: Geometry, msgs: seq<Msg>, k: nat, pos: nat, rest: seq<bv16>)
    requires ValidGeometry(g) && PassPoint(msgs, k, pos) && k < |msgs|
    requires var p := PassAt(g, msgs, k, pos); |rest| <= |Intended(msgs, p.k, p.pos)|
    ensures var p := PassAt(g, msgs, k, pos);
      && |DropNops(p.sent) + rest| <= |Intended(msgs, k, pos)|
      && (DropNops(p.sent) + rest == Intended(msgs, k, pos) <==> FaithfulAt(g, msgs, k, pos) && rest == Intended(msgs, p.k, p.pos))
  {
    if msgs[k].Read? {
      ReadPassIff(g, msgs, k, pos, rest);
    } else {
      WritePassIs(g, msgs, k);
      hide *;
      PassIff(msgs, k, 0, msgs[k].Len(), 0, FillSize(g, msgs, k), rest);
      MeetsIs(msgs, k, 0, msgs[k].Len(), 0, FillSize(g, msgs, k), rest);
    }
  }

  lemma WritePassIs(g: Geometry, msgs: seq<Msg>, k: nat)
    requires ValidGeometry(g) && PassPoint(msgs, k, 0) && k < |msgs| && msgs[k].Write?
    ensures var wr := FillSize(g, msgs, k);
      && WritePoint(msgs, k, 0, msgs[k].Len(), 0, wr)
      && PassAt(g, msgs, k, 0) == Pass(msgs, k, 0, msgs[k].Len(), 0, wr)
      && (FaithfulAt(g, msgs, k, 0) <==> FaithfulPass(msgs, k, 0, msgs[k].Len(), 0, wr))
  {
    hide Pass, FaithfulPass, ChainLen;
  }

  lemma ReadPassIff(g: Geometry, msgs: seq<Msg>, k: nat, pos: nat, rest: seq<bv16>)
    requires ValidGeometry(g) && PassPoint(msgs, k, pos) && k < |msgs| && msgs[k].Read?
    requires var p := PassAt(g, msgs, k, pos); |rest| <= |Intended(msgs, p.k, p.pos)|
    ensures var p := PassAt(g, msgs, k, pos);
      && |DropNops(p.sent) + rest| <= |Intended(msgs, k, pos)|
      && (DropNops(p.sent) + rest == Intended(msgs, k, pos) <==> rest == Intended(msgs, p.k, p.pos))
  {
    ReadPassIs(g, msgs, k, pos);
    hide *;
    var p := PassAt(g, msgs, k, pos);
    IntendedRead(msgs, k, pos);
    ReadOnBus(msgs[k], msgs[k].Len() - pos);
    EqualSplit(p.sent, p.sent, rest, Intended(msgs, p.k, p.pos));
  }

  lemma ReadPassIs(g: Geometry, msgs: seq<Msg>, k: nat, pos: nat)
    requires ValidGeometry(g) && PassPoint(msgs, k, pos) && k < |msgs| && msgs[k].Read?
    ensures NonEmpty(msgs) && pos < msgs[k].Len()
    ensures var p := PassAt(g, msgs, k, pos);
      var q := After(msgs, k, pos + Min(msgs[k].Len() - pos, 256), []);
      p.sent == ReadCommand(msgs[k], msgs[k].Len() - pos) && p.k == q.k && p.pos == q.pos
  {
    hide ReadCommand;
  }

  /** The main result: without its NOPs, what the transfer loop puts into the FIFO is what
      the messages ask for exactly if the message list is faithful. */
  lemma {:induction false} TransferIff(g: Geometry, msgs: seq<Msg>, k: nat, pos: nat)
    requires ValidGeometry(g) && PassPoint(msgs, k, pos)
    ensures |DropNops(Transfer(g, msgs, k, pos))| <= |Intended(msgs, k, pos)|
    ensures DropNops(Transfer(g, msgs, k, pos)) == Intended(msgs, k, pos) <==> Faithful(g, msgs, k, pos)
    decreases |msgs| - k, if k < |msgs| then msgs[k].Len() - pos else 0
  {
    if k < |msgs| {
      var p := PassAt(g, msgs, k, pos);
      TransferIff(g, msgs, p.k, p.pos);
      PassAtIff(g, msgs, k, pos, DropNops(Transfer(g, msgs, p.k, p.pos)));
      DropNopsConcat(p.sent, Transfer(g, msgs, p.k, p.pos));
      hide DropNops, Intended, PassAt, FaithfulAt, NonEmpty;
    }
  }
}
