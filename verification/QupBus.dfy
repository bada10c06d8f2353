/** What a transfer means on the bus: the controller's reading of the entries, against what
    the messages ask for in terms of addresses, bytes and lengths. */
module QupBus {
  import opened QupWords
  import opened QupSchedule
  import opened QupTheorems
  import opened QupLayout

  /** Each byte is sent once, in order; the last one is followed by a STOP if one is due. */
  function Sends(d: seq<bv8>, stop: bool): (s: seq<Op>)
    ensures |s| == |d|
  {
    seq(|d|, i requires 0 <= i < |d| => Send(d[i], stop && i == |d| - 1))
  }

  /** What the messages ask the controller to do from byte `pos` of message `k` on. */
  function Asked(msgs: seq<Msg>, k: nat, pos: nat): seq<Op>
    requires NonEmpty(msgs) && k <= |msgs| && (pos > 0 ==> k < |msgs| && pos < msgs[k].Len())
    decreases |msgs| - k, if k < |msgs| then msgs[k].Len() - pos else 0
  {
    if k == |msgs| then []
    else if msgs[k].Write? then
      (if pos == 0 then [Address(msgs[k].addr, false)] else [])
      + Sends(msgs[k].data[pos..], StopDue(msgs, k))
      + Asked(msgs, k + 1, 0)
    else
      var left := msgs[k].Len() - pos;
      [Address(msgs[k].addr, true), Take(Min(left, 256) as bv16)]
      + if left <= 256 then Asked(msgs, k + 1, 0) else Asked(msgs, k, pos + 256)
  }

  /** From message `k` on, all slaves have 7-bit addresses. */
  predicate SevenBit(msgs: seq<Msg>, k: nat) {
    forall i :: k <= i < |msgs| ==> msgs[i].addr < 0x80
  }

  lemma {:induction false} BusConcat(a: seq<bv16>, b: seq<bv16>)
    ensures Bus(a + b) == Bus(a) + Bus(b)
  {
    if a == [] {
      assert a + b == b;
    } else {
      BusConcat(a[1..], b);
      hide OpOf;
      assert (a + b)[1..] == a[1..] + b && (a + b)[0] == a[0];
    }
  }

  lemma BusOne(h: bv16)
    ensures Bus([h]) == if OpOf(h) == Idle then [] else [OpOf(h)]
    ensures Bus([]) == []
  {
    assert [h][1..] == [];
    hide OpOf;
  }

  /** NOPs do not matter. */
  lemma {:induction false} BusDrops(s: seq<bv16>)
    ensures Bus(s) == Bus(DropNops(s))
  {
    if s != [] {
      BusDrops(s[1..]);
      IdleIsNop(s[0]);
      BusOne(s[0]);
      hide OpOf, IsNop;
      BusConcat(if IsNop(s[0]) then [] else [s[0]], DropNops(s[1..]));
    }
  }

  /** Entries that all mean something differ in what they mean. */
  lemma {:induction false} BusInjective(a: seq<bv16>, b: seq<bv16>)
    requires Bus(a) == Bus(b) && |Bus(a)| == |a| && |Bus(b)| == |b|
    ensures a == b
  {
    if a != [] {
      FirstActs(a);
      FirstActs(b);
      hide *;
      OpInjective(a[0], b[0]);
      BusInjective(a[1..], b[1..]);
      assert a == [a[0]] + a[1..] && b == [b[0]] + b[1..];
    }
  }

  lemma FirstActs(s: seq<bv16>)
    requires s != [] && |Bus(s)| == |s|
    ensures OpOf(s[0]) != Idle && Bus(s)[0] == OpOf(s[0])
    ensures Bus(s)[1..] == Bus(s[1..]) && |Bus(s[1..])| == |s[1..]|
  {
    BusAtMost(s[1..]);
    hide OpOf, DropNops;
  }

  lemma {:induction false} BusAtMost(s: seq<bv16>)
    ensures |Bus(s)| <= |s|
    ensures |Bus(s)| == |s| <==> DropNops(s) == s
  {
    hide OpOf, IsNop;
    if s != [] {
      BusAtMost(s[1..]);
      IdleIsNop(s[0]);
      DropNopsAtMost(s[1..]);
      assert [s[0]] + s[1..] == s;
    }
  }

  lemma {:induction false} DropNopsAtMost(s: seq<bv16>)
    ensures |DropNops(s)| <= |s|
  {
    if s != [] {
      DropNopsAtMost(s[1..]);
    }
  }

  /** A run of bytes as the controller takes it. */
  lemma {:induction false} BytesOnBus(d: seq<bv8>, stop: bool)
    ensures Bus(Bytes(d, stop)) == Sends(d, stop)
    decreases |d|
  {
    if d != [] {
      var b := Bytes(d, stop);
      BytesOnBus(d[1..], stop);
      BytesDecode(d[0]);
      hide OpOf, Tagged;
      assert b[1..] == Bytes(d[1..], stop);
      assert Sends(d, stop) == [Sends(d, stop)[0]] + Sends(d[1..], stop);
    }
  }

  lemma ReadOnBusDecodes(m: Msg, left: nat)
    requires 1 <= left
    ensures |Bus(ReadCommand(m, left))| == 2
    ensures m.addr < 0x80 ==> Bus(ReadCommand(m, left)) == [Address(m.addr, true), Take(Min(left, 256) as bv16)]
  {
    var h, t := ReadHeader(m.addr), Receive(Min(left, 256));
    HeadersDecode(m.addr);
    ReceiveDecodes(Min(left, 256));
    IdleIsNop(h);
    hide OpOf, IsNop, ReadHeader, Receive;
    BusOne(h);
    BusOne(t);
    BusConcat([h], [t]);
    assert [h] + [t] == ReadCommand(m, left);
  }

  lemma OpeningOnBus(addr: bv16)
    ensures |Bus([WriteHeader(addr)])| == 1
    ensures addr < 0x80 ==> Bus([WriteHeader(addr)]) == [Address(addr, false)]
  {
    HeadersDecode(addr);
    IdleIsNop(WriteHeader(addr));
    BusOne(WriteHeader(addr));
    hide OpOf, IsNop, WriteHeader;
  }

  /** The controller takes what is intended for what the messages ask. */
  lemma {:induction false} IntendedOnBus(msgs: seq<Msg>, k: nat, pos: nat)
    requires NonEmpty(msgs) && k <= |msgs| && (pos > 0 ==> k < |msgs| && pos < msgs[k].Len())
    ensures Understood(msgs, k, pos)
    decreases |msgs| - k, if k < |msgs| then msgs[k].Len() - pos else 0
  {
    if k < |msgs| {
      if msgs[k].Write? {
        IntendedOnBus(msgs, k + 1, 0);
        WriteUnderstood(msgs, k, pos);
      } else if msgs[k].Len() - pos <= 256 {
        IntendedOnBus(msgs, k + 1, 0);
        ReadUnderstood(msgs, k, pos);
      } else {
        IntendedOnBus(msgs, k, pos + 256);
        ReadUnderstood(msgs, k, pos);
      }
      hide Understood, Intended;
    }
  }

  ghost predicate Understood(msgs: seq<Msg>, k: nat, pos: nat)
    requires NonEmpty(msgs) && k <= |msgs| && (pos > 0 ==> k < |msgs| && pos < msgs[k].Len())
  {
    && |Bus(Intended(msgs, k, pos))| == |Intended(msgs, k, pos)|
    && (SevenBit(msgs, k) ==> Bus(Intended(msgs, k, pos)) == Asked(msgs, k, pos))
  }

  lemma WriteUnderstood(msgs: seq<Msg>, k: nat, pos: nat)
    requires NonEmpty(msgs) && k < |msgs| && msgs[k].Write? && pos < msgs[k].Len() && Understood(msgs, k + 1, 0)
    ensures Understood(msgs, k, pos)
  {
    var head, bytes := if pos == 0 then [WriteHeader(msgs[k].addr)] else [], Bytes(msgs[k].data[pos..], StopDue(msgs, k));
    OpeningOnBus(msgs[k].addr);
    BytesOnBus(msgs[k].data[pos..], StopDue(msgs, k));
    hide OpOf, Bytes, Sends, StopDue, WriteHeader, NonEmpty;
    BusConcat(head + bytes, Intended(msgs, k + 1, 0));
    BusConcat(head, bytes);
    assert Intended(msgs, k, pos) == head + bytes + Intended(msgs, k + 1, 0);
  }

  lemma ReadUnderstood(msgs: seq<Msg>, k: nat, pos: nat)
    requires NonEmpty(msgs) && k < |msgs| && msgs[k].Read? && pos < msgs[k].Len()
    requires if msgs[k].Len() - pos <= 256 then Understood(msgs, k + 1, 0) else Understood(msgs, k, pos + 256)
    ensures Understood(msgs, k, pos)
  {
    var left := msgs[k].Len() - pos;
    var rest := if left <= 256 then Intended(msgs, k + 1, 0) else Intended(msgs, k, pos + 256);
    ReadOnBusDecodes(msgs[k], left);
    BusConcat(ReadCommand(msgs[k], left), rest);
    assert Intended(msgs, k, pos) == ReadCommand(msgs[k], left) + rest;
    hide Bus, Intended, StopDue, NonEmpty;
  }

  /** Every message asks for its own address. */
  lemma {:induction false} AskedAddress(msgs: seq<Msg>, k: nat, pos: nat, i: nat)
    requires PassPoint(msgs, k, pos) && k <= i < |msgs|
    ensures Address(msgs[i].addr, msgs[i].Read?) in Asked(msgs, k, pos)
    decreases |msgs| - k, if k < |msgs| then msgs[k].Len() - pos else 0
  {
    if msgs[k].Write? {
      if i > k {
        AskedAddress(msgs, k + 1, 0, i);
      }
    } else if i > k {
      if msgs[k].Len() - pos <= 256 {
        AskedAddress(msgs, k + 1, 0, i);
      } else {
        AskedAddress(msgs, k, pos + 256, i);
      }
    }
  }

  /** The controller never sees a longer address. */
  lemma {:induction false} BusNarrow(s: seq<bv16>)
    ensures forall op :: op in Bus(s) && op.Address? ==> op.addr < 0x80
  {
    if s != [] {
      BusNarrow(s[1..]);
      AddressNarrow(s[0]);
      hide OpOf;
    }
  }

  lemma AddressNarrow(h: bv16)
    ensures OpOf(h).Address? ==> OpOf(h).addr < 0x80
  {
  }

  /** On the bus, a transfer is what the messages ask for exactly if all slaves have 7-bit
      addresses and the transfer is aligned. */
  lemma TransferOnBusIff(g: Geometry, msgs: seq<Msg>, k: nat, pos: nat)
    requires ValidGeometry(g) && PassPoint(msgs, k, pos)
    ensures Bus(Transfer(g, msgs, k, pos)) == Asked(msgs, k, pos) <==> AlignedTransfer(g, msgs, k, pos) && SevenBit(msgs, k)
  {
    hide *;
    PassPointIs(msgs, k, pos);
    var sent, want := Transfer(g, msgs, k, pos), Intended(msgs, k, pos);
    AlignedTransferIff(g, msgs, k, pos);
    BusDrops(sent);
    IntendedOnBus(msgs, k, pos);
    UnderstoodIs(msgs, k, pos);
    if Bus(sent) == Asked(msgs, k, pos) {
      AllSevenBit(msgs, k, pos, sent);
      DroppedStay(sent);
      BusInjective(DropNops(sent), want);
    }
  }

  lemma UnderstoodIs(msgs: seq<Msg>, k: nat, pos: nat)
    requires NonEmpty(msgs) && k <= |msgs| && (pos > 0 ==> k < |msgs| && pos < msgs[k].Len()) && Understood(msgs, k, pos)
    ensures |Bus(Intended(msgs, k, pos))| == |Intended(msgs, k, pos)|
    ensures SevenBit(msgs, k) ==> Bus(Intended(msgs, k, pos)) == Asked(msgs, k, pos)
  {
  }

  lemma PassPointIs(msgs: seq<Msg>, k: nat, pos: nat)
    requires PassPoint(msgs, k, pos)
    ensures NonEmpty(msgs) && k <= |msgs| && (pos > 0 ==> k < |msgs| && pos < msgs[k].Len())
  {
  }

  lemma AllSevenBit(msgs: seq<Msg>, k: nat, pos: nat, sent: seq<bv16>)
    requires PassPoint(msgs, k, pos) && Bus(sent) == Asked(msgs, k, pos)
    ensures SevenBit(msgs, k)
  {
    hide Bus, Asked, NonEmpty;
    BusNarrow(sent);
    forall i | k <= i < |msgs|
      ensures msgs[i].addr < 0x80
    {
      AskedAddress(msgs, k, pos, i);
    }
  }

  lemma {:induction false} DroppedStay(s: seq<bv16>)
    ensures |Bus(DropNops(s))| == |DropNops(s)|
  {
    if s != [] {
      DroppedStay(s[1..]);
      IdleIsNop(s[0]);
      BusOne(s[0]);
      hide OpOf, IsNop;
      BusConcat(if IsNop(s[0]) then [] else [s[0]], DropNops(s[1..]));
    }
  }
}
