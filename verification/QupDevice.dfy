/** The register-level transfer engine. */
module QupDevice {
  import opened QupWords
  import opened QupSchedule
  import opened QupRefinement
  import opened QupInput
  import opened QupLayout
  import opened QupBus

  /** The buffers a list of messages receives into. */
  ghost function ReadBuffers(msgs: seq<Msg>): set<array<bv8>> {
    set i: nat | i < |msgs| && msgs[i].Read? :: msgs[i].buf
  }

  /** What the read buffers hold, message by message. */
  ghost function Contents(msgs: seq<Msg>): (c: seq<seq<bv8>>)
    reads ReadBuffers(msgs)
    ensures |c| == |msgs|
  {
    seq(|msgs|, i requires 0 <= i < |msgs| reads ReadBuffers(msgs) => if msgs[i].Read? then msgs[i].buf[..] else [])
  }

  lemma ContentLen(msgs: seq<Msg>, k: nat)
    requires k < |msgs| && msgs[k].Read?
    ensures |Contents(msgs)[k]| == msgs[k].Len()
  {
  }

  /** How many bytes the controller was last told to take. */
  function LastTake(words: seq<bv32>): nat {
    var s := Entries(words);
    if s == [] then 0
    else
      match OpOf(s[|s| - 1])
      case Take(n) => n as nat
      case _ => 0
  }

  lemma CommandTakes(words: seq<bv32>, before: seq<bv16>, m: Msg, left: nat)
    requires 1 <= left && Entries(words) == before + ReadCommand(m, left)
    ensures LastTake(words) == Min(left, 256)
  {
    ReceiveDecodes(Min(left, 256));
    hide OpOf, ReadHeader, Receive;
  }

  /** How a pass began. */
  datatype Start = Start(k: nat, pos: nat, asked: nat, contents: seq<seq<bv8>>, over: bool)

  class Device {
    const geom: Geometry
    var pos: nat
    var cnt: nat
    var wrSz: nat
    /** Every word written to the output FIFO register, oldest first. */
    var fifo: seq<bv32>
    /** Words waiting in the input FIFO. */
    var rx: seq<bv32>
    /** Read commands issued so far. */
    var asked: nat
    /** The write count register, valid in block mode. */
    var wrCount: nat
    /** Some fill has written more words than it has room for. */
    ghost var overfull: bool

    /** The first transfer reads the sizes from the I/O mode register. */
    constructor (modeReg: bv32)
      ensures geom == SizesOf(modeReg) && ValidGeometry(geom)
      ensures pos == 0 && cnt == 0 && fifo == [] && rx == [] && asked == 0 && !overfull
    {
      geom := SizesOf(modeReg);
      pos, cnt, wrSz, fifo, rx, asked, wrCount := 0, 0, 0, [], [], 0, 0;
      overfull := false;
    }

    method Write(lo: bv16, hi: bv16)
      modifies this`fifo
      ensures Entries(fifo) == Entries(old(fifo)) + Half(lo) + Half(hi)
      ensures |fifo| == |old(fifo)| + 1
    {
      EntriesAppend(fifo, lo, hi);
      fifo := fifo + [Word(lo, hi)];
    }

    /** The first entry of a call: a header, or a NOP when a message is resumed. */
    method IssueHeader(msg: Msg, idx: nat, carry: bv16, ghost slot: nat) returns (val: bv16)
      requires idx == 2 * slot && (pos > 0 ==> slot == 0)
      modifies this`fifo
      ensures InFlight(fifo, Odd(slot + 1), val)
           == InFlight(old(fifo), Odd(slot), carry) + [if pos == 0 then WriteHeader(msg.addr) else NOP]
      ensures |fifo| == |old(fifo)| + Words(slot + 1) - Words(slot)
    {
      SlotOf(idx, slot);
      val := 0;
      if pos == 0 {
        if idx % 4 != 0 {
          Write(carry, WriteHeader(msg.addr));
        } else {
          val := WriteHeader(msg.addr);
        }
      } else {
        val := NOP;
      }
    }

    /** One data byte in the middle of a call. */
    method IssueByte(b: bv8, idx: nat, held: bv16, ghost slot: nat) returns (val: bv16)
      requires idx == 2 * slot
      modifies this`fifo
      ensures InFlight(fifo, Odd(slot + 1), val) == InFlight(old(fifo), Odd(slot), held) + Half(Tagged(DATA, b))
      ensures |fifo| == |old(fifo)| + Words(slot + 1) - Words(slot)
    {
      SlotOf(idx, slot);
      val := held;
      if idx % 4 != 0 {
        Write(val, Tagged(DATA, b));
      } else {
        val := Tagged(DATA, b);
      }
    }

    /** The last entry of a call, with its tag. `p0`, `c0` and `slot` tell which call it is. */
    method IssueLast(msgs: seq<Msg>, k: nat, idx0: nat, val: bv16, carry0: bv16, ghost p0: nat, ghost c0: nat,
                     ghost slot: nat)
      returns (idx: nat, carry: bv16)
      requires WritePoint(msgs, k, p0, c0, slot, wrSz)
      requires var b := BurstAt(msgs, k, p0, c0, slot, wrSz); pos == p0 + b.n - 1 && idx0 == 2 * b.last
      modifies this`fifo
      ensures var b := BurstAt(msgs, k, p0, c0, slot, wrSz);
        && idx == 2 * NextSlot(msgs, k, b)
        && InFlight(fifo, b.live, carry)
           == InFlight(old(fifo), Odd(b.last), val) + Tail(b, msgs[k].data[pos])
        && |fifo| == |old(fifo)| + (if b.live then 0 else 1)
        && (b.live ==> Half(carry) == [carry])
    {
      assert k < |msgs| && msgs[k].Write?;
      hide Entries, InFlight, Tagged, Half, IsNop, BurstAt, WritePoint, Odd;
      LastCases(msgs, k, p0, c0, slot, wrSz, idx0);
      NopIsNoFiller();
      TaggedIsNoNop(msgs[k].data[pos]);
      var rem := |msgs| - k;
      var msg := msgs[k];
      idx, carry := idx0, carry0;
      var lastEntry := if pos < |msg.data| - 1 || rem > 1 then DATA else STOP;
      if idx % 4 == 0 {
        if rem > 1 {
          var next := msgs[k + 1];
          if next.addr == msg.addr && next.Read? && idx == wrSz * 2 - 4 {
            Write(Tagged(lastEntry, msg.data[pos]), NOP);
            WordStored(old(fifo), fifo, Tagged(lastEntry, msg.data[pos]), NOP, val, carry);
            idx := idx + 2;
          } else if pos == |msg.data| - 1 && idx < wrSz * 2 && next.addr != msg.addr {
            Write(Tagged(STOP, msg.data[pos]), 0);
            WordStored(old(fifo), fifo, Tagged(STOP, msg.data[pos]), 0, val, carry);
            idx := idx + 2;
          } else {
            carry := Tagged(lastEntry, msg.data[pos]);
            HeldBack(fifo, carry, val);
          }
        } else {
          Write(Tagged(lastEntry, msg.data[pos]), 0);
          WordStored(old(fifo), fifo, Tagged(lastEntry, msg.data[pos]), 0, val, carry);
        }
      } else {
        Write(val, Tagged(lastEntry, msg.data[pos]));
        WordStored(old(fifo), fifo, val, Tagged(lastEntry, msg.data[pos]), val, carry);
      }
      idx := idx + 2;
    }

    /** The loop over all but the last byte of a call. */
    method IssueBytes(d: seq<bv8>, entries: int, idx0: nat, held: bv16, ghost slot: nat) returns (idx: nat, val: bv16)
      requires idx0 == 2 * slot && pos + entries - 2 <= |d| && pos <= |d|
      modifies this`pos, this`fifo
      ensures pos == old(pos) + (if entries > 2 then entries - 2 else 0) <= |d| && idx == 2 * (slot + pos - old(pos))
      ensures InFlight(fifo, Odd(slot + pos - old(pos)), val)
           == InFlight(old(fifo), Odd(slot), held) + Bytes(d[old(pos)..pos], false)
      ensures |fifo| == |old(fifo)| + Words(slot + pos - old(pos)) - Words(slot)
    {
      hide Odd, Words, QupWords.InFlight, QupWords.Tagged, QupWords.Half, QupWords.Bytes;
      idx, val := idx0, held;
      var i := 1;
      ghost var at := slot;
      while i < entries - 1
        invariant 1 <= i && (i <= entries - 1 || i == 1) && pos == old(pos) + i - 1
        invariant idx == 2 * at && at == slot + i - 1
        invariant InFlight(fifo, Odd(at), val) == InFlight(old(fifo), Odd(slot), held) + Bytes(d[old(pos)..pos], false)
        invariant |fifo| == |old(fifo)| + Words(at) - Words(slot)
      {
        BytesEnd(d, old(pos), pos, false);
        val := IssueByte(d[pos], idx, val, at);
        idx, at := idx + 2, at + 1;
        pos := pos + 1;
        i := i + 1;
      }
    }

    /** A call up to the byte before its last: the header and the loop. */
    method IssueOpen(msgs: seq<Msg>, k: nat, idx0: nat, carry: bv16, ghost slot: nat) returns (idx: nat, val: bv16)
      requires idx0 == 2 * slot && WritePoint(msgs, k, pos, cnt, slot, wrSz)
      modifies this`pos, this`fifo
      ensures var b := BurstAt(msgs, k, old(pos), cnt, slot, wrSz);
        && pos == old(pos) + b.n - 1 && idx == 2 * b.last && pos < |msgs[k].data|
        && InFlight(fifo, Odd(b.last), val)
           == InFlight(old(fifo), Odd(slot), carry) + Head(msgs[k], old(pos), pos)
        && |fifo| == |old(fifo)| + Words(b.last) - Words(slot)
    {
      hide Odd, Words, InFlight, Bytes, BurstAt;
      var msg := msgs[k];
      var entries: int := cnt;
      var emptySl := wrSz - idx0 / 2;
      ghost var b := BurstAt(msgs, k, pos, cnt, slot, wrSz);
      val := IssueHeader(msg, idx0, carry, slot);
      idx := idx0 + 2;
      entries := entries + 1;
      if entries > emptySl {
        entries := emptySl;
      }
      idx, val := IssueBytes(msg.data, entries, idx, val, slot + 1);
      assert slot + 1 + pos - old(pos) == b.last;
    }

    method IssueWrite(msgs: seq<Msg>, k: nat, idx0: nat, carry0: bv16, ghost slot: nat) returns (idx: nat, carry: bv16)
      requires idx0 == 2 * slot && WritePoint(msgs, k, pos, cnt, slot, wrSz)
      modifies this`pos, this`cnt, this`fifo
      ensures var b := BurstAt(msgs, k, old(pos), old(cnt), slot, wrSz);
        && pos == old(pos) + b.n && cnt == |msgs[k].data| - pos
        && idx == 2 * NextSlot(msgs, k, b)
        && InFlight(fifo, b.live, carry)
           == InFlight(old(fifo), Odd(slot), carry0) + BurstEntries(msgs, k, old(pos), old(cnt), slot, wrSz)
        && |fifo| == |old(fifo)| + Words(b.last) - Words(slot) + (if b.live then 0 else 1)
        && (b.live ==> Half(carry) == [carry])
    {
      hide *;
      PointIs(msgs, k, pos, cnt, slot, wrSz);
      ghost var b, p0 := BurstAt(msgs, k, pos, cnt, slot, wrSz), pos;
      BurstAfter(InFlight(fifo, Odd(slot), carry0), msgs, k, pos, cnt, slot, wrSz);
      var size := |msgs[k].data|;
      var val: bv16;
      idx, val := IssueOpen(msgs, k, idx0, carry0, slot);
      idx, carry := IssueLast(msgs, k, idx, val, carry0, p0, cnt, slot);
      assert pos == p0 + b.n - 1;
      pos := pos + 1;
      cnt := size - pos;
    }

    /** START and REC of a read; `idx0 + 4 <= 2 * wrSz` keeps both in one fill. */
    method IssueRead(msg: Msg, idx0: nat, carry: bv16, ghost slot: nat, ghost left: nat) returns (idx: nat)
      requires idx0 == 2 * slot && idx0 + 4 <= 2 * wrSz && wrSz % 2 == 0 && 1 <= cnt == Min(left, 256)
      modifies this`fifo
      ensures idx == idx0 + 4
      ensures Entries(fifo) == InFlight(old(fifo), Odd(slot), carry) + ReadCommand(msg, left)
      ensures |fifo| + Words(slot) <= |old(fifo)| + wrSz / 2
      ensures |fifo| > |old(fifo)|
    {
      SlotOf(idx0, slot);
      RoomOf(slot, wrSz);
      ReadEntries(fifo, carry, msg, left);
      hide Entries, InFlight, Half, ReadHeader, Receive, ReadCommand, Odd, Words;
      if idx0 % 4 != 0 {
        Write(carry, ReadHeader(msg.addr));
        Write(Receive(cnt), 0);
      } else {
        Write(ReadHeader(msg.addr), Receive(cnt));
      }
      idx := idx0 + 4;
    }

    /** One round of the fill loop: a call of the read or write routine, then the decision
        whether to go on with the next message. */
    method FillRound(msgs: seq<Msg>, k0: nat, idx0: nat, carry0: bv16, ghost slot0: nat, ghost goal: Progress,
                     ghost base: nat)
      returns (k: nat, idx: nat, carry: bv16, filled: bool, ghost slot: nat)
      requires k0 < |msgs| && idx0 == 2 * slot0 && |fifo| == base + Words(slot0)
      requires msgs[k0].Write? ==> Open(InFlight(fifo, Odd(slot0), carry0), msgs, k0, pos, cnt, slot0, wrSz, goal)
      requires msgs[k0].Read? ==> ReadDue(InFlight(fifo, Odd(slot0), carry0), msgs, k0, pos, cnt, slot0, wrSz, goal)
      modifies this`pos, this`cnt, this`fifo
      ensures k < |msgs| && k0 <= k && (filled ==> k == k0) && (!filled ==> k == k0 + 1)
      ensures filled && msgs[k].Write? ==> pos > old(pos)
      ensures filled && msgs[k].Read? ==> pos == old(pos) && cnt == old(cnt) && LastTake(fifo) == cnt
      ensures !filled ==> pos == 0
      ensures filled ==> Closed(Entries(fifo), msgs, k, pos, cnt, wrSz, goal)
      ensures filled && msgs[k0].Read? ==> |fifo| <= base + wrSz / 2
      ensures filled && msgs[k0].Write? ==>
        (|fifo| > base + wrSz / 2 <==> OpenOverruns(msgs, k0, old(pos), old(cnt), slot0, wrSz))
      ensures !filled ==> idx == 2 * slot && |fifo| == base + Words(slot) && msgs[k0].Write?
      ensures !filled && msgs[k].Write? ==>
        && Open(InFlight(fifo, Odd(slot), carry), msgs, k, pos, cnt, slot, wrSz, goal)
        && OpenOverruns(msgs, k0, old(pos), old(cnt), slot0, wrSz) == OpenOverruns(msgs, k, pos, cnt, slot, wrSz)
      ensures !filled && msgs[k].Read? ==>
        && ReadDue(InFlight(fifo, Odd(slot), carry), msgs, k, pos, cnt, slot, wrSz, goal)
        && !OpenOverruns(msgs, k0, old(pos), old(cnt), slot0, wrSz)
      ensures AheadOverruns(msgs, k0, old(pos), old(cnt), slot0, wrSz) == if filled
        then OpenOverruns(msgs, k0, old(pos), old(cnt), slot0, wrSz) || AheadOverruns(msgs, k, pos, cnt, 0, wrSz)
        else AheadOverruns(msgs, k, pos, cnt, slot, wrSz)
    {
      hide *;
      k, idx, carry, filled, slot := k0, idx0, carry0, false, slot0;
      var rem := |msgs| - k;
      if msgs[k].Read? {
        DueAsks(InFlight(fifo, Odd(slot), carry), msgs, k, pos, cnt, slot, wrSz, goal);
        ReadNeverAhead(msgs, k, pos, cnt, slot, wrSz);
        ReadNeverAhead(msgs, k, pos, cnt, 0, wrSz);
        ghost var before := InFlight(fifo, Odd(slot), carry);
        idx := IssueRead(msgs[k], idx, carry, slot, msgs[k].Len() - pos);
        CommandTakes(fifo, before, msgs[k], msgs[k].Len() - pos);
        filled := true;
        return;
      }
      ghost var flow, p0, c0 := InFlight(fifo, Odd(slot), carry), pos, cnt;
      OpenPoint(flow, msgs, k, pos, cnt, slot, wrSz, goal);
      idx, carry := IssueWrite(msgs, k, idx, carry, slot);
      AfterCall(flow, msgs, k, p0, c0, slot0, wrSz, goal, fifo, carry, idx);
      AheadAfterCall(msgs, k, p0, c0, slot0, wrSz, idx);
      slot := BurstAt(msgs, k, p0, c0, slot0, wrSz).last + 1;
      if idx >= 2 * wrSz {
        filled := true;
      }
      if !filled {
        if rem > 1 {
          if msgs[k + 1].addr != msgs[k].addr {
            filled := true;
          } else {
            k := k + 1;
            pos := 0;
            cnt := msgs[k].Len();
            if msgs[k].Len() > 256 {
              cnt := 256;
            }
          }
        } else {
          filled := true;
        }
      }
    }

    /** One fill of the output FIFO, from message `k0` on. */
    method Fill(msgs: seq<Msg>, k0: nat) returns (k: nat)
      requires FillPoint(msgs, k0, pos, cnt, wrSz)
      modifies this`pos, this`cnt, this`fifo, this`overfull
      ensures Settled(msgs, k, pos, cnt, wrSz) && k0 <= k && (k == k0 && msgs[k].Write? ==> pos > old(pos))
      ensures msgs[k0].Read? ==> k == k0 && pos == old(pos) && cnt == old(cnt)
      ensures k > k0 && msgs[k].Read? ==> pos == 0
      ensures WritesOnly(msgs, k0, k) && (msgs[k].Read? ==> LastTake(fifo) == cnt)
      ensures Prepend(Entries(fifo), Rest(msgs, k, pos, cnt, wrSz))
           == Prepend(Entries(old(fifo)), FillPass(msgs, k0, old(pos), old(cnt), wrSz))
      ensures |fifo| > |old(fifo)| + wrSz / 2 <==> OpenOverruns(msgs, k0, old(pos), old(cnt), 0, wrSz)
      ensures (overfull || AheadOverruns(msgs, k, pos, cnt, 0, wrSz))
           == (old(overfull) || AheadOverruns(msgs, k0, old(pos), old(cnt), 0, wrSz))
    {
      k := k0;
      var idx: nat, carry: bv16, filled := 0, 0, false;
      ghost var slot := 0;
      ghost var goal := Prepend(Entries(fifo), FillPass(msgs, k0, pos, cnt, wrSz));
      ghost var over, ahead := OpenOverruns(msgs, k0, pos, cnt, 0, wrSz), AheadOverruns(msgs, k0, pos, cnt, 0, wrSz);
      FillBegins(fifo, carry, msgs, k0, pos, cnt, wrSz);
      assert WritesOnly(msgs, k0, k0);
      hide *;
      while !filled
        invariant k0 <= k < |msgs|
        invariant WritesOnly(msgs, k0, k)
        invariant k == k0 ==> pos >= old(pos) && (filled && msgs[k].Write? ==> pos > old(pos))
        invariant k == k0 && msgs[k].Read? ==> pos == old(pos) && cnt == old(cnt)
        invariant k > k0 ==> msgs[k0].Write? && (msgs[k].Read? ==> pos == 0)
        invariant filled ==> Closed(Entries(fifo), msgs, k, pos, cnt, wrSz, goal)
        invariant filled && msgs[k].Read? ==> LastTake(fifo) == cnt
        invariant filled ==> (|fifo| > |old(fifo)| + wrSz / 2 <==> over)
        invariant !filled ==> idx == 2 * slot && |fifo| == |old(fifo)| + Words(slot)
        invariant !filled && msgs[k].Write? ==>
          && Open(InFlight(fifo, Odd(slot), carry), msgs, k, pos, cnt, slot, wrSz, goal)
          && over == OpenOverruns(msgs, k, pos, cnt, slot, wrSz)
        invariant !filled && msgs[k].Read? ==>
          !over && ReadDue(InFlight(fifo, Odd(slot), carry), msgs, k, pos, cnt, slot, wrSz, goal)
        invariant overfull == old(overfull)
        invariant ahead == if filled then over || AheadOverruns(msgs, k, pos, cnt, 0, wrSz)
                           else AheadOverruns(msgs, k, pos, cnt, slot, wrSz)
        decreases |msgs| - k, !filled
      {
        WritesOnlyStep(msgs, k0, k);
        k, idx, carry, filled, slot := FillRound(msgs, k, idx, carry, slot, goal, |old(fifo)|);
      }
      overfull := overfull || |fifo| > |old(fifo)| + wrSz / 2;
      ClosedIs(Entries(fifo), msgs, k, pos, cnt, wrSz, goal);
    }

    /** The receive loop: empties the input FIFO into the buffer, two bytes a word. */
    method Drain(buf: array<bv8>) returns (i: nat)
      requires pos <= buf.Length
      modifies this`pos, this`rx, buf
      ensures i == Min(buf.Length - old(pos), 2 * |old(rx)|) && pos == old(pos) + i
      ensures rx == old(rx)[(i + 1) / 2..]
      ensures buf[..] == Overwritten(old(buf[..]), old(pos), Unpacked(old(rx)), i)
    {
      hide Unpacked, Overwritten, ByteOf;
      i := 0;
      var dval: bv32 := 0;
      ghost var was, data := buf[..], Unpacked(rx);
      OverwrittenStart(was, pos, data);
      while pos < buf.Length
        invariant pos == old(pos) + i <= buf.Length == |was| && i <= 2 * |old(rx)|
        invariant rx == old(rx)[(i + 1) / 2..]
        invariant i % 2 == 1 ==> dval == old(rx)[i / 2]
        invariant buf[..] == Overwritten(was, old(pos), data, i)
      {
        if i % 2 == 0 {
          if rx == [] {
            break;
          }
          dval := rx[0];
          rx := rx[1..];
          buf[pos] := ByteOf(dval, false);
        } else {
          buf[pos] := ByteOf(dval, true);
        }
        OverwrittenStep(was, old(pos), old(rx), i);
        i := i + 1;
        pos := pos + 1;
      }
    }

    /** The answer is stored up to its first `j` bursts. */
    ghost predicate Receiving(bursts: seq<seq<bv32>>, j: nat, buf: array<bv8>, c: Chunk)
      reads this`pos, this`cnt, buf
    {
      && |Flatten(bursts)| == (c.n + 1) / 2 && j <= |bursts|
      && c.from < buf.Length == |c.was| && 1 <= c.n == Min(buf.Length - c.from, 256)
      && pos == c.from + Min(c.n, 2 * |Flatten(bursts[..j])|) <= buf.Length && cnt == c.n - (pos - c.from)
      && pos - c.from <= |Unpacked(Flatten(bursts))|
      && buf[..] == Overwritten(c.was, c.from, Unpacked(Flatten(bursts)), pos - c.from)
    }

    lemma ReceivingBegins(bursts: seq<seq<bv32>>, buf: array<bv8>, n: nat)
      requires pos < buf.Length && cnt == n == Min(buf.Length - pos, 256) && |Flatten(bursts)| == (n + 1) / 2
      ensures Receiving(bursts, 0, buf, Chunk(pos, n, buf[..]))
    {
      OverwrittenStart(buf[..], pos, Unpacked(Flatten(bursts)));
    }

    lemma ReceivingMore(bursts: seq<seq<bv32>>, j: nat, buf: array<bv8>, c: Chunk)
      requires Receiving(bursts, j, buf, c)
      ensures cnt > 0 ==> j < |bursts|
      ensures cnt == 0 ==> pos == c.from + c.n && Stored(buf[..], c, Unpacked(Flatten(bursts)))
      ensures j <= |bursts| && 1 <= c.n <= 256 && c.n == Min(buf.Length - c.from, 256) && pos <= buf.Length
    {
      hide Unpacked, Overwritten, Flatten;
      if cnt > 0 {
        ReceiveStep(bursts, j, c.n, buf.Length - c.from);
      }
    }

    /** One round of the receive loop: burst `j` of the answer arrives and is stored. */
    method ReceiveBurst(buf: array<bv8>, bursts: seq<seq<bv32>>, j: nat, ghost c: Chunk)
      requires rx == [] && j < |bursts| && Receiving(bursts, j, buf, c) && cnt > 0
      modifies this`pos, this`cnt, this`rx, buf
      ensures rx == [] && Receiving(bursts, j + 1, buf, c)
    {
      hide Unpacked, Flatten, Overwritten;
      ReceiveStep(bursts, j, c.n, buf.Length - c.from);
      rx := bursts[j];
      ghost var got := pos - c.from;
      var i := Drain(buf);
      OverwrittenOn(c.was, c.from, Unpacked(Flatten(bursts)), got, Unpacked(bursts[j]), i);
      cnt := cnt - i;
    }

    /** The loop over the writes that will be merged with message `k`. */
    method ScanChain(msgs: seq<Msg>, k: nat) returns (len: nat, next: nat)
      requires k < |msgs|
      ensures len == ChainLen(msgs, k) && next == ChainEnd(msgs, k) + 1
      ensures next < |msgs| ==> (ReadNext(msgs, next - 1) <==> msgs[next].addr == msgs[k].addr && msgs[next].Read?)
    {
      var rem := |msgs| - k;
      len, next := msgs[k].Len(), k + 1;
      hide ChainLen, ChainEnd;
      ChainStep(msgs, k);
      while rem > 1 && msgs[next].Write? && msgs[next].addr == msgs[k].addr
        invariant k < next && next + rem == |msgs| + 1 && rem >= 1
        invariant msgs[next - 1].addr == msgs[k].addr
        invariant ChainLen(msgs, k) == len - msgs[next - 1].Len() + ChainLen(msgs, next - 1)
        invariant ChainEnd(msgs, k) == ChainEnd(msgs, next - 1)
      {
        ChainStep(msgs, next - 1);
        len := len + msgs[next].Len() + 1;
        next := next + 1;
        rem := rem - 1;
      }
      ChainStep(msgs, next - 1);
    }

    /** The write branch of the mode decision, with the count the controller is told to expect. */
    method SetWrMode(msgs: seq<Msg>, k: nat)
      requires ValidGeometry(geom) && k < |msgs| && wrSz == geom.outFifo
      modifies this`wrSz, this`wrCount
      ensures wrSz == FillSize(geom, msgs, k)
      ensures wrSz == geom.outBlk ==> wrCount == WriteCount(geom, msgs, k)
    {
      hide ChainLen, ChainEnd;
      var totalLen := 0;
      var len, next := ScanChain(msgs, k);
      if len >= geom.outFifo - 1 {
        totalLen := len + 1 + len / (geom.outBlk - 1);
        wrSz := geom.outBlk;
      }
      if next < |msgs| {
        if msgs[next].addr == msgs[k].addr && msgs[next].Read? {
          if totalLen % geom.outBlk == geom.outBlk - 1 {
            totalLen := totalLen + 3;
          } else {
            totalLen := totalLen + 2;
          }
        }
      }
      if wrSz == geom.outBlk {
        wrCount := totalLen;
      }
    }

    /** Where a pass stands before a round of its loop. `at` says how the pass began. */
    ghost predicate Mid(msgs: seq<Msg>, k: nat, filled: bool, bursts: seq<seq<bv32>>, j: nat, goal: Progress,
                        at: Start, chunk: Chunk)
      reads this, ReadBuffers(msgs)
    {
      && at.k <= k < |msgs| && rx == [] && pos <= msgs[k].Len() && WritesOnly(msgs, at.k, k)
      && OthersKept(msgs, k, Contents(msgs), at.contents)
      && (overfull || AheadOverruns(msgs, k, pos, cnt, 0, wrSz)) == at.over
      && if msgs[k].Write? || !filled then
           && asked == at.asked && Contents(msgs) == at.contents
           && (msgs[k].Read? ==> cnt > 0 && k == at.k && pos == at.pos)
           && (cnt > 0 ==> Filling(Entries(fifo), msgs, k, pos, cnt, wrSz, goal))
           && (cnt == 0 ==> pos == msgs[k].Len() && After(msgs, k, pos, Entries(fifo)) == goal)
         else
           && asked == at.asked + 1 && chunk.from == (if k == at.k then at.pos else 0)
           && k < |at.contents| && chunk.was == at.contents[k]
           && Receiving(bursts, j, msgs[k].buf, chunk)
           && After(msgs, k, chunk.from + chunk.n, Entries(fifo)) == goal
    }

    lemma MidIs(msgs: seq<Msg>, k: nat, filled: bool, bursts: seq<seq<bv32>>, j: nat, goal: Progress,
                at: Start, chunk: Chunk)
      requires Mid(msgs, k, filled, bursts, j, goal, at, chunk)
      ensures Entries(fifo) <= goal.sent && k < |msgs| && OthersKept(msgs, k, Contents(msgs), at.contents)
      ensures overfull ==> at.over
      ensures msgs[k].Write? ==> Mid(msgs, k, false, bursts, j, goal, at, chunk) && pos <= msgs[k].Len()
      ensures msgs[k].Read? && filled && cnt > 0 ==> j < |bursts|
    {
      hide AheadOverruns, Entries, Filling, Receiving, Unpacked, Flatten, Overwritten;
      if msgs[k].Read? && filled {
        ReceivingMore(bursts, j, msgs[k].buf, chunk);
      } else if cnt > 0 {
        FillingPoint(Entries(fifo), msgs, k, pos, cnt, wrSz, goal);
      }
    }

    lemma MidBegins(msgs: seq<Msg>, k: nat, filled: bool, bursts: seq<seq<bv32>>, j: nat, goal: Progress,
                    at: Start, chunk: Chunk)
      requires k < |msgs| && rx == [] && (msgs[k].Read? ==> !filled) && Filling(Entries(fifo), msgs, k, pos, cnt, wrSz, goal)
      requires at == Start(k, pos, asked, Contents(msgs), overfull || AheadOverruns(msgs, k, pos, cnt, 0, wrSz))
      ensures Mid(msgs, k, filled, bursts, j, goal, at, chunk) && cnt > 0 && pos <= msgs[k].Len()
    {
      hide AheadOverruns, Filling, Entries;
      FillingPoint(Entries(fifo), msgs, k, pos, cnt, wrSz, goal);
    }

    lemma MidEnds(msgs: seq<Msg>, k: nat, filled: bool, bursts: seq<seq<bv32>>, j: nat, goal: Progress,
                  at: Start, chunk: Chunk, reply: Reply)
      requires Mid(msgs, k, filled, bursts, j, goal, at, chunk) && cnt == 0 && Obliging(reply)
      requires msgs[k].Read? ==> filled && bursts == reply(at.asked, chunk.n)
      ensures After(msgs, k, pos, Entries(fifo)) == goal && overfull == at.over
      ensures rx == [] && pos <= msgs[k].Len() && at.k <= k < |msgs| && WritesOnly(msgs, at.k, k)
      ensures OthersKept(msgs, k, Contents(msgs), at.contents)
      ensures if msgs[k].Write? then pos == msgs[k].Len() && asked == at.asked
        else
          var from := if k == at.k then at.pos else 0;
          && from < pos && pos - from == Min(msgs[k].Len() - from, 256) && asked == at.asked + 1
          && k < |at.contents| && Stored(Contents(msgs)[k], Chunk(from, pos - from, at.contents[k]), Answer(reply, at.asked, pos - from))
    {
      hide AheadOverruns, OpenOverruns, Filling, Entries, Unpacked, Flatten, Overwritten, Receiving, Obliging,
           WritesOnly, OthersKept, Stored;
      ReadNeverAhead(msgs, k, pos, cnt, 0, wrSz);
      if msgs[k].Read? {
        ReceivingMore(bursts, j, msgs[k].buf, chunk);
        AnswerLength(reply, at.asked, chunk.n);
      }
    }

    /** The fill of a round, and the answer asked for if it ends in a read command. */
    method PassFill(msgs: seq<Msg>, k0: nat, bursts0: seq<seq<bv32>>, j0: nat, reply: Reply,
                    ghost goal: Progress, ghost at: Start, ghost chunk0: Chunk)
      returns (k: nat, bursts: seq<seq<bv32>>, j: nat, ghost chunk: Chunk)
      requires Mid(msgs, k0, false, bursts0, j0, goal, at, chunk0) && cnt > 0 && Obliging(reply)
      modifies this`pos, this`cnt, this`fifo, this`asked, this`overfull
      ensures Mid(msgs, k, true, bursts, j, goal, at, chunk) && k0 <= k < |msgs|
      ensures msgs[k].Read? ==> bursts == reply(at.asked, chunk.n) && j == 0 && cnt > 0
      ensures k == k0 && msgs[k].Write? ==> pos > old(pos)
    {
      hide AheadOverruns, OpenOverruns, Entries, Flatten, Unpacked, Overwritten, FillPass, Rest, Prepend, After, Filling,
           Receiving, Settled, FillPoint, Obliging, Min, Stored;
      bursts, j, chunk := bursts0, j0, chunk0;
      FillingPoint(Entries(fifo), msgs, k0, pos, cnt, wrSz, goal);
      k := Fill(msgs, k0);
      FillDone(Entries(fifo), msgs, k, pos, cnt, wrSz, goal);
      if msgs[k].Read? {
        bursts, j := reply(asked, LastTake(fifo)), 0;
        asked := asked + 1;
        chunk := Chunk(pos, cnt, msgs[k].buf[..]);
        AnswerLength(reply, asked - 1, cnt);
        ReceivingBegins(bursts, msgs[k].buf, cnt);
      }
    }

    /** The receive loop of a round. */
    method PassReceive(msgs: seq<Msg>, k: nat, bursts: seq<seq<bv32>>, j: nat, ghost goal: Progress,
                       ghost at: Start, ghost chunk: Chunk)
      requires Mid(msgs, k, true, bursts, j, goal, at, chunk) && msgs[k].Read? && cnt > 0
      modifies this`pos, this`cnt, this`rx, ReadBuffers(msgs)
      ensures Mid(msgs, k, true, bursts, j + 1, goal, at, chunk) && j + 1 <= |bursts|
    {
      hide AheadOverruns, OpenOverruns, Entries, Flatten, Unpacked, Overwritten, FillPass, Rest, Prepend, After, Filling, Receiving, Min, Stored;
      ReceivingMore(bursts, j, msgs[k].buf, chunk);
      ReadNeverAhead(msgs, k, pos, cnt, 0, wrSz);
      ReceiveBurst(msgs[k].buf, bursts, j, chunk);
      ReadNeverAhead(msgs, k, pos, cnt, 0, wrSz);
      ReceivingMore(bursts, j + 1, msgs[k].buf, chunk);
    }

    /** One round of the loop of a pass. */
    method PassRound(msgs: seq<Msg>, k0: nat, filled0: bool, bursts0: seq<seq<bv32>>, j0: nat, reply: Reply,
                     ghost goal: Progress, ghost at: Start, ghost chunk0: Chunk)
      returns (k: nat, filled: bool, bursts: seq<seq<bv32>>, j: nat, ok: bool, ghost chunk: Chunk)
      requires Mid(msgs, k0, filled0, bursts0, j0, goal, at, chunk0) && cnt > 0 && Obliging(reply) && k0 < |msgs|
      requires msgs[k0].Read? && filled0 ==> bursts0 == reply(at.asked, chunk0.n)
      modifies this`pos, this`cnt, this`fifo, this`rx, this`asked, this`overfull, ReadBuffers(msgs)
      ensures k0 <= k < |msgs| && OthersKept(msgs, k, Contents(msgs), at.contents)
      ensures if ok then Mid(msgs, k, filled, bursts, j, goal, at, chunk) else Entries(fifo) <= goal.sent && (overfull ==> at.over)
      ensures ok && msgs[k].Read? ==> filled && bursts == reply(at.asked, chunk.n) && j <= |bursts|
      ensures ok && msgs[k].Write? ==> !filled && pos <= msgs[k].Len()
      ensures ok && k == k0 && msgs[k].Write? ==> pos > old(pos) || (filled0 && pos == old(pos))
      ensures ok && k == k0 && msgs[k].Read? && filled0 ==> bursts == bursts0 && j0 < j
    {
      hide *;
      k, filled, bursts, j, ok, chunk := k0, filled0, bursts0, j0, true, chunk0;
      MidIs(msgs, k, filled, bursts, j, goal, at, chunk);
      var alive: bool := *;  // the controller may not answer
      if !alive {
        ok := false;
        return;
      }
      if !filled {
        k, bursts, j, chunk := PassFill(msgs, k, bursts, j, reply, goal, at, chunk);
        filled := true;
        MidIs(msgs, k, filled, bursts, j, goal, at, chunk);
      }
      alive := *;
      if !alive {
        ok := false;
        return;
      }
      if msgs[k].Read? {
        PassReceive(msgs, k, bursts, j, goal, at, chunk);
        j := j + 1;
        MidIs(msgs, k, filled, bursts, j, goal, at, chunk);
      } else {
        filled := false;
      }
    }

    /** One pass of the transfer loop after the mode is set: fills, and for a read the data. */
    method RunPass(msgs: seq<Msg>, k0: nat, filled0: bool, reply: Reply) returns (k: nat, ok: bool)
      requires FillPoint(msgs, k0, pos, cnt, wrSz) && rx == [] && (msgs[k0].Read? ==> !filled0) && Obliging(reply)
      modifies this`pos, this`cnt, this`fifo, this`rx, this`asked, this`overfull, ReadBuffers(msgs)
      ensures k0 <= k < |msgs| && OthersKept(msgs, k, Contents(msgs), old(Contents(msgs)))
      ensures var goal := Prepend(Entries(old(fifo)), FillPass(msgs, k0, old(pos), old(cnt), wrSz));
        if !ok then Entries(fifo) <= goal.sent
        else
          && After(msgs, k, pos, Entries(fifo)) == goal
          && cnt == 0 && rx == [] && pos <= msgs[k].Len() && WritesOnly(msgs, k0, k)
          && if msgs[k].Write? then pos == msgs[k].Len() && asked == old(asked)
             else
               var from := if k == k0 then old(pos) else 0;
               && from < pos && pos - from == Min(msgs[k].Len() - from, 256) && asked == old(asked) + 1
               && Stored(Contents(msgs)[k], Chunk(from, pos - from, old(Contents(msgs))[k]), Answer(reply, old(asked), pos - from))
      ensures var over := old(overfull) || AheadOverruns(msgs, k0, old(pos), old(cnt), 0, wrSz);
        if ok then overfull == over else overfull ==> over
    {
      hide *;
      k, ok := k0, true;
      var filled := filled0;
      var bursts: seq<seq<bv32>>, j: nat := [], 0;
      ghost var goal := Prepend(Entries(fifo), FillPass(msgs, k0, pos, cnt, wrSz));
      ghost var over := overfull || AheadOverruns(msgs, k0, pos, cnt, 0, wrSz);
      ghost var at, chunk := Start(k0, pos, asked, Contents(msgs), over), Chunk(0, 0, []);
      PassBegins(Entries(fifo), msgs, k0, pos, cnt, wrSz);
      MidBegins(msgs, k0, filled, bursts, j, goal, at, chunk);
      var more := true;
      while more
        invariant k0 <= k < |msgs| && Mid(msgs, k, filled, bursts, j, goal, at, chunk) && (more <==> cnt > 0)
        invariant msgs[k].Read? && filled ==> bursts == reply(at.asked, chunk.n) && j <= |bursts|
        invariant msgs[k].Write? ==> pos <= msgs[k].Len()
        invariant !more && msgs[k].Read? ==> filled
        decreases |msgs| - k, if msgs[k].Write? then msgs[k].Len() - pos else if filled then 0 else 1,
                  msgs[k].Write? && filled, |bursts| - j
      {
        k, filled, bursts, j, ok, chunk := PassRound(msgs, k, filled, bursts, j, reply, goal, at, chunk);
        if !ok {
          return;
        }
        more := cnt > 0;
      }
      MidEnds(msgs, k, filled, bursts, j, goal, at, chunk, reply);
    }

    /** The mode for the message at hand: sizes, byte count, and whether its first fill waits. */
    method SetMode(msgs: seq<Msg>, k: nat) returns (filled: bool)
      requires ValidGeometry(geom) && k < |msgs| && pos <= msgs[k].Len()
      modifies this`cnt, this`wrSz, this`wrCount
      ensures wrSz == if msgs[k].Read? then geom.outFifo else FillSize(geom, msgs, k)
      ensures var left := msgs[k].Len() - pos; cnt == if msgs[k].Read? && left > 256 then 256 else left
      ensures filled <==> msgs[k].Write? && wrSz == geom.outBlk
      ensures msgs[k].Write? && wrSz == geom.outBlk ==> wrCount == WriteCount(geom, msgs, k)
      ensures Contents(msgs) == old(Contents(msgs))
    {
      filled := false;
      cnt := msgs[k].Len() - pos;
      wrSz := geom.outFifo;
      if msgs[k].Read? {
        if cnt > 256 {
          cnt := 256;
        }
      } else {
        SetWrMode(msgs, k);
        // a block is filled only once the controller asks for it
        if wrSz == geom.outBlk {
          filled := true;
        }
      }
    }

    /** One round of the transfer loop: the mode, the pass, the step to the next message. */
    method TransferRound(msgs: seq<Msg>, k0: nat, reply: Reply, ghost all: seq<bv16>, ghost first: nat,
                         ghost over: bool)
      returns (k: nat, ok: bool)
      requires Sending(geom, msgs, k0, pos, Entries(fifo), all) && k0 < |msgs| && Obliging(reply) && rx == []
      requires Counted(msgs, k0, pos, first, asked)
      requires DistinctBuffers(msgs) ==> Delivered(msgs, Contents(msgs), reply, first, k0, pos)
      requires (overfull || LaterOverruns(geom, msgs, k0, pos)) == over
      modifies this, ReadBuffers(msgs)
      ensures if !ok then Entries(fifo) <= all && (overfull ==> over)
        else
          && (overfull || LaterOverruns(geom, msgs, k, pos)) == over
          && Sending(geom, msgs, k, pos, Entries(fifo), all) && rx == [] && Counted(msgs, k, pos, first, asked)
          && k0 <= k && (k == k0 ==> old(pos) < pos) && (k < |msgs| ==> pos <= msgs[k].Len())
          && (DistinctBuffers(msgs) ==> Delivered(msgs, Contents(msgs), reply, first, k, pos))
    {
      hide *;
      k := k0;
      SendingPrefix(geom, msgs, k, pos, Entries(fifo), all);
      ok := *;  // the controller may not answer
      if !ok {
        return;
      }
      var filled := SetMode(msgs, k);
      PassStarts(geom, msgs, k, pos, Entries(fifo), all, wrSz, cnt);
      LaterIs(geom, msgs, k, pos, wrSz, cnt);
      PrependedPoint(Entries(fifo), FillPass(msgs, k, pos, cnt, wrSz));
      ghost var goal := Prepend(Entries(fifo), FillPass(msgs, k, pos, cnt, wrSz));
      ghost var was, from, a0 := Contents(msgs), pos, asked;
      k, ok := RunPass(msgs, k0, filled, reply);
      if !ok {
        PrefixTrans(Entries(fifo), goal.sent, all);
        return;
      }
      if k > k0 {
        WritesOnlyAt(msgs, k0, k);
        from := 0;
      }
      CountedOn(msgs, k0, old(pos), k, from, pos, first, a0, asked);
      if DistinctBuffers(msgs) {
        DeliveredOn(msgs, was, Contents(msgs), reply, first, k0, old(pos), k);
        if msgs[k].Read? {
          ContentLen(msgs, k);
          DeliveredChunk(msgs, was, Contents(msgs), reply, first, k0, k, Chunk(from, pos - from, was[k]));
        }
      }
      AfterIs(msgs, k, pos, Entries(fifo), goal);
      if pos == msgs[k].Len() {
        k := k + 1;
        pos := 0;
      }
      ok := *;
    }

    /** The reset before a transfer empties the input FIFO. */
    method Reset()
      modifies this`rx
      ensures rx == []
    {
      rx := [];
    }

    /** A whole transfer. Polls may time out at any step; the entries sent until then are
        a prefix of those of the full transfer. */
    method Xfer(msgs: seq<Msg>, reply: Reply) returns (ok: bool)
      requires ValidGeometry(geom) && NonEmpty(msgs) && Obliging(reply)
      requires pos == 0
      modifies this, ReadBuffers(msgs)
      ensures pos == 0 && cnt == 0 && (ok ==> rx == [])
      ensures var all := Entries(old(fifo)) + Transfer(geom, msgs, 0, 0);
        if ok then Entries(fifo) == all else Entries(fifo) <= all
      ensures var over := old(overfull) || TransferOverruns(geom, msgs, 0, 0);
        if ok then overfull == over else overfull ==> over
      ensures ok ==>
        (Bus(Entries(fifo)) == Bus(Entries(old(fifo))) + Asked(msgs, 0, 0)
         <==> AlignedTransfer(geom, msgs, 0, 0) && SevenBit(msgs, 0))
      ensures ok && DistinctBuffers(msgs) ==> Delivered(msgs, Contents(msgs), reply, old(asked), |msgs|, 0)
      ensures ok && DistinctBuffers(msgs) ==>
        forall source: Source | Answers(reply, source) :: Filled(msgs, Contents(msgs), source, old(asked))
    {
      hide *;
      Reset();
      TransferBegins(geom, msgs, Entries(fifo));
      DeliveredNone(msgs, Contents(msgs), reply, asked);
      var k := 0;
      ok := true;
      ghost var all, first := Entries(fifo) + Transfer(geom, msgs, 0, 0), asked;
      ghost var over := overfull || LaterOverruns(geom, msgs, 0, 0);
      while k < |msgs|
        invariant Sending(geom, msgs, k, pos, Entries(fifo), all) && rx == [] && Counted(msgs, k, pos, first, asked)
        invariant (overfull || LaterOverruns(geom, msgs, k, pos)) == over
        invariant k < |msgs| ==> pos <= msgs[k].Len()
        invariant DistinctBuffers(msgs) ==> Delivered(msgs, Contents(msgs), reply, first, k, pos)
        decreases |msgs| - k, if k < |msgs| then msgs[k].Len() - pos else 0
      {
        k, ok := TransferRound(msgs, k, reply, all, first, over);
        if !ok {
          pos, cnt := 0, 0;
          return;
        }
      }
      NothingLater(geom, msgs, k, pos);
      TransferEnds(geom, msgs, k, pos, Entries(fifo), all);
      SentOnBus(geom, msgs, Entries(old(fifo)));
      if DistinctBuffers(msgs) {
        AllFilled(msgs, Contents(msgs), reply, first);
      }
      pos, cnt := 0, 0;
    }

    /** A run of transfers: a transfer leaves the engine ready for the next one, and what the
        FIFO takes over a run without a failure is one transfer after the other. */
    method Transfers(lists: seq<seq<Msg>>, reply: Reply) returns (ok: bool)
      requires ValidGeometry(geom) && Obliging(reply) && pos == 0
      requires forall i :: 0 <= i < |lists| ==> NonEmpty(lists[i])
      modifies this, AllBuffers(lists)
      ensures pos == 0
      ensures ok ==> Entries(fifo) == Entries(old(fifo)) + AllTransfers(geom, lists)
    {
      hide Transfer, Entries, NonEmpty, ReadBuffers, Obliging, Bus, Asked, AlignedTransfer, SevenBit, TransferOverruns, Delivered,
           DistinctBuffers, Answers, Filled;
      ok := true;
      assert lists[..0] == [];
      for i := 0 to |lists|
        invariant pos == 0 && (ok ==> Entries(fifo) == Entries(old(fifo)) + AllTransfers(geom, lists[..i]))
      {
        var sent := Xfer(lists[i], reply);
        ok := ok && sent;
        AllTransfersStep(geom, lists, i);
      }
      assert lists[..|lists|] == lists;
    }
  }

  lemma SentOnBus(g: Geometry, msgs: seq<Msg>, before: seq<bv16>)
    requires ValidGeometry(g) && NonEmpty(msgs)
    ensures Bus(before + Transfer(g, msgs, 0, 0)) == Bus(before) + Asked(msgs, 0, 0)
        <==> AlignedTransfer(g, msgs, 0, 0) && SevenBit(msgs, 0)
  {
    TransferOnBusIff(g, msgs, 0, 0);
    BusConcat(before, Transfer(g, msgs, 0, 0));
    hide Bus, Transfer, AlignedTransfer, Asked;
    SameRest(Bus(before), Bus(Transfer(g, msgs, 0, 0)), Asked(msgs, 0, 0));
  }

  lemma SameRest<T>(a: seq<T>, b: seq<T>, c: seq<T>)
    ensures a + b == a + c <==> b == c
  {
    assert (a + b)[|a|..] == b && (a + c)[|a|..] == c;
  }

  lemma AllFilled(msgs: seq<Msg>, c: seq<seq<bv8>>, reply: Reply, first: nat)
    requires Obliging(reply) && |c| == |msgs| && Delivered(msgs, c, reply, first, |msgs|, 0)
    ensures forall source: Source | Answers(reply, source) :: Filled(msgs, c, source, first)
  {
    forall source: Source | Answers(reply, source)
      ensures Filled(msgs, c, source, first)
    {
      DeliveredFilled(msgs, c, reply, source, first);
    }
  }

  ghost function AllBuffers(lists: seq<seq<Msg>>): set<array<bv8>> {
    set i: nat, b | i < |lists| && b in ReadBuffers(lists[i]) :: b
  }

  ghost function AllTransfers(g: Geometry, lists: seq<seq<Msg>>): seq<bv16>
    requires ValidGeometry(g) && forall i :: 0 <= i < |lists| ==> NonEmpty(lists[i])
  {
    if lists == [] then []
    else AllTransfers(g, lists[..|lists| - 1]) + Transfer(g, lists[|lists| - 1], 0, 0)
  }

  lemma AllTransfersStep(g: Geometry, lists: seq<seq<Msg>>, i: nat)
    requires ValidGeometry(g) && i < |lists| && forall k :: 0 <= k < |lists| ==> NonEmpty(lists[k])
    ensures AllTransfers(g, lists[..i + 1]) == AllTransfers(g, lists[..i]) + Transfer(g, lists[i], 0, 0)
  {
    hide NonEmpty, Transfer;
    assert lists[..i + 1][..i] == lists[..i];
  }
}
