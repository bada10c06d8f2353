/** The commands of a block request as they go out to the card, and what is reported. */
module MmcCommands {
  import opened Bits
  import opened SdhciHost
  import opened MmcChunks
  import opened Seqs

  /** Blocks up to this one are never written on the slot of the built-in card. */
  const LAST_PROTECTED := 253951
  const MMC_TRAN_STATE: bv32 := 4

  /** What went out to the card and what came of it. A data command holds its index, its
      argument, the chunk it was issued for, the memory that the controller walks for it, the
      block size and block count that the controller was told. */
  datatype Issued =
    | Data(read: bool, index: nat, argument: nat, chunk: Chunk, walked: seq<Segment>,
           blkSize: nat, blkCnt: nat, failed: bool, resp: bv32)
    | Stop(failed: bool, resp: bv32)

  /** No error bit of a card status is set: address out of range, address, block length,
      write protection, card controller and general error. */
  predicate NoErrorBits(resp: bv32) {
    resp & 0xE418_0000 == 0
  }

  predicate Clean(resp: bv32) {
    NoErrorBits(resp) && (resp >> 9) & 0xF == MMC_TRAN_STATE
  }

  method ParseResponse(resp: bv32) returns (ret: nat)
    ensures ret == if Clean(resp) then 0 else 1
  {
    ErrorBits(resp);
    hide NoErrorBits;
    if Bit(resp, 0x8000_0000) {
      return 1;
    }
    if Bit(resp, 0x4000_0000) {
      return 1;
    }
    if Bit(resp, 0x2000_0000) {
      return 1;
    }
    if Bit(resp, 0x0400_0000) {
      return 1;
    }
    if Bit(resp, 0x0010_0000) {
      return 1;
    }
    if Bit(resp, 0x0008_0000) {
      return 1;
    }
    if (resp >> 9) & 0xF != MMC_TRAN_STATE {
      return 1;
    }
    return 0;
  }

  predicate Bit(resp: bv32, mask: bv32) {
    resp & mask != 0
  }

  lemma ErrorBits(resp: bv32)
    ensures !NoErrorBits(resp) <==> Bit(resp, 0x8000_0000) || Bit(resp, 0x4000_0000) || Bit(resp, 0x2000_0000)
                                    || Bit(resp, 0x0400_0000) || Bit(resp, 0x0010_0000) || Bit(resp, 0x0008_0000)
  {
  }

  /** The data commands of a log, in order. */
  function Commands(log: seq<Issued>): seq<Chunk> {
    if log == [] then []
    else Commands(log[..|log| - 1]) + if log[|log| - 1].Data? then [log[|log| - 1].chunk] else []
  }

  lemma CommandsSnoc(log: seq<Issued>, e: Issued)
    ensures Commands(log + [e]) == Commands(log) + if e.Data? then [e.chunk] else []
  {
    assert (log + [e])[..|log|] == log;
  }

  /** The command for one block or for several. */
  function IndexOf(read: bool, c: Chunk): nat {
    if read then if c.count == 1 then 17 else 18 else if c.count == 1 then 24 else 25
  }

  /** What the card makes of an index: 24 and 25 write, 17 and 18 read, 18 and 25 move several
      blocks. */
  predicate Writes(index: nat) {
    index == 24 || index == 25
  }

  predicate Reads(index: nat) {
    index == 17 || index == 18
  }

  predicate Several(index: nat) {
    index == 18 || index == 25
  }

  lemma IndexMeans(read: bool, c: Chunk)
    requires c.count > 0
    ensures Writes(IndexOf(read, c)) <==> !read
    ensures Reads(IndexOf(read, c)) <==> read
    ensures Several(IndexOf(read, c)) <==> c.count > 1
  {
  }

  /** The index says what was asked for, and the controller counts the blocks of the chunk. */
  predicate Ordered(e: Issued)
    requires e.Data?
  {
    && (Writes(e.index) <==> !e.read) && (Reads(e.index) <==> e.read) && (Several(e.index) <==> e.chunk.count > 1)
    && e.blkSize == 512 && e.blkCnt == e.chunk.count
  }

  /** What one call for a chunk issues: the data command, and a stop command if it was for
      several blocks and failed. */
  ghost predicate Part(read: bool, c: Chunk, sent: seq<Issued>) {
    && |sent| >= 1 && sent[0].Data? && sent[0].read == read && sent[0].chunk == c
    && sent[0].index == IndexOf(read, c)
    && (if sent[0].failed && c.count > 1 then |sent| == 2 && sent[1].Stop? else |sent| == 1)
  }

  /** What the call reports: if a command for several blocks fails, the result of the stop
      command stands for it; if one for a single block fails, the status that the card gave
      before. */
  ghost predicate Reported(c: Chunk, sent: seq<Issued>) {
    && |sent| >= 1
    && if sent[0].failed && c.count > 1 then |sent| == 2 && !sent[1].failed && Clean(sent[1].resp) else Clean(sent[0].resp)
  }

  lemma CommandsPart(read: bool, c: Chunk, sent: seq<Issued>)
    requires Part(read, c, sent)
    ensures Commands(sent) == [c]
  {
    assert Commands([]) == [];
    CommandsSnoc([], sent[0]);
    assert [] + [sent[0]] == [sent[0]];
    if |sent| == 1 {
      assert sent == [sent[0]];
    } else {
      CommandsSnoc([sent[0]], sent[1]);
      assert sent == [sent[0]] + [sent[1]];
    }
  }

  lemma {:induction false} CommandsConcat(a: seq<Issued>, b: seq<Issued>)
    ensures Commands(a + b) == Commands(a) + Commands(b)
    decreases |b|
  {
    if b == [] {
      assert a + b == a;
    } else {
      var last := |b| - 1;
      hide Commands;
      CommandsConcat(a, b[..last]);
      CommandsSnoc(b[..last], b[last]);
      CommandsSnoc(a + b[..last], b[last]);
      assert b == b[..last] + [b[last]];
      assert a + b == a + b[..last] + [b[last]];
      Regroup(Commands(a), Commands(b[..last]), if b[last].Data? then [b[last].chunk] else []);
    }
  }

  /** The commands that did not fail. */
  function Moved(log: seq<Issued>): seq<Chunk> {
    if log == [] then []
    else
      var e := log[|log| - 1];
      Moved(log[..|log| - 1]) + if e.Data? && !e.failed then [e.chunk] else []
  }

  /** No data command failed. */
  ghost predicate AllWent(log: seq<Issued>) {
    forall i :: 0 <= i < |log| && log[i].Data? ==> !log[i].failed
  }

  /** A failed command moves no blocks. */
  lemma {:induction false} MovedBlocks(log: seq<Issued>)
    requires forall c :: c in Commands(log) ==> c.count > 0
    ensures AllWent(log) ==> Moved(log) == Commands(log)
    ensures Blocks(Moved(log)) <= Blocks(Commands(log))
    ensures Blocks(Moved(log)) == Blocks(Commands(log)) ==> AllWent(log)
  {
    if log != [] {
      var init, e := log[..|log| - 1], log[|log| - 1];
      assert log == init + [e];
      CommandsSnoc(init, e);
      hide Commands;
      MovedBlocks(init);
      BlocksConcat(Commands(init), if e.Data? then [e.chunk] else []);
      BlocksConcat(Moved(init), if e.Data? && !e.failed then [e.chunk] else []);
      if e.Data? {
        assert e.chunk in Commands(log);
        assert Blocks([e.chunk]) == e.chunk.count;
      }
    }
  }

  /** The blocks of a request that is reported as a success were all moved exactly if no data
      command failed. */
  lemma MovedIff(log: seq<Issued>, first: nat, count: nat)
    requires TileBlocks(Commands(log), first, count)
    ensures TileBlocks(Moved(log), first, count) <==> AllWent(log)
  {
    TiledCounts(Commands(log), first, count);
    TiledBlocks(Commands(log), first, count);
    MovedBlocks(log);
    if TileBlocks(Moved(log), first, count) {
      TiledBlocks(Moved(log), first, count);
    }
  }

  /** How many of the issued commands belong to the first chunk. */
  ghost function Cut(c: Chunk, sent: seq<Issued>): nat {
    if sent != [] && sent[0].failed && c.count > 1 then 2 else 1
  }

  /** What a request issues: all its commands if it is reported as a success; otherwise a
      prefix that ends with the first one that is reported as failed. */
  ghost predicate Performed(read: bool, all: seq<Chunk>, sent: seq<Issued>, ok: bool)
    decreases |all|
  {
    if all == [] then sent == [] && ok
    else
      var p := Cut(all[0], sent);
      && p <= |sent| && Part(read, all[0], sent[..p])
      && if Reported(all[0], sent[..p]) then Performed(read, all[1..], sent[p..], ok) else sent[p..] == [] && !ok
  }

  lemma PartPerformed(read: bool, all: seq<Chunk>, part: seq<Issued>)
    requires all != [] && Part(read, all[0], part)
    ensures !Reported(all[0], part) ==> Performed(read, all, part, false)
    ensures Reported(all[0], part) ==> Performed(read, [all[0]], part, true)
  {
    assert part[..|part|] == part;
    hide Reported, Part;
  }

  lemma PerformedCons(read: bool, c: Chunk, rest: seq<Chunk>, part: seq<Issued>, more: seq<Issued>, ok: bool)
    requires Part(read, c, part) && Reported(c, part) && Performed(read, rest, more, ok)
    ensures Performed(read, [c] + rest, part + more, ok)
  {
    var all, sent := [c] + rest, part + more;
    assert Cut(c, sent) == |part|;
    hide Part, Reported, Cut;
    assert sent[..|part|] == part && sent[|part|..] == more;
    assert all[1..] == rest;
  }

  lemma {:induction false} PerformedConcat(read: bool, a: seq<Chunk>, b: seq<Chunk>, sent: seq<Issued>,
                                           more: seq<Issued>, ok: bool)
    requires Performed(read, a, sent, true) && Performed(read, b, more, ok)
    ensures Performed(read, a + b, sent + more, ok)
    decreases |a|
  {
    hide Reported, Part, Cut;
    if a == [] {
      assert a + b == b && sent + more == more;
    } else {
      var p := Cut(a[0], sent);
      PerformedConcat(read, a[1..], b, sent[p..], more, ok);
      PerformedCons(read, a[0], a[1..] + b, sent[..p], sent[p..] + more, ok);
      RegroupCut(a, 1, b);
      RegroupCut(sent, p, more);
    }
  }

  /** The answer that stands for data command `i` of a log is good: that of the stop command
      behind it, if it was for several blocks and failed, else its own. */
  ghost predicate AnsweredWell(log: seq<Issued>, i: nat)
    requires i < |log| && log[i].Data?
  {
    if log[i].failed && log[i].chunk.count > 1 then
      i + 1 < |log| && log[i + 1].Stop? && !log[i + 1].failed && Clean(log[i + 1].resp)
    else Clean(log[i].resp)
  }

  ghost predicate AllAnsweredWell(log: seq<Issued>) {
    forall i :: 0 <= i < |log| && log[i].Data? ==> AnsweredWell(log, i)
  }

  /** A request is reported as a success exactly if every standing answer is good, whether its
      commands failed or not. */
  lemma {:induction false} ReportedIff(read: bool, all: seq<Chunk>, sent: seq<Issued>, ok: bool)
    requires Performed(read, all, sent, ok)
    ensures ok <==> AllAnsweredWell(sent)
    decreases |all|
  {
    hide Clean;
    if all != [] {
      var p := Cut(all[0], sent);
      PartAnswered(read, all[0], sent, p);
      if Reported(all[0], sent[..p]) {
        ReportedIff(read, all[1..], sent[p..], ok);
      }
      hide Performed, Part, Reported;
      AnsweredLater(sent, p);
    }
  }

  lemma PartAnswered(read: bool, c: Chunk, sent: seq<Issued>, p: nat)
    requires p == Cut(c, sent) && p <= |sent| && Part(read, c, sent[..p])
    ensures sent[0].Data? && 1 <= p <= 2 && (p == 2 ==> sent[1].Stop?)
    ensures Reported(c, sent[..p]) <==> AnsweredWell(sent, 0)
  {
    hide Clean;
    var part := sent[..p];
    assert part[0] == sent[0];
    if p == 2 {
      assert part[1] == sent[1];
    }
  }

  lemma AnsweredLater(sent: seq<Issued>, p: nat)
    requires 1 <= p <= 2 && p <= |sent| && sent[0].Data? && (p == 2 ==> sent[1].Stop?)
    ensures AllAnsweredWell(sent) <==> AnsweredWell(sent, 0) && AllAnsweredWell(sent[p..])
  {
    hide Clean;
    var rest := sent[p..];
    if AllAnsweredWell(sent) {
      forall i | 0 <= i < |rest| && rest[i].Data?
        ensures AnsweredWell(rest, i)
      {
        assert AnsweredWell(sent, i + p);
      }
    }
    if AnsweredWell(sent, 0) && AllAnsweredWell(rest) {
      forall i | 0 <= i < |sent| && sent[i].Data?
        ensures AnsweredWell(sent, i)
      {
        if i >= p {
          assert AnsweredWell(rest, i - p);
        }
      }
    }
  }

  /** A request whose commands tile its blocks is reported as a success without having moved
      them all exactly if every standing answer is good and some command failed. */
  lemma HiddenFailureIff(read: bool, all: seq<Chunk>, sent: seq<Issued>, ok: bool, first: nat, count: nat)
    requires Performed(read, all, sent, ok) && TileBlocks(all, first, count)
    ensures ok && !TileBlocks(Moved(sent), first, count) <==> AllAnsweredWell(sent) && !AllWent(sent)
  {
    hide Performed, TileBlocks, Moved, AllWent, AllAnsweredWell;
    ReportedIff(read, all, sent, ok);
    PerformedCommands(read, all, sent, ok);
    if ok {
      MovedIff(sent, first, count);
    }
  }

  /** A log that the chunks of a request may leave, if the first command fails or none does,
      and the card answers well every time: all of it is reported as a success. */
  lemma {:induction false} WellAnswered(read: bool, all: seq<Chunk>, scale: nat, fails: bool) returns (sent: seq<Issued>)
    requires forall c :: c in all ==> c.count > 0
    ensures Performed(read, all, sent, true)
    ensures fails && all != [] ==> !AllWent(sent)
    ensures forall e :: e in sent && e.Data? ==> Plausible(e, read, all, scale)
    decreases |all|
  {
    if all == [] {
      sent := [];
    } else {
      var part := WellAnsweredPart(read, all[0], all, scale, fails);
      var more := WellAnswered(read, all[1..], scale, false);
      hide Part, Reported, Performed;
      PerformedCons(read, all[0], all[1..], part, more, true);
      assert [all[0]] + all[1..] == all;
      sent := part + more;
      assert sent[0] == part[0];
    }
  }

  lemma WellAnsweredPart(read: bool, c: Chunk, all: seq<Chunk>, scale: nat, fails: bool) returns (part: seq<Issued>)
    requires c.count > 0 && c in all
    ensures Part(read, c, part) && Reported(c, part) && part != [] && part[0].Data? && part[0].failed == fails
    ensures forall e :: e in part && e.Data? ==> Plausible(e, read, all, scale)
  {
    var table := TableFor(c.data, MovedBytes(c));
    WalkTiles(table, c.data, MovedBytes(c));
    CleanStatus();
    IndexMeans(read, c);
    hide Clean, Tile, Walk, IndexOf;
    var data := Data(read, IndexOf(read, c), c.block * scale, c, Walk(table), SDHCI_MMC_BLK_SZ, c.count, fails, 0x800);
    part := if fails && c.count > 1 then [data, Stop(false, 0x800)] else [data];
  }

  ghost predicate Plausible(e: Issued, read: bool, all: seq<Chunk>, scale: nat)
    requires e.Data?
  {
    && e.read == read && e.chunk in all && e.chunk.count > 0 && Ordered(e) && e.argument == e.chunk.block * scale
    && Tile(e.walked, e.chunk.data, MovedBytes(e.chunk))
  }

  /** The commands that were issued. */
  lemma {:induction false} PerformedCommands(read: bool, all: seq<Chunk>, sent: seq<Issued>, ok: bool)
    requires Performed(read, all, sent, ok)
    ensures Commands(sent) <= all
    ensures ok ==> Commands(sent) == all
    ensures !ok ==> |Commands(sent)| > 0
    decreases |all|
  {
    hide Reported, Part, Cut, Commands;
    NoCommands();
    if all != [] {
      var p := Cut(all[0], sent);
      CommandsPart(read, all[0], sent[..p]);
      CommandsConcat(sent[..p], sent[p..]);
      assert sent == sent[..p] + sent[p..];
      if Reported(all[0], sent[..p]) {
        PerformedCommands(read, all[1..], sent[p..], ok);
        assert all == [all[0]] + all[1..];
      }
    }
  }

  lemma NoCommands()
    ensures Commands([]) == []
  {
  }

  /** The memory that the controller walks for the commands of a log. */
  function Walks(log: seq<Issued>): seq<Segment> {
    if log == [] then [] else (if log[0].Data? then log[0].walked else []) + Walks(log[1..])
  }

  lemma WalksPart(read: bool, c: Chunk, sent: seq<Issued>, p: nat)
    requires 0 < p <= |sent| && Part(read, c, sent[..p])
    ensures Walks(sent) == sent[0].walked + Walks(sent[p..])
  {
    var part := sent[..p];
    assert part[0] == sent[0];
    if p == 2 {
      assert part[1] == sent[1];
      WalksStop(sent[1..]);
      assert sent[1..][1..] == sent[2..];
    }
    hide Part;
  }

  lemma WalksStop(sent: seq<Issued>)
    requires sent != [] && sent[0].Stop?
    ensures Walks(sent) == Walks(sent[1..])
  {
  }

  /** A request that is reported as a success has the controller walk the caller's buffer,
      each byte once and in order. */
  lemma {:induction false} PerformedMemory(read: bool, all: seq<Chunk>, sent: seq<Issued>, data: nat, len: nat)
    requires Performed(read, all, sent, true) && TileMemory(all, data, len)
    requires forall e :: e in sent && e.Data? ==> Tile(e.walked, e.chunk.data, MovedBytes(e.chunk))
    ensures Tile(Walks(sent), data, len)
    decreases |all|
  {
    hide Reported, Tile, MovedBytes;
    if all == [] {
      NoTile(data);
    } else {
      var p := Cut(all[0], sent);
      var k := MovedBytes(all[0]);
      WalksPart(read, all[0], sent, p);
      assert sent[0] in sent && sent[0] == sent[..p][0];
      PerformedMemory(read, all[1..], sent[p..], data + k, len - k);
      TileConcat(sent[0].walked, Walks(sent[p..]), data, k, len - k);
    }
  }

  lemma NoTile(data: nat)
    ensures Tile([], data, 0)
  {
  }

  lemma CleanStatus()
    ensures Clean(0x800)
  {
  }

  /** The next command of a request of whole blocks. */
  lemma NextChunk(at: nat, len: nat, data: nat, blockSize: nat)
    requires SDHCI_MMC_BLK_SZ <= blockSize && SDHCI_ADMA_MAX_TRANS_SZ % blockSize == 0
    requires 0 < len && len % blockSize == 0
    ensures var m := if len > SDHCI_ADMA_MAX_TRANS_SZ then SDHCI_ADMA_MAX_TRANS_SZ else len;
      && var cs, count := Chunks(at, len, data, blockSize), BlockOf(m, blockSize);
      && |cs| >= 1 && cs[0] == Chunk(BlockOf(at, blockSize), count, data)
      && cs[1..] == Chunks(at + m, len - m, data + m, blockSize) && (len - m) % blockSize == 0
      && 0 < count <= 65535 && SDHCI_MMC_BLK_SZ * count <= m
  {
    var m := if len > SDHCI_ADMA_MAX_TRANS_SZ then SDHCI_ADMA_MAX_TRANS_SZ else len;
    var q := m / blockSize;
    assert m % blockSize == 0 && m == blockSize * q;
    MulMono(q, SDHCI_MMC_BLK_SZ, blockSize);
    Distribute(blockSize, len / blockSize, -q);
    DivModUnique(len - m, blockSize, len / blockSize - q, 0);
    if len > SDHCI_ADMA_MAX_TRANS_SZ {
      ChunksStep(at, len, data, blockSize);
    }
  }

  ghost predicate Guarded(e: Issued, lastBlock: nat, slot: nat)
    requires e.Data?
  {
    && Within(e.chunk, 0, lastBlock + 1) && e.chunk.count > 0
    && Ordered(e) && Tile(e.walked, e.chunk.data, e.blkCnt * e.blkSize)
    && (Writes(e.index) && slot <= 1 ==> e.chunk.block > LAST_PROTECTED)
  }

  lemma GuardedWalk(e: Issued, lastBlock: nat, slot: nat)
    requires e.Data? && Guarded(e, lastBlock, slot)
    ensures Tile(e.walked, e.chunk.data, MovedBytes(e.chunk))
  {
    hide Tile;
  }

  lemma WholeBlocks(n: nat, blockSize: nat)
    requires n > 0 && blockSize > 0
    ensures n * blockSize > 0 && n * blockSize % blockSize == 0
  {
    MulBound(blockSize, n);
    DivModUnique(n * blockSize, blockSize, n, 0);
  }

  lemma NothingPerformed(read: bool)
    ensures Performed(read, [], [], true)
  {
  }

  lemma NoMore(at: nat, data: nat, blockSize: nat)
    requires blockSize > 0
    ensures Chunks(at, 0, data, blockSize) == []
  {
  }

  /** One more command is issued. */
  lemma OneMore(read: bool, all: seq<Chunk>, k: nat, sent: seq<Issued>, part: seq<Issued>)
    requires k < |all| && Performed(read, all[..k], sent, true) && Part(read, all[k], part)
    ensures if Reported(all[k], part) then Performed(read, all[..k + 1], sent + part, true) else Performed(read, all, sent + part, false)
  {
    hide Performed, Reported, Part;
    var rest := all[k..];
    PartPerformed(read, rest, part);
    if Reported(all[k], part) {
      PerformedConcat(read, all[..k], [all[k]], sent, part, true);
      assert all[..k + 1] == all[..k] + [all[k]];
    } else {
      PerformedConcat(read, all[..k], rest, sent, part, false);
      assert all == all[..k] + rest;
    }
  }

  /** The next command of a request stays inside it. */
  lemma NextInside(all: seq<Chunk>, k: nat, blkAddr: nat, blkLen: nat, sptr: nat, blockSize: nat,
                   at: nat, len: nat, data: nat, lba: nat, n: nat)
    requires SDHCI_MMC_BLK_SZ <= blockSize && SDHCI_ADMA_MAX_TRANS_SZ % blockSize == 0
    requires at == lba * blockSize && len == n * blockSize && all == Chunks(at, len, data, blockSize)
    requires k <= |all| && all[k..] == Chunks(blkAddr, blkLen, sptr, blockSize) && 0 < blkLen && blkLen % blockSize == 0
    ensures var m := if blkLen > SDHCI_ADMA_MAX_TRANS_SZ then SDHCI_ADMA_MAX_TRANS_SZ else blkLen;
      && k < |all| && all[k] == Chunk(BlockOf(blkAddr, blockSize), BlockOf(m, blockSize), sptr)
      && all[k + 1..] == Chunks(blkAddr + m, blkLen - m, sptr + m, blockSize) && (blkLen - m) % blockSize == 0
      && 0 < all[k].count <= 65535 && SDHCI_MMC_BLK_SZ * all[k].count <= m
      && lba <= all[k].block && all[k].block + all[k].count <= lba + n
  {
    hide Chunks, BlockOf, Within;
    NextChunk(blkAddr, blkLen, sptr, blockSize);
    assert all[k..][0] == all[k] && all[k..][1..] == all[k + 1..];
    Inside(all, k, blockSize, at, len, data, lba, n);
  }

  lemma Inside(all: seq<Chunk>, k: nat, blockSize: nat, at: nat, len: nat, data: nat, lba: nat, n: nat)
    requires blockSize > 0 && at == lba * blockSize && len == n * blockSize
    requires all == Chunks(at, len, data, blockSize) && k < |all|
    ensures lba <= all[k].block && all[k].block + all[k].count <= lba + n
  {
    hide Chunks, BlockOf;
    ChunksWithin(at, len, data, blockSize, k);
    Ends(lba, n, blockSize);
  }

  lemma Ends(lba: nat, n: nat, blockSize: nat)
    requires blockSize > 0
    ensures BlockOf(lba * blockSize, blockSize) == lba
    ensures BlockOf(lba * blockSize + n * blockSize, blockSize) == lba + n
  {
    hide BlockOf;
    BlockOfMultiple(lba, blockSize);
    BlockOfMultiple(lba + n, blockSize);
    AddMultiples(lba, n, blockSize);
  }

  lemma BlockOfMultiple(n: nat, blockSize: nat)
    requires blockSize > 0
    ensures BlockOf(n * blockSize, blockSize) == n
  {
    Multiple(n, blockSize);
  }

  lemma AddMultiples(a: nat, b: nat, c: nat)
    ensures a * c + b * c == (a + b) * c
  {
  }

  lemma AddressFits(block: nat, lastBlock: nat, blockSize: nat)
    requires block <= lastBlock && (lastBlock + 1) * blockSize <= WORD && blockSize > 0
    ensures block * blockSize < WORD && block * blockSize / blockSize == block && block * blockSize % blockSize == 0
  {
    MulMono(blockSize, block + 1, lastBlock + 1);
    Distribute(blockSize, block, 1);
    Multiple(block, blockSize);
  }
}
