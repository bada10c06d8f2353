/** Block reads and writes of a card: checks, commands and what the caller is told. */
module MmcBlockIo {
  import opened Bits
  import opened SdhciHost
  import opened MmcChunks
  import opened MmcCommands

  datatype Status = Success | MediaChanged | InvalidParameter | BadBufferSize | Unsupported | DeviceError

  const ADDRESSES := 0x1_0000_0000_0000_0000

  datatype Request = Request(write: bool, id: nat, lba: nat, size: nat, buffer: nat) {
    predicate InMemory() {
      lba < ADDRESSES && size < WORD && buffer + size <= WORD
    }
  }

  class Card {
    const mediaId: nat
    const blockSize: nat
    const lastBlock: nat
    const slot: nat
    /** Standard cards take byte addresses, the others block addresses. */
    const byteAddressed: bool
    /** All commands that went out. */
    ghost var log: seq<Issued>

    /** The capacity is that of a card that can be addressed. */
    ghost predicate Media() {
      && SDHCI_MMC_BLK_SZ <= blockSize && SDHCI_ADMA_MAX_TRANS_SZ % blockSize == 0
      && (lastBlock + 1) * blockSize <= ADDRESSES
      && (if byteAddressed then (lastBlock + 1) * blockSize <= WORD else lastBlock < WORD)
    }

    /** The block that the card takes the argument of a command for. */
    function FirstBlock(argument: nat): nat
      requires blockSize > 0
    {
      if byteAddressed then argument / blockSize else argument
    }

    /** How many blocks a command moves: one, or as many as the controller was told to count. */
    function BlockCount(e: Issued): nat
      requires e.Data?
    {
      if Several(e.index) then e.blkCnt else 1
    }

    /** The argument names the first block of the chunk, and no byte inside of it. */
    ghost predicate Addressed(e: Issued)
      requires e.Data? && blockSize > 0
    {
      e.chunk.block == FirstBlock(e.argument) && (byteAddressed ==> e.argument % blockSize == 0)
    }

    /** In every state: commands stay on the card, the controller walks the memory of each
        one, and nothing was written to the protected blocks. */
    ghost predicate Valid()
      reads this
    {
      Media() && forall e :: e in log && e.Data? ==> Guarded(e, lastBlock, slot) && Addressed(e)
    }

    constructor (mediaId: nat, blockSize: nat, lastBlock: nat, slot: nat, byteAddressed: bool)
      requires SDHCI_MMC_BLK_SZ <= blockSize && SDHCI_ADMA_MAX_TRANS_SZ % blockSize == 0
      requires (lastBlock + 1) * blockSize <= ADDRESSES
      requires if byteAddressed then (lastBlock + 1) * blockSize <= WORD else lastBlock < WORD
      ensures Valid() && log == []
      ensures this.mediaId == mediaId && this.blockSize == blockSize && this.lastBlock == lastBlock
      ensures this.slot == slot && this.byteAddressed == byteAddressed
    {
      this.mediaId, this.blockSize, this.lastBlock := mediaId, blockSize, lastBlock;
      this.slot, this.byteAddressed := slot, byteAddressed;
      log := [];
    }

    /** The argument that the card takes for a block. */
    method Argument(block: nat) returns (argument: nat)
      requires Media() && block <= lastBlock
      ensures argument < WORD && block == FirstBlock(argument) && (byteAddressed ==> argument % blockSize == 0)
    {
      if byteAddressed {
        AddressFits(block, lastBlock, blockSize);
        argument := block * blockSize % WORD;
        NoWrap(block * blockSize);
      } else {
        argument := block % WORD;
      }
    }

    lemma NoWrap(x: nat)
      requires x < WORD
      ensures x % WORD == x
    {
    }

    /** The table for a command, and the two registers that go with it. */
    method AdmaTransfer(numBlocks: nat, data: nat) returns (ghost walked: seq<Segment>, blkSize: nat, blkCnt: nat)
      requires 0 < numBlocks <= 65535 && data + numBlocks * SDHCI_MMC_BLK_SZ <= WORD
      ensures Tile(walked, data, numBlocks * SDHCI_MMC_BLK_SZ)
      ensures blkSize == 512 && blkCnt == numBlocks
    {
      var sz := numBlocks * SDHCI_MMC_BLK_SZ % WORD;
      var table := PrepDescTable(data, sz);
      WalkTiles(table[..], data, sz);
      walked := Walk(table[..]);
      blkSize, blkCnt := SDHCI_MMC_BLK_SZ, numBlocks % 0x1_0000;
    }

    /** One read or write command; whether it fails and what the card answers is open. */
    method Issue(read: bool, data: nat, blkAddr: nat, numBlocks: nat) returns (ret: nat, ghost sent: seq<Issued>)
      requires Valid() && 0 < numBlocks <= 65535 && data + numBlocks * SDHCI_MMC_BLK_SZ <= WORD
      requires blkAddr + numBlocks <= lastBlock + 1 && (!read && slot <= 1 ==> blkAddr > LAST_PROTECTED)
      modifies this`log
      ensures Valid() && log == old(log) + sent && Part(read, Chunk(blkAddr, numBlocks, data), sent)
      ensures ret == 0 <==> Reported(Chunk(blkAddr, numBlocks, data), sent)
    {
      IndexMeans(read, Chunk(blkAddr, numBlocks, data));
      hide Clean, Tile, Media;
      var index := if read then (if numBlocks == 1 then 17 else 18) else if numBlocks == 1 then 24 else 25;
      var argument := Argument(blkAddr);
      ghost var walked;
      var blkSize, blkCnt;
      walked, blkSize, blkCnt := AdmaTransfer(numBlocks, data);
      var failed: bool := *;
      var resp: bv32 := *;
      ghost var e := Data(read, index, argument, Chunk(blkAddr, numBlocks, data), walked, blkSize, blkCnt, failed, resp);
      RecordData(e);
      sent := [e];
      if failed && numBlocks > 1 {
        var stopFailed: bool := *;
        var stopResp: bv32 := *;
        RecordStop(Stop(stopFailed, stopResp));
        sent := sent + [Stop(stopFailed, stopResp)];
        ret := 1;
        if !stopFailed {
          ret := ParseResponse(stopResp);
        }
        return;
      }
      ret := ParseResponse(resp);
    }

    /** A request of `n` blocks from `lba` on: all its commands if it succeeds, a prefix that
        ends with the one that was reported as failed if it does not. */
    method Transfer(read: bool, at: nat, len: nat, data: nat, ghost lba: nat, ghost n: nat)
      returns (ret: nat, ghost sent: seq<Issued>)
      requires Valid() && at == lba * blockSize && len == n * blockSize && 0 < n && data + len <= WORD
      requires lba + n <= lastBlock + 1 && (!read && slot <= 1 ==> lba > LAST_PROTECTED)
      modifies this`log
      ensures Valid() && log == old(log) + sent
      ensures Performed(read, Chunks(at, len, data, blockSize), sent, ret == 0)
    {
      hide Part, Reported, Guarded, Chunks, Within, BlockOf, Performed, Media;
      var blkAddr: nat, blkLen: nat, sptr: nat := at, len, data;
      sent := [];
      ret := 0;
      MediaIs();
      ghost var all, k := Chunks(at, len, data, blockSize), 0;
      WholeBlocks(n, blockSize);
      NothingPerformed(read);
      while blkLen > SDHCI_ADMA_MAX_TRANS_SZ
        invariant Valid() && log == old(log) + sent && k <= |all| && Performed(read, all[..k], sent, true)
        invariant blkLen % blockSize == 0 && 0 < blkLen <= len && sptr + blkLen == data + len
        invariant all[k..] == Chunks(blkAddr, blkLen, sptr, blockSize)
      {
        NextInside(all, k, blkAddr, blkLen, sptr, blockSize, at, len, data, lba, n);
        ghost var part;
        ret, part := Issue(read, sptr, BlockOf(blkAddr, blockSize), BlockOf(SDHCI_ADMA_MAX_TRANS_SZ, blockSize));
        OneMore(read, all, k, sent, part);
        sent := sent + part;
        if ret != 0 {
          return;
        }
        k := k + 1;
        sptr := sptr + SDHCI_ADMA_MAX_TRANS_SZ;
        blkAddr := blkAddr + SDHCI_ADMA_MAX_TRANS_SZ;
        blkLen := blkLen - SDHCI_ADMA_MAX_TRANS_SZ;
      }
      if blkLen != 0 {
        NextInside(all, k, blkAddr, blkLen, sptr, blockSize, at, len, data, lba, n);
        NoMore(blkAddr + blkLen, sptr + blkLen, blockSize);
        ghost var part;
        ret, part := Issue(read, sptr, BlockOf(blkAddr, blockSize), BlockOf(blkLen, blockSize));
        OneMore(read, all, k, sent, part);
        sent := sent + part;
        assert all[..k + 1] == all;
      }
    }

    lemma MediaIs()
      requires Media()
      ensures SDHCI_MMC_BLK_SZ <= blockSize && SDHCI_ADMA_MAX_TRANS_SZ % blockSize == 0
      ensures (lastBlock + 1) * blockSize <= ADDRESSES
    {
    }

    ghost method RecordData(e: Issued)
      requires Valid() && e.Data? && Guarded(e, lastBlock, slot) && Addressed(e)
      modifies this`log
      ensures Valid() && log == old(log) + [e]
    {
      log := log + [e];
    }

    ghost method RecordStop(e: Issued)
      requires Valid() && e.Stop?
      modifies this`log
      ensures Valid() && log == old(log) + [e]
    {
      log := log + [e];
    }

    /** The requests that have blocks to move. */
    ghost predicate Accepted(id: nat, lba: nat, size: nat, buffer: nat)
      requires blockSize > 0
    {
      id == mediaId && size % blockSize == 0 && 0 < size && buffer != 0 && lba + size / blockSize <= lastBlock + 1
    }

    /** What a request that moves no blocks is told. An empty one succeeds, except at block 0,
        where the number of its last block wraps around. */
    ghost predicate Answered(id: nat, lba: nat, size: nat, buffer: nat, status: Status)
      requires blockSize > 0
    {
      && (status == Success <==> id == mediaId && size == 0 && buffer != 0 && 1 <= lba <= lastBlock)
      && (status == MediaChanged <==> id != mediaId)
      && (status == BadBufferSize <==> (
            id == mediaId && size % blockSize != 0 && lba <= lastBlock && 1 <= lba + size / blockSize <= lastBlock + 1))
      && (status.Success? || status.MediaChanged? || status.BadBufferSize? || status.InvalidParameter?)
    }

    /** The checks that reads and writes share. */
    method Check(id: nat, lba: nat, size: nat, buffer: nat) returns (status: Status, done: bool)
      requires Media() && lba < ADDRESSES && size < WORD
      ensures !done <==> Accepted(id, lba, size, buffer)
      ensures if done then Answered(id, lba, size, buffer, status) else status == Success
    {
      MediaIs();
      ghost var n := size / blockSize;
      LastBlockFits(lastBlock, blockSize);
      BlocksFit(size, blockSize);
      if id != mediaId {
        return MediaChanged, true;
      }
      if lba > lastBlock {
        return InvalidParameter, true;
      }
      if (lba + size / blockSize - 1) % ADDRESSES > lastBlock {
        return InvalidParameter, true;
      }
      if size % blockSize != 0 {
        return BadBufferSize, true;
      }
      if buffer == 0 {
        return InvalidParameter, true;
      }
      return Success, size == 0;
    }

    /** What an accepted request has done: all of it, if success is reported, or a non-empty
        prefix of its commands. */
    ghost predicate Carried(read: bool, lba: nat, size: nat, buffer: nat, status: Status, sent: seq<Issued>)
      requires blockSize > 0
    {
      var all := Chunks(lba * blockSize, size, buffer, blockSize);
      && (status == Success || status == DeviceError)
      && Performed(read, all, sent, status == Success)
      && (status == Success <==> AllAnsweredWell(sent))
      && (status == Success ==> Commands(sent) == all && TileBlocks(all, lba, size / blockSize))
      && (status == Success && blockSize == SDHCI_MMC_BLK_SZ ==> Tile(Walks(sent), buffer, size))
      && (status == Success ==> (TileBlocks(Moved(sent), lba, size / blockSize) <==> AllWent(sent)))
      && (status == DeviceError ==> Commands(sent) != [] && Commands(sent) <= all)
    }

    /** For every request that is accepted there is a run in which a data command fails and
        success is reported. */
    lemma HiddenFailureOccurs(read: bool, id: nat, lba: nat, size: nat, buffer: nat) returns (sent: seq<Issued>)
      requires Media() && Accepted(id, lba, size, buffer) && (!read && slot <= 1 ==> lba > LAST_PROTECTED)
      ensures Carried(read, lba, size, buffer, Success, sent)
      ensures !AllWent(sent) && !TileBlocks(Moved(sent), lba, size / blockSize)
      ensures forall e :: e in sent && e.Data? ==> Guarded(e, lastBlock, slot) && Addressed(e)
    {
      hide Chunks, Performed, Carried, Commands, AllWent, AllAnsweredWell, Guarded, Addressed, Plausible;
      AcceptedIs(id, lba, size, buffer);
      var n, all := size / blockSize, Chunks(lba * blockSize, size, buffer, blockSize);
      TileIff(lba, n, buffer, blockSize);
      TiledCounts(all, lba, n);
      var scale := if byteAddressed then blockSize else 1;
      sent := WellAnswered(read, all, scale, true);
      forall e | e in sent && e.Data?
        ensures Guarded(e, lastBlock, slot) && Addressed(e)
      {
        PlausibleGuarded(e, read, lba, n, buffer, scale);
      }
      CarriedIs(read, lba, size, buffer, Success, sent);
      ReportedIff(read, all, sent, true);
      HiddenFailureIff(read, all, sent, true, lba, n);
    }

    lemma PlausibleGuarded(e: Issued, read: bool, lba: nat, n: nat, buffer: nat, scale: nat)
      requires Media() && e.Data? && Plausible(e, read, Chunks(lba * blockSize, n * blockSize, buffer, blockSize), scale)
      requires scale == if byteAddressed then blockSize else 1
      requires lba + n <= lastBlock + 1 && (!read && slot <= 1 ==> lba > LAST_PROTECTED)
      ensures Guarded(e, lastBlock, slot) && Addressed(e)
    {
      hide Chunks, Tile;
      var all := Chunks(lba * blockSize, n * blockSize, buffer, blockSize);
      var k :| 0 <= k < |all| && all[k] == e.chunk;
      Inside(all, k, blockSize, lba * blockSize, n * blockSize, buffer, lba, n);
      Multiple(e.chunk.block, blockSize);
    }

    method Move(read: bool, ghost id: nat, lba: nat, size: nat, buffer: nat)
      returns (status: Status, ghost sent: seq<Issued>)
      requires Valid() && Accepted(id, lba, size, buffer) && buffer + size <= WORD
      requires !read && slot <= 1 ==> lba > LAST_PROTECTED
      modifies this`log
      ensures Valid() && log == old(log) + sent && status != Unsupported
      ensures Carried(read, lba, size, buffer, status, sent)
    {
      hide Guarded, Performed, Carried, Accepted, Media, Chunks;
      MediaIs();
      AcceptedIs(id, lba, size, buffer);
      var rc;
      rc, sent := Transfer(read, lba * blockSize % ADDRESSES, size, buffer, lba, size / blockSize);
      status := if rc == 0 then Success else DeviceError;
      CarriedIs(read, lba, size, buffer, status, sent);
    }

    method ReadBlocks(id: nat, lba: nat, size: nat, buffer: nat) returns (status: Status, ghost sent: seq<Issued>)
      requires Valid() && lba < ADDRESSES && size < WORD && buffer + size <= WORD
      modifies this`log
      ensures Valid() && log == old(log) + sent
      ensures Accepted(id, lba, size, buffer) ==> Carried(true, lba, size, buffer, status, sent)
      ensures !Accepted(id, lba, size, buffer) ==> sent == []
      ensures !Accepted(id, lba, size, buffer) ==> Answered(id, lba, size, buffer, status)
    {
      hide Guarded, Performed, Carried, Accepted, Media, Chunks, Answered;
      MediaIs();
      sent := [];
      var done;
      status, done := Check(id, lba, size, buffer);
      if done {
        return;
      }
      status, sent := Move(true, id, lba, size, buffer);
    }

    /** Writes to the protected blocks of the built-in card are refused. */
    method WriteBlocks(id: nat, lba: nat, size: nat, buffer: nat) returns (status: Status, ghost sent: seq<Issued>)
      requires Valid() && lba < ADDRESSES && size < WORD && buffer + size <= WORD
      modifies this`log
      ensures Valid() && log == old(log) + sent
      ensures status == Unsupported <==> Accepted(id, lba, size, buffer) && slot <= 1 && lba <= LAST_PROTECTED
      ensures Accepted(id, lba, size, buffer) && status != Unsupported ==> Carried(false, lba, size, buffer, status, sent)
      ensures !Accepted(id, lba, size, buffer) || status == Unsupported ==> sent == []
      ensures !Accepted(id, lba, size, buffer) ==> Answered(id, lba, size, buffer, status)
    {
      hide Guarded, Performed, Carried, Accepted, Media, Chunks, Answered;
      MediaIs();
      sent := [];
      var done;
      status, done := Check(id, lba, size, buffer);
      if done {
        AnsweredIs(id, lba, size, buffer, status);
        return;
      }
      if slot <= 1 && 0 <= lba <= LAST_PROTECTED {
        return Unsupported, [];
      }
      status, sent := Move(false, id, lba, size, buffer);
    }

    lemma AnsweredIs(id: nat, lba: nat, size: nat, buffer: nat, status: Status)
      requires blockSize > 0 && Answered(id, lba, size, buffer, status)
      ensures status != Unsupported
    {
    }

    lemma AcceptedIs(id: nat, lba: nat, size: nat, buffer: nat)
      requires Media() && Accepted(id, lba, size, buffer)
      ensures lba * blockSize < ADDRESSES && size == size / blockSize * blockSize && size / blockSize > 0
      ensures lba + size / blockSize <= lastBlock + 1
    {
      MulMono(blockSize, lba + 1, lastBlock + 1);
      Distribute(blockSize, lba, 1);
    }

    lemma CarriedIs(read: bool, lba: nat, size: nat, buffer: nat, status: Status, sent: seq<Issued>)
      requires Media() && size == size / blockSize * blockSize && (status == Success || status == DeviceError)
      requires Performed(read, Chunks(lba * blockSize, size, buffer, blockSize), sent, status == Success)
      requires forall e :: e in sent && e.Data? ==> Guarded(e, lastBlock, slot)
      ensures Carried(read, lba, size, buffer, status, sent)
    {
      var all := Chunks(lba * blockSize, size, buffer, blockSize);
      var n := size / blockSize;
      PerformedCommands(read, all, sent, status == Success);
      ReportedIff(read, all, sent, status == Success);
      TileIff(lba, n, buffer, blockSize);
      if status == Success {
        MovedIff(sent, lba, n);
      }
      if status == Success && blockSize == SDHCI_MMC_BLK_SZ {
        forall e | e in sent && e.Data?
          ensures Tile(e.walked, e.chunk.data, MovedBytes(e.chunk))
        {
          GuardedWalk(e, lastBlock, slot);
        }
        hide Guarded;
        MemoryIff(lba, n, buffer, blockSize);
        PerformedMemory(read, all, sent, buffer, size);
      }
    }

    /** Over any run of requests, nothing is written on the built-in card outside the blocks
        behind the protected ones, or beyond the last block. */
    method Run(requests: seq<Request>) returns (statuses: seq<Status>)
      requires Valid()
      requires forall i :: 0 <= i < |requests| ==> requests[i].InMemory()
      modifies this`log
      ensures Valid() && |statuses| == |requests|
      ensures forall e :: e in log && e.Data? ==> Writes(e.index) || Reads(e.index)
      ensures forall e :: e in log && e.Data? ==> blockSize > 0 && FirstBlock(e.argument) + BlockCount(e) <= lastBlock + 1
      ensures forall e :: e in log && e.Data? && Writes(e.index) && slot <= 1 ==> 253951 < FirstBlock(e.argument)
    {
      hide Accepted, Carried, Media, Tile, Guarded, FirstBlock, BlockCount, Addressed, Answered;
      statuses := [];
      for i := 0 to |requests|
        invariant Valid() && |statuses| == i
      {
        var r := requests[i];
        var status;
        ghost var sent;
        if r.write {
          status, sent := WriteBlocks(r.id, r.lba, r.size, r.buffer);
        } else {
          status, sent := ReadBlocks(r.id, r.lba, r.size, r.buffer);
        }
        statuses := statuses + [status];
      }
      forall e | e in log && e.Data?
        ensures Writes(e.index) || Reads(e.index)
        ensures blockSize > 0 && FirstBlock(e.argument) + BlockCount(e) <= lastBlock + 1
        ensures Writes(e.index) && slot <= 1 ==> 253951 < FirstBlock(e.argument)
      {
        CommandMeans(e);
      }
    }

    /** What the card makes of the index and the argument of a command, and the controller of
        the block count. */
    lemma CommandMeans(e: Issued)
      requires Media() && e.Data? && Guarded(e, lastBlock, slot) && Addressed(e)
      ensures Writes(e.index) || Reads(e.index)
      ensures blockSize > 0 && FirstBlock(e.argument) + BlockCount(e) <= lastBlock + 1
      ensures Writes(e.index) && slot <= 1 ==> 253951 < FirstBlock(e.argument)
    {
      hide FirstBlock, Tile;
    }
  }

  lemma LastBlockFits(lastBlock: nat, blockSize: nat)
    requires SDHCI_MMC_BLK_SZ <= blockSize && (lastBlock + 1) * blockSize <= ADDRESSES
    ensures (lastBlock + 1) * SDHCI_MMC_BLK_SZ <= ADDRESSES
  {
    MulMono(lastBlock + 1, SDHCI_MMC_BLK_SZ, blockSize);
  }

  lemma BlocksFit(size: nat, blockSize: nat)
    requires blockSize > 0
    ensures 0 <= size / blockSize <= size
    ensures size == 0 ==> size % blockSize == 0
  {
    MulMono(size + 1, 1, blockSize);
    DivLess(size, blockSize, size + 1);
  }
}
