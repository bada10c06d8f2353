/** How a block request is cut into commands, as values. */
module MmcChunks {
  import opened Bits
  import opened SdhciHost

  const SDHCI_ADMA_MAX_TRANS_SZ := 65535 * 512

  /** A data command: its first block, how many blocks it moves, and the memory it moves. */
  datatype Chunk = Chunk(block: nat, count: nat, data: nat)

  /** Whole blocks in a number of bytes. */
  function BlockOf(bytes: nat, blockSize: nat): nat
    requires blockSize > 0
  {
    bytes / blockSize
  }

  /** The commands for `len` bytes at byte `at` of the card and at address `data`. */
  function Chunks(at: nat, len: nat, data: nat, blockSize: nat): seq<Chunk>
    requires blockSize > 0
    decreases len
  {
    if len == 0 then []
    else if len <= SDHCI_ADMA_MAX_TRANS_SZ then [Chunk(BlockOf(at, blockSize), BlockOf(len, blockSize), data)]
    else
      [Chunk(BlockOf(at, blockSize), BlockOf(SDHCI_ADMA_MAX_TRANS_SZ, blockSize), data)]
      + Chunks(at + SDHCI_ADMA_MAX_TRANS_SZ, len - SDHCI_ADMA_MAX_TRANS_SZ, data + SDHCI_ADMA_MAX_TRANS_SZ, blockSize)
  }

  /** Commands whose blocks make up [first, first + count), each block once and in order. */
  ghost predicate TileBlocks(chunks: seq<Chunk>, first: nat, count: nat) {
    if chunks == [] then count == 0
    else
      && chunks[0].block == first && 0 < chunks[0].count <= count
      && TileBlocks(chunks[1..], first + chunks[0].count, count - chunks[0].count)
  }

  /** The blocks of a command lie in [first, end). */
  ghost predicate Within(c: Chunk, first: nat, end: nat) {
    first <= c.block && c.block + c.count <= end
  }

  /** The largest command is a whole number of blocks, or one command is enough. */
  predicate Even(len: nat, blockSize: nat)
    requires blockSize > 0
  {
    SDHCI_ADMA_MAX_TRANS_SZ % blockSize == 0 || len <= SDHCI_ADMA_MAX_TRANS_SZ
  }

  function Blocks(chunks: seq<Chunk>): nat {
    if chunks == [] then 0 else chunks[0].count + Blocks(chunks[1..])
  }

  lemma {:induction false} TiledBlocks(chunks: seq<Chunk>, first: nat, count: nat)
    requires TileBlocks(chunks, first, count)
    ensures Blocks(chunks) == count
  {
    if chunks != [] {
      TiledBlocks(chunks[1..], first + chunks[0].count, count - chunks[0].count);
    }
  }

  lemma {:induction false} TiledCounts(chunks: seq<Chunk>, first: nat, count: nat)
    requires TileBlocks(chunks, first, count)
    ensures forall c :: c in chunks ==> c.count > 0
  {
    if chunks != [] {
      TiledCounts(chunks[1..], first + chunks[0].count, count - chunks[0].count);
    }
  }

  lemma {:induction false} BlocksConcat(a: seq<Chunk>, b: seq<Chunk>)
    ensures Blocks(a + b) == Blocks(a) + Blocks(b)
  {
    if a == [] {
      assert a + b == b;
    } else {
      BlocksConcat(a[1..], b);
      assert (a + b)[1..] == a[1..] + b;
    }
  }

  /** The commands of a request that was cut. */
  lemma ChunksStep(at: nat, len: nat, data: nat, blockSize: nat)
    requires blockSize > 0 && len > SDHCI_ADMA_MAX_TRANS_SZ
    ensures var cs, m := Chunks(at, len, data, blockSize), SDHCI_ADMA_MAX_TRANS_SZ;
      |cs| >= 1 && cs[0] == Chunk(BlockOf(at, blockSize), BlockOf(m, blockSize), data) && cs[1..] == Chunks(at + m, len - m, data + m, blockSize)
  {
  }

  /** No command holds more blocks than its part of the request. */
  lemma {:induction false} BlocksAtMost(at: nat, len: nat, data: nat, blockSize: nat)
    requires blockSize > 0
    ensures blockSize * Blocks(Chunks(at, len, data, blockSize)) <= len
    ensures !Even(len, blockSize) ==> blockSize * Blocks(Chunks(at, len, data, blockSize)) < len
    decreases len
  {
    var m := SDHCI_ADMA_MAX_TRANS_SZ;
    if len > m {
      BlocksAtMost(at + m, len - m, data + m, blockSize);
      ChunksStep(at, len, data, blockSize);
      var rest := Blocks(Chunks(at + m, len - m, data + m, blockSize));
      Distribute(blockSize, m / blockSize, rest);
      Floor(m, blockSize);
    } else if len > 0 {
      assert Chunks(at, len, data, blockSize)[1..] == [];
      Floor(len, blockSize);
    }
  }

  lemma Floor(a: nat, b: nat)
    requires b > 0
    ensures b * (a / b) <= a && (a % b != 0 ==> b * (a / b) < a)
  {
  }

  /** The commands tile the blocks of the request exactly if the largest command is a whole
      number of blocks or a single command is enough. */
  lemma TileIff(lba: nat, n: nat, data: nat, blockSize: nat)
    requires blockSize > 0
    ensures TileBlocks(Chunks(lba * blockSize, n * blockSize, data, blockSize), lba, n) <==> Even(n * blockSize, blockSize)
  {
    var cs := Chunks(lba * blockSize, n * blockSize, data, blockSize);
    if Even(n * blockSize, blockSize) {
      EvenTiles(lba, n, data, blockSize);
    } else {
      BlocksAtMost(lba * blockSize, n * blockSize, data, blockSize);
      if TileBlocks(cs, lba, n) {
        TiledBlocks(cs, lba, n);
        assert false;
      }
    }
  }

  lemma {:induction false} EvenTiles(lba: nat, n: nat, data: nat, blockSize: nat)
    requires blockSize > 0 && Even(n * blockSize, blockSize)
    ensures TileBlocks(Chunks(lba * blockSize, n * blockSize, data, blockSize), lba, n)
    decreases n
  {
    var m := SDHCI_ADMA_MAX_TRANS_SZ;
    var k := m / blockSize;
    Multiple(lba, blockSize);
    Multiple(n, blockSize);
    if n * blockSize > m {
      assert m == k * blockSize;
      Parts(lba, n, k, blockSize);
      EvenTiles(lba + k, n - k, data + m, blockSize);
      ChunksStep(lba * blockSize, n * blockSize, data, blockSize);
    } else if n > 0 {
      MulBound(blockSize, n);
      assert Chunks(lba * blockSize, n * blockSize, data, blockSize) == [Chunk(lba, n, data)];
    }
  }

  lemma Multiple(n: nat, blockSize: nat)
    requires blockSize > 0
    ensures n * blockSize / blockSize == n && n * blockSize % blockSize == 0
    ensures n == 0 ==> n * blockSize == 0
  {
    DivModUnique(n * blockSize, blockSize, n, 0);
  }

  lemma Parts(lba: nat, n: nat, k: nat, blockSize: nat)
    requires blockSize > 0 && k * blockSize < n * blockSize && k * blockSize > 0
    ensures 0 < k < n
    ensures (lba + k) * blockSize == lba * blockSize + k * blockSize && (n - k) * blockSize == n * blockSize - k * blockSize
  {
    MulLess(blockSize, k, n);
    Distribute(blockSize, lba, k);
    Distribute(blockSize, n - k, k);
  }

  /** Whatever the block size, no command leaves the blocks of the request. */
  lemma {:induction false} ChunksWithin(at: nat, len: nat, data: nat, blockSize: nat, i: nat)
    requires blockSize > 0 && i < |Chunks(at, len, data, blockSize)|
    ensures Within(Chunks(at, len, data, blockSize)[i], BlockOf(at, blockSize), BlockOf(at + len, blockSize))
    decreases len
  {
    hide BlockOf;
    var m := SDHCI_ADMA_MAX_TRANS_SZ;
    if len > m {
      ChunksStep(at, len, data, blockSize);
      FloorSum(at, m, blockSize);
      FloorSum(at + m, len - m, blockSize);
      if i > 0 {
        ChunksWithin(at + m, len - m, data + m, blockSize, i - 1);
      }
    } else {
      FloorSum(at, len, blockSize);
    }
  }

  lemma FloorSum(a: nat, b: nat, n: nat)
    requires n > 0
    ensures BlockOf(a, n) + BlockOf(b, n) <= BlockOf(a + b, n)
  {
    Distribute(n, a / n, b / n);
    DivAtLeast(a + b, n, a / n + b / n);
  }

  // The memory that the commands move.

  /** What the controller moves for a command: it counts 512 bytes for each block. */
  function MovedBytes(c: Chunk): nat {
    c.count * SDHCI_MMC_BLK_SZ
  }

  /** The memory of the commands makes up [data, data + len), each byte once and in order. */
  ghost predicate TileMemory(chunks: seq<Chunk>, data: nat, len: nat) {
    if chunks == [] then len == 0
    else
      && chunks[0].data == data && MovedBytes(chunks[0]) <= len
      && TileMemory(chunks[1..], data + MovedBytes(chunks[0]), len - MovedBytes(chunks[0]))
  }

  lemma {:induction false} TiledMemory(chunks: seq<Chunk>, data: nat, len: nat)
    requires TileMemory(chunks, data, len)
    ensures SDHCI_MMC_BLK_SZ * Blocks(chunks) == len
  {
    if chunks != [] {
      TiledMemory(chunks[1..], data + MovedBytes(chunks[0]), len - MovedBytes(chunks[0]));
    }
  }

  /** The commands of a request move exactly the caller's buffer if and only if blocks have
      512 bytes or there are none. */
  lemma MemoryIff(lba: nat, n: nat, data: nat, blockSize: nat)
    requires blockSize > 0 && Even(n * blockSize, blockSize)
    ensures TileMemory(Chunks(lba * blockSize, n * blockSize, data, blockSize), data, n * blockSize)
            <==> blockSize == SDHCI_MMC_BLK_SZ || n == 0
  {
    var cs := Chunks(lba * blockSize, n * blockSize, data, blockSize);
    Multiple(n, blockSize);
    if n > 0 && blockSize == SDHCI_MMC_BLK_SZ {
      MemoryTiles(lba * blockSize, n, data);
    } else if n > 0 {
      EvenTiles(lba, n, data, blockSize);
      TiledBlocks(cs, lba, n);
      if TileMemory(cs, data, n * blockSize) {
        TiledMemory(cs, data, n * blockSize);
        SameFactor(n, blockSize, SDHCI_MMC_BLK_SZ);
      }
    }
  }

  lemma SameFactor(n: nat, a: nat, b: nat)
    requires n > 0 && n * a == n * b
    ensures a == b
  {
    DivModUnique(n * a, n, a, 0);
    DivModUnique(n * b, n, b, 0);
  }

  lemma {:induction false} MemoryTiles(at: nat, n: nat, data: nat)
    ensures TileMemory(Chunks(at, n * SDHCI_MMC_BLK_SZ, data, SDHCI_MMC_BLK_SZ), data, n * SDHCI_MMC_BLK_SZ)
    decreases n
  {
    var m := SDHCI_ADMA_MAX_TRANS_SZ;
    if n > 65535 {
      MemoryTiles(at + m, n - 65535, data + m);
      ChunksStep(at, n * SDHCI_MMC_BLK_SZ, data, SDHCI_MMC_BLK_SZ);
    }
  }
}
