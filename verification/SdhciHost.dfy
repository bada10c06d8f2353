/** The SD host controller: transfer tables, clock divider and long responses, in the formats
    of the SD Host Controller Simplified Specification 3.00. */
module SdhciHost {
  import opened Bits

  const SDHCI_ADMA_DESC_LINE_SZ := 65536
  const SDHCI_MMC_BLK_SZ := 512
  const SDHCI_CLK_MAX_DIV := 2046
  const WORD := 0x1_0000_0000

  // ADMA2 descriptor tables (section 1.13).

  const TRANS_VALID: bv16 := 0x01
  const TRANS_END: bv16 := 0x02
  const TRANS_DATA: bv16 := 0x20

  /** One line of a table; a length of 0 stands for 65536 bytes. */
  datatype Entry = Entry(attr: bv16, len: nat, addr: nat)

  /** A piece of memory. */
  datatype Segment = Segment(addr: nat, bytes: nat)

  function SegmentOf(e: Entry): Segment {
    Segment(e.addr, if e.len == 0 then 65536 else e.len)
  }

  /** What the controller transfers for a table: the lines up to the one that ends it (bit 1);
      it stops at a line that is not valid (bit 0) or no transfer (bits 5 and 4). */
  function Walk(table: seq<Entry>): seq<Segment> {
    if table == [] || table[0].attr & 0x01 == 0 || table[0].attr & 0x30 != 0x20 then []
    else [SegmentOf(table[0])] + if table[0].attr & 0x02 != 0 then [] else Walk(table[1..])
  }

  /** Segments that cover `bytes` bytes from `addr` on, each byte once and in order. */
  ghost predicate Tile(segments: seq<Segment>, addr: nat, bytes: nat) {
    if segments == [] then bytes == 0
    else
      && segments[0].addr == addr && 0 < segments[0].bytes <= bytes
      && Tile(segments[1..], addr + segments[0].bytes, bytes - segments[0].bytes)
  }

  /** The table that describes a buffer. */
  ghost predicate Describes(table: seq<Entry>, addr: nat, bytes: nat) {
    && |table| >= 1
    && SDHCI_ADMA_DESC_LINE_SZ * (|table| - 1) < bytes <= SDHCI_ADMA_DESC_LINE_SZ * |table|
    && (forall i :: 0 <= i < |table| ==> LineOf(table[i], i, |table|, addr, bytes))
  }

  ghost predicate LineOf(e: Entry, i: nat, n: nat, addr: nat, bytes: nat) {
    && e.addr == addr + SDHCI_ADMA_DESC_LINE_SZ * i
    && e.len < SDHCI_ADMA_DESC_LINE_SZ
    && e.attr == (if i == n - 1 then TRANS_VALID | TRANS_DATA | TRANS_END else TRANS_VALID | TRANS_DATA)
    && SegmentOf(e).bytes == if i == n - 1 then bytes - SDHCI_ADMA_DESC_LINE_SZ * i else SDHCI_ADMA_DESC_LINE_SZ
  }

  /** A length of 0 is described like one of 65536. */
  method PrepDescTable(addr: nat, bytes: nat) returns (table: array<Entry>)
    requires addr + bytes <= WORD && bytes < WORD
    ensures fresh(table) && Describes(table[..], addr, if bytes == 0 then SDHCI_ADMA_DESC_LINE_SZ else bytes)
  {
    if bytes <= SDHCI_ADMA_DESC_LINE_SZ {
      table := new Entry[1];
      table[0] := Entry(TRANS_VALID | TRANS_DATA | TRANS_END,
                        if bytes < SDHCI_ADMA_DESC_LINE_SZ then bytes else 0, addr);
      return;
    }
    var sgLen := bytes / SDHCI_ADMA_DESC_LINE_SZ;
    var remain := bytes - sgLen * SDHCI_ADMA_DESC_LINE_SZ;
    if remain != 0 {
      sgLen := sgLen + 1;
    }
    table := new Entry[sgLen](_ => Entry(0, 0, 0));
    var data, len := addr, bytes;
    for i := 0 to sgLen - 1
      invariant data == addr + SDHCI_ADMA_DESC_LINE_SZ * i && len == bytes - SDHCI_ADMA_DESC_LINE_SZ * i
      invariant forall k :: 0 <= k < i ==> LineOf(table[k], k, sgLen, addr, bytes)
    {
      table[i] := Entry(TRANS_VALID | TRANS_DATA, 0, data);
      data := data + SDHCI_ADMA_DESC_LINE_SZ;
      len := len - SDHCI_ADMA_DESC_LINE_SZ;
    }
    table[sgLen - 1] := Entry(TRANS_VALID | TRANS_DATA | TRANS_END,
                              if len < SDHCI_ADMA_DESC_LINE_SZ then len else 0, data);
  }

  /** Every buffer has a table. */
  lemma TableFor(addr: nat, bytes: nat) returns (table: seq<Entry>)
    requires bytes > 0
    ensures Describes(table, addr, bytes)
  {
    var n := (bytes - 1) / SDHCI_ADMA_DESC_LINE_SZ + 1;
    var rest := bytes - SDHCI_ADMA_DESC_LINE_SZ * (n - 1);
    table := seq(n, i requires 0 <= i < n =>
      Entry(if i == n - 1 then TRANS_VALID | TRANS_DATA | TRANS_END else TRANS_VALID | TRANS_DATA,
            if i == n - 1 && rest < SDHCI_ADMA_DESC_LINE_SZ then rest else 0,
            addr + SDHCI_ADMA_DESC_LINE_SZ * i));
  }

  /** The controller, walking a table that describes a buffer, covers exactly that buffer. */
  lemma WalkTiles(table: seq<Entry>, addr: nat, bytes: nat)
    requires Describes(table, addr, bytes)
    ensures Tile(Walk(table), addr, bytes) && |Walk(table)| == |table|
  {
    WalkFrom(table, addr, bytes, 0);
    assert table[0..] == table;
  }

  lemma {:induction false} WalkFrom(table: seq<Entry>, addr: nat, bytes: nat, i: nat)
    requires Describes(table, addr, bytes) && i < |table|
    ensures var done := SDHCI_ADMA_DESC_LINE_SZ * i;
      Tile(Walk(table[i..]), addr + done, bytes - done) && |Walk(table[i..])| == |table| - i
    decreases |table| - i
  {
    assert LineOf(table[i], i, |table|, addr, bytes);
    Attributes();
    var rest := table[i..];
    if i == |table| - 1 {
      assert Walk(rest) == [SegmentOf(table[i])];
    } else {
      WalkFrom(table, addr, bytes, i + 1);
      assert rest[1..] == table[i + 1..];
      assert Walk(rest) == [SegmentOf(table[i])] + Walk(table[i + 1..]);
      assert Walk(rest)[1..] == Walk(table[i + 1..]);
    }
  }

  lemma Attributes()
    ensures var a, b := TRANS_VALID | TRANS_DATA, TRANS_VALID | TRANS_DATA | TRANS_END;
      && a & 0x01 != 0 && a & 0x30 == 0x20 && a & 0x02 == 0
      && b & 0x01 != 0 && b & 0x30 == 0x20 && b & 0x02 != 0
  {
  }

  /** Consecutive buffers make one. */
  lemma {:induction false} TileConcat(a: seq<Segment>, b: seq<Segment>, addr: nat, n: nat, k: nat)
    requires Tile(a, addr, n) && Tile(b, addr + n, k)
    ensures Tile(a + b, addr, n + k)
  {
    if a == [] {
      assert a + b == b;
    } else {
      TileConcat(a[1..], b, addr + a[0].bytes, n - a[0].bytes, k);
      assert (a + b)[1..] == a[1..] + b;
    }
  }

  // The clock divider (section 2.2.14).

  /** The 10-bit divider field of the clock control register. */
  function DividerOf(register: bv16): bv16 {
    ((register >> 8) & 0xFF) | (((register >> 6) & 0x03) << 8)
  }

  lemma DividerRoundTrip(div: bv16)
    requires div < 1024
    ensures DividerOf((((div & 0xFF) << 8) | (((div & 0x300) >> 8) << 6)) | 0x01) == div
  {
  }

  lemma EnableKeeps(register: bv16)
    ensures DividerOf(register | 0x02 | 0x04) == DividerOf(register)
    ensures (register | 0x02 | 0x04) & 0x04 != 0 && (register | 0x02 | 0x04) & 0x01 == register & 0x01
  {
  }

  lemma Narrow(div: nat)
    requires div < 1024
    ensures div as bv16 < 1024
  {
  }

  /** Half of the least even divider that brings the base clock down to `clk`; 1023 if none of
      the smaller ones does, 0 if the base clock is not faster. */
  ghost predicate Divides(base: nat, clk: nat, half: nat) {
    && (half == 0 <==> clk >= base)
    && half <= 1023
    && (0 < half < 1023 ==> base / (2 * half) <= clk)
    && (forall d {:trigger base / (2 * d)} :: 1 <= d < half ==> base / (2 * d) > clk)
  }

  /** The register is written with the clock off, and again, once it is stable, with it on. */
  method ClkSupply(base: nat, clk: nat) returns (half: nat, first: bv16, second: bv16)
    requires base < WORD && clk < WORD
    ensures Divides(base, clk, half)
    ensures DividerOf(first) == half as bv16 && first & 0x01 != 0 && first & 0x04 == 0
    ensures DividerOf(second) == half as bv16 && second & 0x01 != 0 && second & 0x04 != 0
  {
    half := FindDivider(base, clk);
    Narrow(half);
    DividerRoundTrip(half as bv16);
    var div := half as bv16;
    first := (((div & 0xFF) << 8) | (((div & 0x300) >> 8) << 6)) | 0x01;
    EnableKeeps(first);
    second := first | 0x02 | 0x04;  // the controller has set the bit that says stable
    FirstBits(div, first);
  }

  lemma FirstBits(div: bv16, first: bv16)
    requires first == (((div & 0xFF) << 8) | (((div & 0x300) >> 8) << 6)) | 0x01
    ensures first & 0x01 != 0 && first & 0x04 == 0
  {
  }

  method FindDivider(base: nat, clk: nat) returns (half: nat)
    ensures Divides(base, clk, half)
  {
    if clk >= base {
      return 0;
    }
    var div := 2;
    while div < SDHCI_CLK_MAX_DIV
      invariant 2 <= div <= SDHCI_CLK_MAX_DIV && div % 2 == 0
      invariant forall d {:trigger base / (2 * d)} :: 1 <= d < div / 2 ==> base / (2 * d) > clk
      decreases SDHCI_CLK_MAX_DIV - div
    {
      var freq := base / div;
      if freq <= clk {
        break;
      }
      assert div == 2 * (div / 2);
      div := div + 2;
    }
    assert div == 2 * (div / 2);
    half := div / 2;
  }

  /** Unless the divider is at its limit the true rate, base / (2 * half), is below clk + 1;
      it can lie above clk, since the driver rounds it down before it compares. */
  lemma RateBound(base: nat, clk: nat, half: nat)
    requires Divides(base, clk, half) && 0 < half < 1023
    ensures base < 2 * half * (clk + 1)
  {
    DivLow(base, 2 * half, 0);
    MulMono(2 * half, base / (2 * half) + 1, clk + 1);
  }

  /** The divider in closed form. */
  function HalfOf(base: nat, clk: nat): nat {
    if clk >= base then 0
    else
      var q := base / (2 * (clk + 1));
      if q < 1022 then q + 1 else 1023
  }

  /** The search has one possible result. */
  lemma HalfIs(base: nat, clk: nat, half: nat)
    requires Divides(base, clk, half)
    ensures half == HalfOf(base, clk)
  {
    if half > 0 {
      SlowEnough(base, clk, half);
      if half > 1 {
        SlowEnough(base, clk, half - 1);
      }
    }
  }

  /** The dividers that bring the clock down. */
  lemma SlowEnough(base: nat, clk: nat, d: nat)
    requires d > 0
    ensures base / (2 * d) <= clk <==> base / (2 * (clk + 1)) < d
  {
    DivLessIff(base, 2 * d, clk + 1);
    DivLessIff(base, 2 * (clk + 1), d);
    assert 2 * d * (clk + 1) == 2 * (clk + 1) * d;
  }

  /** The true rate, base / (2 * half), lies above the wanted one exactly if the base clock is
      above that multiple of it. */
  lemma RateAboveIff(base: nat, clk: nat, half: nat)
    requires Divides(base, clk, half) && clk < base
    ensures half > 0
    ensures (base as real) / (2 * half) as real > clk as real <==> base > 2 * clk * HalfOf(base, clk)
  {
    HalfIs(base, clk, half);
    var n := 2 * half;
    RealRate(base, n, clk);
    assert n * clk == 2 * clk * half;
  }

  lemma RealRate(base: nat, n: nat, clk: nat)
    requires n > 0
    ensures (base as real) / (n as real) > clk as real <==> base > n * clk
  {
    var r := (base as real) / (n as real);
    assert r * n as real == base as real;
    assert (clk as real) * (n as real) == (n * clk) as real;
  }

  lemma RateAbove()
    ensures Divides(101, 50, 1) && 101 > 2 * 1 * 50
  {
  }

  // Long responses (section 2.2.7).

  function Byte(w: bv32, j: nat): bv32
    requires j < 4
  {
    (if j == 0 then w else if j == 1 then w >> 8 else if j == 2 then w >> 16 else w >> 24) & 0xFF
  }

  /** Byte `k` of a response of four words. */
  function ByteAt(words: seq<bv32>, k: nat): bv32
    requires |words| == 4 && k < 16
  {
    Byte(words[k / 4], k % 4)
  }

  /** The response is moved up by one byte, across the words; the lowest byte is 0. */
  method ReadLongResponse(registers: seq<bv32>) returns (resp: array<bv32>)
    requires |registers| == 4
    ensures fresh(resp) && resp.Length == 4 && ByteAt(resp[..], 0) == 0
    ensures forall k :: 1 <= k < 16 ==> ByteAt(resp[..], k) == ByteAt(registers, k - 1)
  {
    resp := ShiftWords(registers);
    hide Shifted, Byte;
    forall k | 0 <= k < 16
      ensures ByteAt(resp[..], k) == if k == 0 then 0 else ByteAt(registers, k - 1)
    {
      ShiftedByte(registers, k / 4, k % 4);
    }
  }

  method ShiftWords(registers: seq<bv32>) returns (resp: array<bv32>)
    requires |registers| == 4
    ensures fresh(resp) && resp.Length == 4 && forall i :: 0 <= i < 4 ==> resp[i] == Shifted(registers, i)
  {
    hide Up8, Down24, Or;
    resp := new bv32[4];
    for i := 0 to 4
      invariant forall n :: 0 <= n < i ==> resp[n] == Shifted(registers, n)
    {
      resp[i] := registers[i];
      resp[i] := Up8(resp[i]);
      if i != 0 {
        resp[i] := Or(resp[i], Down24(registers[i - 1]));
      }
    }
  }

  function Up8(w: bv32): bv32 {
    w << 8
  }

  function Down24(w: bv32): bv32 {
    w >> 24
  }

  function Or(a: bv32, b: bv32): bv32 {
    a | b
  }

  function Shifted(r: seq<bv32>, i: nat): bv32
    requires |r| == 4 && i < 4
  {
    if i == 0 then Up8(r[i]) else Or(Up8(r[i]), Down24(r[i - 1]))
  }

  lemma ShiftedByte(r: seq<bv32>, i: nat, j: nat)
    requires |r| == 4 && i < 4 && j < 4
    ensures Byte(Shifted(r, i), j) == if j > 0 then Byte(r[i], j - 1) else if i > 0 then Byte(r[i - 1], 3) else 0
  {
    hide Byte, Up8, Down24, Or;
    if i == 0 {
      FirstWord(r[0], j);
    } else {
      LaterWord(r[i], r[i - 1], j);
    }
  }

  lemma FirstWord(w: bv32, j: nat)
    requires j < 4
    ensures Byte(Up8(w), j) == if j > 0 then Byte(w, j - 1) else 0
  {
    FirstBytes(w);
  }

  lemma FirstBytes(w: bv32)
    ensures (w << 8) & 0xFF == 0 && ((w << 8) >> 8) & 0xFF == w & 0xFF
    ensures ((w << 8) >> 16) & 0xFF == (w >> 8) & 0xFF && ((w << 8) >> 24) & 0xFF == (w >> 16) & 0xFF
  {
  }

  lemma LaterWord(w: bv32, below: bv32, j: nat)
    requires j < 4
    ensures Byte(Or(Up8(w), Down24(below)), j) == if j > 0 then Byte(w, j - 1) else Byte(below, 3)
  {
    if j == 0 {
      Byte0(w, below);
    } else if j == 1 {
      Byte1(w, below);
    } else if j == 2 {
      Byte2(w, below);
    } else {
      Byte3(w, below);
    }
    hide Byte, Up8, Down24, Or;
  }

  lemma Byte0(w: bv32, below: bv32)
    ensures Byte(Or(Up8(w), Down24(below)), 0) == Byte(below, 3)
  {
  }

  lemma Byte1(w: bv32, below: bv32)
    ensures Byte(Or(Up8(w), Down24(below)), 1) == Byte(w, 0)
  {
  }

  lemma Byte2(w: bv32, below: bv32)
    ensures Byte(Or(Up8(w), Down24(below)), 2) == Byte(w, 1)
  {
  }

  lemma Byte3(w: bv32, below: bv32)
    ensures Byte(Or(Up8(w), Down24(below)), 3) == Byte(w, 2)
  {
  }
}
