/** What the QUP input FIFO delivers for a read. */
module QupInput {
  import opened QupSchedule

  /** The bursts in which the controller answers the j-th read command when it asks for n bytes. */
  type Reply = (nat, nat) -> seq<seq<bv32>>

  function Flatten(bursts: seq<seq<bv32>>): seq<bv32> {
    if bursts == [] then [] else Flatten(bursts[..|bursts| - 1]) + bursts[|bursts| - 1]
  }

  /** The controller delivers what a command asks for, two bytes a word, in bursts of any size. */
  ghost predicate Obliging(reply: Reply) {
    forall j: nat, n: nat {:trigger reply(j, n)} :: 1 <= n <= 256 ==> |Flatten(reply(j, n))| == (n + 1) / 2
  }

  /** The byte pairs of input words: bits 0-7 first, then bits 16-23. */
  function Unpacked(words: seq<bv32>): (s: seq<bv8>)
    ensures |s| == 2 * |words|
  {
    seq(2 * |words|, i requires 0 <= i < 2 * |words| => ByteOf(words[i / 2], i % 2 == 1))
  }

  function ByteOf(w: bv32, high: bool): bv8 {
    if high then ((w & 0xFF0000) >> 16) as bv8 else (w & 0xFF) as bv8
  }

  lemma UnpackedConcat(a: seq<bv32>, b: seq<bv32>)
    ensures Unpacked(a + b) == Unpacked(a) + Unpacked(b)
  {
    hide ByteOf;
  }

  lemma FlattenStep(bursts: seq<seq<bv32>>, j: nat)
    requires j < |bursts|
    ensures Flatten(bursts[..j + 1]) == Flatten(bursts[..j]) + bursts[j]
  {
    assert bursts[..j + 1][..j] == bursts[..j];
  }

  lemma {:induction false} FlattenPrefix(bursts: seq<seq<bv32>>, j: nat)
    requires j <= |bursts|
    ensures |Flatten(bursts[..j])| <= |Flatten(bursts)|
    decreases |bursts| - j
  {
    if j < |bursts| {
      FlattenStep(bursts, j);
      FlattenPrefix(bursts, j + 1);
    } else {
      assert bursts[..j] == bursts;
    }
  }

  /** The bytes that answer a command for `n` bytes, a filler byte behind an odd one. */
  function Answer(reply: Reply, j: nat, n: nat): seq<bv8> {
    Unpacked(Flatten(reply(j, n)))
  }

  lemma AnswerLength(reply: Reply, j: nat, n: nat)
    requires Obliging(reply) && 1 <= n <= 256
    ensures |Flatten(reply(j, n))| == (n + 1) / 2 && Answer(reply, j, n) == Unpacked(Flatten(reply(j, n)))
    ensures n <= |Answer(reply, j, n)|
  {
  }

  /** The first `pos` bytes of a read whose first command is the j-th: chunk after chunk of 256. */
  ghost function Received(reply: Reply, j: nat, pos: nat): (s: seq<bv8>)
    requires Obliging(reply)
    ensures |s| == pos
  {
    if pos == 0 then []
    else
      var from := (pos - 1) / 256 * 256;
      assert |Answer(reply, j + from / 256, pos - from)| >= pos - from by {
        AnswerLength(reply, j + from / 256, pos - from);
      }
      Received(reply, j, from) + Answer(reply, j + from / 256, pos - from)[..pos - from]
  }

  /** Commands a read of `len` bytes takes. */
  function Commands(len: nat): nat {
    (len + 255) / 256
  }

  /** Read commands issued before message `k`. */
  function CommandsBefore(msgs: seq<Msg>, k: nat): nat
    requires k <= |msgs|
  {
    if k == 0 then 0
    else CommandsBefore(msgs, k - 1) + if msgs[k - 1].Read? then Commands(msgs[k - 1].Len()) else 0
  }

  lemma {:induction false} NoCommands(msgs: seq<Msg>, k: nat, k': nat)
    requires k <= k' && WritesOnly(msgs, k, k')
    ensures CommandsBefore(msgs, k') == CommandsBefore(msgs, k)
  {
    if k < k' {
      NoCommands(msgs, k, k' - 1);
    }
  }

  /** The bytes after `got` of the whole answer are those of burst `j`. */
  lemma ReceiveStep(bursts: seq<seq<bv32>>, j: nat, n: nat, room: nat)
    requires 1 <= n <= 256 && |Flatten(bursts)| == (n + 1) / 2 && n == Min(room, 256)
    requires j <= |bursts| && Min(n, 2 * |Flatten(bursts[..j])|) < n
    ensures j < |bursts|
    ensures var got := Min(n, 2 * |Flatten(bursts[..j])|);
      var got' := Min(n, 2 * |Flatten(bursts[..j + 1])|);
      var all := Unpacked(Flatten(bursts));
      && got' - got == Min(room - got, 2 * |bursts[j]|)
      && (got' - got + 1) / 2 == |bursts[j]|
      && got' <= |all| && all[got..got'] == Unpacked(bursts[j])[..got' - got]
  {
    hide Unpacked, Flatten;
    assert bursts[..|bursts|] == bursts;
    if j < |bursts| {
      FlattenStep(bursts, j);
      FlattenPrefix(bursts, j + 1);
      UnpackedPart(bursts, j);
      var a, b := Flatten(bursts[..j]), bursts[j];
      var got, got' := Min(n, 2 * |a|), Min(n, 2 * |a + b|);
      TakePart(Unpacked(Flatten(bursts)), 2 * |a|, 2 * |b|, got');
    }
  }

  lemma UnpackedPart(bursts: seq<seq<bv32>>, j: nat)
    requires j < |bursts|
    ensures var at := 2 * |Flatten(bursts[..j])|;
      var all := Unpacked(Flatten(bursts));
      at + 2 * |bursts[j]| <= |all| && all[at..at + 2 * |bursts[j]|] == Unpacked(bursts[j])
  {
    FlattenParts(bursts, j);
    var a, b, c := Flatten(bursts[..j]), bursts[j], Flatten(bursts[j + 1..]);
    hide Flatten, ByteOf;
    UnpackedConcat(a + b, c);
    UnpackedConcat(a, b);
    hide Unpacked;
    assert (Unpacked(a) + Unpacked(b) + Unpacked(c))[2 * |a|..2 * |a| + 2 * |b|] == Unpacked(b);
  }

  lemma {:induction false} FlattenParts(bursts: seq<seq<bv32>>, j: nat)
    requires j < |bursts|
    ensures Flatten(bursts) == Flatten(bursts[..j]) + bursts[j] + Flatten(bursts[j + 1..])
    decreases |bursts|
  {
    var front := bursts[..|bursts| - 1];
    if j < |bursts| - 1 {
      FlattenParts(front, j);
      assert front[..j] == bursts[..j];
      assert bursts[j + 1..][..|bursts| - j - 2] == front[j + 1..];
    } else {
      assert front == bursts[..j];
    }
  }

  lemma TakePart<T>(all: seq<T>, at: nat, len: nat, to: nat)
    requires at <= to <= at + len <= |all|
    ensures all[at..to] == all[at..at + len][..to - at]
  {
  }

  lemma OverwrittenOn(was: seq<bv8>, at: nat, all: seq<bv8>, got: nat, part: seq<bv8>, n: nat)
    requires at + got + n <= |was| && got + n <= |all| && n <= |part|
    requires all[got..got + n] == part[..n]
    ensures Overwritten(Overwritten(was, at, all, got), at + got, part, n) == Overwritten(was, at, all, got + n)
  {
    assert all[..got + n] == all[..got] + all[got..got + n];
  }

  /** A buffer with `n` bytes of `data` stored from `at` on. */
  function Overwritten(was: seq<bv8>, at: nat, data: seq<bv8>, n: nat): (s: seq<bv8>)
    requires n <= |data| && at + n <= |was|
    ensures |s| == |was|
  {
    was[..at] + data[..n] + was[at + n..]
  }

  /** A chunk of a read: its place, its size, and the buffer before it. */
  datatype Chunk = Chunk(from: nat, n: nat, was: seq<bv8>)

  /** The chunk is stored in full. */
  ghost predicate Stored(now: seq<bv8>, c: Chunk, all: seq<bv8>) {
    c.n <= |all| && c.from + c.n <= |c.was| && now == Overwritten(c.was, c.from, all, c.n)
  }

  /** Only the buffer of message `k`, if it is a read, may differ. */
  ghost predicate OthersKept(msgs: seq<Msg>, k: nat, now: seq<seq<bv8>>, was: seq<seq<bv8>>)
    requires k < |msgs|
  {
    && |now| == |was| == |msgs|
    && forall i :: 0 <= i < |msgs| && !(msgs[k].Read? && msgs[i].Read? && msgs[i].buf == msgs[k].buf) ==> now[i] == was[i]
  }

  ghost predicate DistinctBuffers(msgs: seq<Msg>) {
    forall i, j :: 0 <= i < j < |msgs| && msgs[i].Read? && msgs[j].Read? ==> msgs[i].buf != msgs[j].buf
  }

  /** With read commands counted from `first`, all reads before message `k` are
      complete in the buffers `c` and message `k` is received up to `pos`. */
  ghost predicate Delivered(msgs: seq<Msg>, c: seq<seq<bv8>>, reply: Reply, first: nat, k: nat, pos: nat)
    requires Obliging(reply)
  {
    && |c| == |msgs| && k <= |msgs|
    && (forall i :: 0 <= i < k && msgs[i].Read? ==> c[i] == Received(reply, first + CommandsBefore(msgs, i), msgs[i].Len()))
    && (pos > 0 ==> k < |msgs| && pos <= |c[k]| && c[k][..pos] == Received(reply, first + CommandsBefore(msgs, k), pos))
  }

  lemma DeliveredNone(msgs: seq<Msg>, c: seq<seq<bv8>>, reply: Reply, first: nat)
    requires Obliging(reply) && |c| == |msgs|
    ensures Delivered(msgs, c, reply, first, 0, 0) && Counted(msgs, 0, 0, first, first)
  {
  }

  /** `asked` read commands have been issued, `first` of them before the transfer. */
  predicate Counted(msgs: seq<Msg>, k: nat, pos: nat, first: nat, asked: nat) {
    && k <= |msgs| && pos % 256 == 0 && asked == first + CommandsBefore(msgs, k) + pos / 256
    && (pos > 0 ==> k < |msgs| && msgs[k].Read?)
  }

  lemma WritesOnlyAt(msgs: seq<Msg>, k0: nat, k: nat)
    requires WritesOnly(msgs, k0, k) && k0 < k
    ensures k0 < |msgs| && msgs[k0].Write?
  {
  }

  /** A pass keeps the count of read commands. */
  lemma CountedOn(msgs: seq<Msg>, k0: nat, pos0: nat, k: nat, from: nat, pos: nat, first: nat, a0: nat, asked: nat)
    requires Counted(msgs, k0, pos0, first, a0) && k0 <= k < |msgs| && WritesOnly(msgs, k0, k)
    requires from == (if k == k0 then pos0 else 0)
    requires if msgs[k].Write? then asked == a0
             else asked == a0 + 1 && from < pos && pos - from == Min(msgs[k].Len() - from, 256)
    ensures from % 256 == 0
    ensures msgs[k].Read? ==> a0 == first + CommandsBefore(msgs, k) + from / 256 && 1 <= pos - from <= 256
    ensures msgs[k].Write? || pos == msgs[k].Len() ==> Counted(msgs, k + 1, 0, first, asked)
    ensures msgs[k].Read? && pos < msgs[k].Len() ==> Counted(msgs, k, pos, first, asked)
  {
    NoCommands(msgs, k0, k);
  }

  lemma StoredPrefix(now: seq<bv8>, c: Chunk, all: seq<bv8>)
    requires Stored(now, c, all)
    ensures |now| == |c.was| >= c.from + c.n && now[..c.from + c.n] == c.was[..c.from] + all[..c.n]
  {
  }

  /** A pass that touches no buffer but that of message `k` keeps the reads before it. */
  lemma DeliveredOn(msgs: seq<Msg>, was: seq<seq<bv8>>, now: seq<seq<bv8>>, reply: Reply, first: nat, k0: nat,
                    pos: nat, k: nat)
    requires Obliging(reply) && k0 <= k < |msgs| && (msgs[k].Read? ==> DistinctBuffers(msgs))
    requires WritesOnly(msgs, k0, k)
    requires Delivered(msgs, was, reply, first, k0, pos) && OthersKept(msgs, k, now, was)
    ensures Delivered(msgs, now, reply, first, k, 0)
    ensures msgs[k].Write? ==> Delivered(msgs, now, reply, first, k + 1, 0)
  {
    hide Received, CommandsBefore, Obliging;
  }

  /** A pass that ends with a chunk of read `k` stored. */
  lemma DeliveredChunk(msgs: seq<Msg>, was: seq<seq<bv8>>, now: seq<seq<bv8>>, reply: Reply, first: nat,
                       k0: nat, k: nat, c: Chunk)
    requires Obliging(reply) && DistinctBuffers(msgs) && k0 <= k < |msgs| && msgs[k].Read?
    requires WritesOnly(msgs, k0, k)
    requires k0 < k ==> c.from == 0
    requires Delivered(msgs, was, reply, first, k0, if k0 == k then c.from else 0)
    requires OthersKept(msgs, k, now, was)
    requires c.from % 256 == 0 && 1 <= c.n <= 256 && c.was == was[k] && |now[k]| == msgs[k].Len()
    requires Stored(now[k], c, Answer(reply, first + CommandsBefore(msgs, k) + c.from / 256, c.n))
    ensures Delivered(msgs, now, reply, first, k, c.from + c.n)
    ensures c.from + c.n == msgs[k].Len() ==> Delivered(msgs, now, reply, first, k + 1, 0)
  {
    hide Answer, Stored, Overwritten, Received, CommandsBefore, Obliging, OthersKept, DistinctBuffers;
    var j := first + CommandsBefore(msgs, k);
    DeliveredOn(msgs, was, now, reply, first, k0, if k0 == k then c.from else 0, k);
    StoredPrefix(now[k], c, Answer(reply, j + c.from / 256, c.n));
    ReceivedStep(reply, j, c.from, c.n);
    ReceivedNothing(reply, j);
    assert now[k][..c.from + c.n] == Received(reply, j, c.from + c.n);
  }

  lemma ReceivedNothing(reply: Reply, j: nat)
    requires Obliging(reply)
    ensures Received(reply, j, 0) == []
  {
  }

  lemma ReceivedStep(reply: Reply, j: nat, from: nat, n: nat)
    requires Obliging(reply) && from % 256 == 0 && 1 <= n <= 256
    ensures n <= |Answer(reply, j + from / 256, n)|
    ensures Received(reply, j, from + n) == Received(reply, j, from) + Answer(reply, j + from / 256, n)[..n]
  {
    hide Answer, Obliging;
    AnswerLength(reply, j + from / 256, n);
    ChunkStart(from, n);
  }

  lemma ChunkStart(from: nat, n: nat)
    requires from % 256 == 0 && 1 <= n <= 256
    ensures (from + n - 1) / 256 * 256 == from
  {
  }

  lemma OverwrittenStart(was: seq<bv8>, at: nat, data: seq<bv8>)
    requires at <= |was|
    ensures Overwritten(was, at, data, 0) == was
  {
  }

  lemma OverwrittenStep(was: seq<bv8>, at: nat, words: seq<bv32>, n: nat)
    requires n < 2 * |words| && at + n < |was|
    ensures Overwritten(was, at, Unpacked(words), n)[at + n := ByteOf(words[n / 2], n % 2 == 1)]
         == Overwritten(was, at, Unpacked(words), n + 1)
  {
    var data := Unpacked(words);
    assert data[n] == ByteOf(words[n / 2], n % 2 == 1);
    hide Unpacked, ByteOf;
    assert data[..n + 1] == data[..n] + [data[n]];
  }

  // The bytes that the slave sends.

  /** The bytes with which the slave answers the j-th read command when it asks for n bytes. */
  type Source = (nat, nat) -> seq<bv8>

  /** The controller packs two bytes into a word, the first in bits 0-7 and the second in bits
      16-23; what the other bits hold is open. */
  ghost predicate Packs(words: seq<bv32>, data: seq<bv8>) {
    && |words| == (|data| + 1) / 2
    && forall i :: 0 <= i < |data| ==> Holds(words[i / 2], i % 2, data[i])
  }

  predicate Holds(w: bv32, place: int, b: bv8) {
    if place == 0 then w & 0x0000_00FF == b as bv32 else w & 0x00FF_0000 == (b as bv32) << 16
  }

  ghost predicate Sized(source: Source) {
    forall j: nat, n: nat :: 1 <= n <= 256 ==> |source(j, n)| == n
  }

  /** Each answer packs the bytes that the slave sends. */
  ghost predicate Answers(reply: Reply, source: Source) {
    Sized(source) && forall j: nat, n: nat {:trigger reply(j, n)} :: 1 <= n <= 256 ==> Packs(Flatten(reply(j, n)), source(j, n))
  }

  /** The driver takes the bytes out of a word that were put in. */
  lemma HeldByte(w: bv32, b: bv8)
    ensures Holds(w, 0, b) ==> ByteOf(w, false) == b
    ensures Holds(w, 1, b) ==> ByteOf(w, true) == b
  {
  }

  lemma WordUnpacks(lo: bv8, hi: bv8, w: bv32)
    requires w & 0x00FF_00FF == (lo as bv32) | ((hi as bv32) << 16)
    ensures ByteOf(w, false) == lo && ByteOf(w, true) == hi
  {
  }

  lemma UnpackedPacked(words: seq<bv32>, data: seq<bv8>)
    requires Packs(words, data)
    ensures |data| <= |Unpacked(words)| && Unpacked(words)[..|data|] == data
  {
    forall i | 0 <= i < |data|
      ensures Unpacked(words)[i] == data[i]
    {
      assert Holds(words[i / 2], i % 2, data[i]);
      HeldByte(words[i / 2], data[i]);
      hide ByteOf, Holds;
    }
  }

  /** Byte `p` of a read of `len` bytes whose first command is the j-th: a command takes 256
      bytes, and the last one what is left. */
  ghost function SourceByte(source: Source, j: nat, len: nat, p: nat): bv8
    requires Sized(source) && p < len
  {
    var chunk := p / 256;
    var n := Min(len - 256 * chunk, 256);
    source(j + chunk, n)[p % 256]
  }

  ghost function SourceBytes(source: Source, j: nat, len: nat): (s: seq<bv8>)
    requires Sized(source)
    ensures |s| == len
  {
    seq(len, p requires 0 <= p < len => SourceByte(source, j, len, p))
  }

  lemma AnswersIs(reply: Reply, source: Source, j: nat, n: nat)
    requires Answers(reply, source) && 1 <= n <= 256
    ensures Sized(source) && |source(j, n)| == n && Packs(Flatten(reply(j, n)), source(j, n))
    ensures Obliging(reply)
  {
    hide Packs;
    forall j: nat, n: nat | 1 <= n <= 256
      ensures |Flatten(reply(j, n))| == (n + 1) / 2
    {
      assert Packs(Flatten(reply(j, n)), source(j, n));
      PackedLength(Flatten(reply(j, n)), source(j, n));
    }
  }

  lemma PackedLength(words: seq<bv32>, data: seq<bv8>)
    requires Packs(words, data)
    ensures |words| == (|data| + 1) / 2
  {
  }

  lemma ChunkByte(source: Source, j: nat, from: nat, n: nat, p: nat)
    requires Sized(source) && from % 256 == 0 && 1 <= n <= 256 && p < from + n
    ensures p < from ==> SourceByte(source, j, from + n, p) == SourceByte(source, j, from, p)
    ensures p >= from ==> |source(j + from / 256, n)| == n && SourceByte(source, j, from + n, p) == source(j + from / 256, n)[p - from]
  {
    if p >= from {
      assert p / 256 == from / 256;
    }
  }

  /** What a read receives is what the slave sent. */
  lemma {:induction false} ReceivedBytes(reply: Reply, source: Source, j: nat, len: nat)
    requires Obliging(reply) && Answers(reply, source) && Sized(source)
    ensures Received(reply, j, len) == SourceBytes(source, j, len)
    decreases len
  {
    hide Received, Answers, Obliging, Sized, SourceByte;
    if len == 0 {
      ReceivedNothing(reply, j);
    } else {
      var from := (len - 1) / 256 * 256;
      var n := len - from;
      ReceivedBytes(reply, source, j, from);
      ReceivedStep(reply, j, from, n);
      AnswersIs(reply, source, j + from / 256, n);
      UnpackedPacked(Flatten(reply(j + from / 256, n)), source(j + from / 256, n));
      hide Packs, Unpacked, Flatten;
      forall p | 0 <= p < len
        ensures Received(reply, j, len)[p] == SourceByte(source, j, len, p)
      {
        ChunkByte(source, j, from, n, p);
        if p < from {
          assert SourceBytes(source, j, from)[p] == SourceByte(source, j, from, p);
        }
      }
    }
  }

  /** Each read buffer holds the bytes that the slave sent for it, with read commands counted
      from `first`. */
  ghost predicate Filled(msgs: seq<Msg>, c: seq<seq<bv8>>, source: Source, first: nat)
    requires Sized(source) && |c| == |msgs|
  {
    forall i :: 0 <= i < |msgs| && msgs[i].Read? ==> c[i] == SourceBytes(source, first + CommandsBefore(msgs, i), msgs[i].Len())
  }

  lemma DeliveredFilled(msgs: seq<Msg>, c: seq<seq<bv8>>, reply: Reply, source: Source, first: nat)
    requires Obliging(reply) && Answers(reply, source) && Sized(source) && |c| == |msgs|
    requires Delivered(msgs, c, reply, first, |msgs|, 0)
    ensures Filled(msgs, c, source, first)
  {
    hide Received, Answers, Sized, SourceBytes, CommandsBefore;
    forall i | 0 <= i < |msgs| && msgs[i].Read?
      ensures c[i] == SourceBytes(source, first + CommandsBefore(msgs, i), msgs[i].Len())
    {
      ReceivedBytes(reply, source, first + CommandsBefore(msgs, i), msgs[i].Len());
    }
  }
}
