/** The words the QUP driver writes to its output FIFO.

    A 32-bit FIFO word carries two 16-bit entries, the low half first. An entry
    is a tag in its upper byte and a payload in its lower byte. A half that is
    all zero is filler: no tag at all. An entry with tag 0 and a payload is a
    NOP, which the controller skips. */
module QupWords {

  const START: bv16 := 0x100
  const DATA: bv16 := 0x200
  const STOP: bv16 := 0x300
  const REC: bv16 := 0x400
  const NOP: bv16 := 0x001

  function Word(lo: bv16, hi: bv16): bv32 {
    (lo as bv32) | ((hi as bv32) << 16)
  }

  function Low(w: bv32): bv16 {
    (w & 0xFFFF) as bv16
  }

  function High(w: bv32): bv16 {
    (w >> 16) as bv16
  }

  lemma WordHalves(lo: bv16, hi: bv16)
    ensures Low(Word(lo, hi)) == lo && High(Word(lo, hi)) == hi
  {
  }

  /** The entry in one half of a word; filler holds none. */
  function Half(h: bv16): seq<bv16> {
    if h == 0 then [] else [h]
  }

  /** The tagged entries held by FIFO words, in the order the controller takes them. */
  function Entries(words: seq<bv32>): seq<bv16> {
    if words == [] then []
    else
      var w := words[|words| - 1];
      Entries(words[..|words| - 1]) + Half(Low(w)) + Half(High(w))
  }

  lemma EntriesAppend(words: seq<bv32>, lo: bv16, hi: bv16)
    ensures Entries(words + [Word(lo, hi)]) == Entries(words) + Half(lo) + Half(hi)
  {
    WordHalves(lo, hi);
    assert (words + [Word(lo, hi)])[..|words|] == words;
  }

  /** Entries already in the FIFO followed by the low half still held back in a variable. */
  function InFlight(words: seq<bv32>, live: bool, held: bv16): seq<bv16> {
    Entries(words) + if live then Half(held) else []
  }

  predicate IsNop(h: bv16) {
    h & 0xFF00 == 0
  }

  /** What reaches the bus: the entries without the NOPs. */
  function DropNops(s: seq<bv16>): seq<bv16> {
    if s == [] then []
    else (if IsNop(s[0]) then [] else [s[0]]) + DropNops(s[1..])
  }

  lemma {:induction false} DropNopsConcat(a: seq<bv16>, b: seq<bv16>)
    ensures DropNops(a + b) == DropNops(a) + DropNops(b)
  {
    if a == [] {
      assert a + b == b;
    } else {
      DropNopsConcat(a[1..], b);
      hide IsNop;
      assert (a + b)[1..] == a[1..] + b && (a + b)[0] == a[0];
    }
  }

  lemma {:induction false} DropNopsIdentity(s: seq<bv16>)
    requires forall i :: 0 <= i < |s| ==> !IsNop(s[i])
    ensures DropNops(s) == s
  {
    if s != [] {
      DropNopsIdentity(s[1..]);
    }
  }

  /** Header of a write: START with the address and a clear read bit. */
  function WriteHeader(addr: bv16): (h: bv16)
    ensures !IsNop(h) && h != 0
  {
    START | (addr << 1)
  }

  /** Header of a read: START with the address and the read bit set. */
  function ReadHeader(addr: bv16): (h: bv16)
    ensures !IsNop(h) && h != 0
  {
    START | ((addr << 1) | 1)
  }

  /** The receive command: the 8-bit length field codes 256 as 0. */
  function Receive(n: nat): (h: bv16)
    requires 1 <= n <= 256
    ensures !IsNop(h) && h != 0
  {
    REC | (if n == 256 then 0 else n as bv16)
  }

  function Tagged(tag: bv16, b: bv8): bv16 {
    tag | (b as bv16)
  }

  /** A run of data bytes; the last is tagged STOP when `stop` is set. */
  function Bytes(d: seq<bv8>, stop: bool): (s: seq<bv16>)
    ensures |s| == |d|
  {
    seq(|d|, i requires 0 <= i < |d| => Tagged(if stop && i == |d| - 1 then STOP else DATA, d[i]))
  }

  lemma BytesAreTagged(d: seq<bv8>, stop: bool)
    ensures forall i :: 0 <= i < |d| ==> !IsNop(Bytes(d, stop)[i])
  {
    forall i | 0 <= i < |d|
      ensures !IsNop(Bytes(d, stop)[i])
    {
      TaggedIsNoNop(d[i]);
    }
  }

  lemma TaggedIsNoNop(b: bv8)
    ensures !IsNop(Tagged(DATA, b)) && !IsNop(Tagged(STOP, b))
    ensures Tagged(DATA, b) != Tagged(STOP, b)
    ensures Half(Tagged(DATA, b)) == [Tagged(DATA, b)] && Half(Tagged(STOP, b)) == [Tagged(STOP, b)]
  {
  }

  /** The tag and the payload of an entry. */
  function Tag(h: bv16): bv16 {
    h & 0xFF00
  }

  function Payload(h: bv16): bv8 {
    (h & 0xFF) as bv8
  }

  /** An address survives in the headers exactly when it is a 7-bit address: one bit more and
      it runs into the tag. */
  lemma HeaderDecodes(addr: bv16)
    ensures Tag(WriteHeader(addr)) == START && Payload(WriteHeader(addr)) as bv16 == addr << 1 <==> addr & 0x7FFF < 0x80
    ensures Tag(ReadHeader(addr)) == START && Payload(ReadHeader(addr)) as bv16 == (addr << 1) | 1 <==> addr & 0x7FFF < 0x80
  {
  }

  // The controller's side.

  /** What the controller does for an entry: nothing for a NOP; START with an address and the
      direction bit; sends a byte, with a STOP behind it or not; or takes a number of bytes. */
  datatype Op =
    | Idle
    | Address(addr: bv16, read: bool)
    | Send(b: bv8, stop: bool)
    | Take(n: bv16)
    | Unknown(entry: bv16)

  function OpOf(h: bv16): Op {
    var tag, payload := h & 0xFF00, h & 0x00FF;
    if tag == 0 then Idle
    else if tag == 0x100 then Address(payload >> 1, payload & 1 == 1)
    else if tag == 0x200 then Send(payload as bv8, false)
    else if tag == 0x300 then Send(payload as bv8, true)
    else if tag == 0x400 then Take(if payload == 0 then 256 else payload)
    else Unknown(h)
  }

  lemma BytesDecode(b: bv8)
    ensures OpOf(Tagged(DATA, b)) == Send(b, false) && OpOf(Tagged(STOP, b)) == Send(b, true)
  {
  }

  /** The controller takes the headers for the slave and the direction that were meant exactly
      when the slave has a 7-bit address. */
  lemma HeadersDecode(addr: bv16)
    ensures OpOf(WriteHeader(addr)) == Address(addr, false) <==> addr < 0x80
    ensures OpOf(ReadHeader(addr)) == Address(addr, true) <==> addr < 0x80
  {
    WriteStarts(addr);
    ReadStarts(addr);
    hide OpOf;
  }

  lemma WriteStarts(addr: bv16)
    ensures OpOf(WriteHeader(addr)) == Address(addr, false) <==> addr < 0x80
  {
  }

  lemma ReadStarts(addr: bv16)
    ensures OpOf(ReadHeader(addr)) == Address(addr, true) <==> addr < 0x80
  {
  }

  /** The controller takes as many bytes as the driver asked for. */
  lemma ReceiveDecodes(n: nat)
    requires 1 <= n <= 256
    ensures OpOf(Receive(n)) == Take(n as bv16) && (n as bv16) as nat == n
  {
    LengthFits(n);
    LengthDecodes(n as bv16);
    hide OpOf;
  }

  lemma LengthFits(n: nat)
    requires 1 <= n <= 256
    ensures 1 <= n as bv16 <= 256 && (n as bv16 == 256 <==> n == 256)
    ensures (n as bv16) as nat == n
  {
    var b := n as bv16;
    assert b as nat == n;
    AtMost256(b);
    IfZero(b);
  }

  lemma AtMost256(b: bv16)
    ensures b <= 256 <==> b as nat <= 256
    ensures b < 256 <==> b as nat < 256
  {
  }

  lemma IfZero(b: bv16)
    ensures b == 0 <==> b as nat == 0
  {
  }

  lemma LengthDecodes(n: bv16)
    requires 1 <= n <= 256
    ensures OpOf(REC | (if n == 256 then 0 else n)) == Take(n)
  {
  }

  lemma IdleIsNop(h: bv16)
    ensures OpOf(h) == Idle <==> IsNop(h)
  {
  }

  /** Entries that the controller acts on differ in what it does. */
  lemma OpInjective(g: bv16, h: bv16)
    requires OpOf(g) == OpOf(h) && OpOf(g) != Idle
    ensures g == h
  {
  }

  /** What the controller does for the entries of a FIFO. */
  function Bus(s: seq<bv16>): seq<Op> {
    if s == [] then []
    else (if OpOf(s[0]) == Idle then [] else [OpOf(s[0])]) + Bus(s[1..])
  }
}
