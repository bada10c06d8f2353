/** Reference counts of a clock tree, as values.

    `m` maps each clock to its enable count and `up` to its parent. The functions say what
    enabling and disabling do to the counts; ClockDriver proves that the driver code does it. */
module ClockTree {

  const FREQ_END := 0xFFFF_FFFE

  /** A line of a frequency table: a rate and the source that yields it. */
  datatype Freq = Freq(hz: nat, src: Clk?)

  datatype Kind =
    | Rcg                     // a root clock: its source depends on the current frequency
    | Branch                  // a gate behind a fixed parent
    | Root2                   // a root clock of the second library: it reports no parent
    | Gate2(sibling: bool)    // a gate of that library, tuned through its parent unless it has a sibling
    | Other                   // any other clock with a fixed parent; enabling it may fail

  class Clk {
    const kind: Kind
    /** Parents, sources and dependencies of a clock have a smaller rank. */
    ghost const rank: nat
    const parent: Clk?
    const table: seq<Freq>
    const depends: Clk?

    var count: nat
    var enabled: bool
    /** Index of the current line of the table; -1 before the first rate is set. */
    var current: int

    constructor (kind: Kind, ghost rank: nat, parent: Clk?, table: seq<Freq>, depends: Clk?)
      ensures this.kind == kind && this.rank == rank && this.parent == parent && this.table == table && this.depends == depends
      ensures count == 0 && !enabled && current == -1
    {
      this.kind, this.rank, this.parent, this.table, this.depends := kind, rank, parent, table, depends;
      count, enabled, current := 0, false, -1;
    }
  }

  type Counts = map<Clk, nat>
  type Parents = map<Clk, Clk?>

  /** Parents, and what clocks depend on, are in the tree and rank below. */
  ghost predicate Ranked(m: Counts, up: Parents) {
    && m.Keys == up.Keys
    && (forall c :: c in up && up[c] != null ==> up[c] in up && (up[c] as Clk).rank < c.rank)
    && (forall c :: c in up && c.depends != null ==> c.depends in up && (c.depends as Clk).rank < c.rank)
  }

  ghost function Height(c: Clk?): nat {
    if c == null then 0 else (c as Clk).rank + 1
  }

  /** The counts after clock `c` was enabled. */
  ghost function Up(m: Counts, up: Parents, c: Clk?): (r: Counts)
    requires Ranked(m, up) && (c != null ==> c in m)
    ensures r.Keys == m.Keys
    decreases Height(c)
  {
    if c == null then m
    else if m[c] > 0 then m[c := m[c] + 1]
    else
      var m1 := Up(m, up, up[c]);
      var m2 := Up(m1, up, c.depends);
      m2[c := m2[c] + 1]
  }

  /** The counts after clock `c` was disabled. */
  ghost function Down(m: Counts, up: Parents, c: Clk?): (r: Counts)
    requires Ranked(m, up) && (c != null ==> c in m)
    ensures r.Keys == m.Keys
    decreases Height(c)
  {
    if c == null || m[c] == 0 then m
    else if m[c] == 1 then Down(m, up, up[c])[c := 0]
    else m[c := m[c] - 1]
  }

  /** The running clocks fed by `p`. */
  ghost function Kids(m: Counts, up: Parents, p: Clk): set<Clk>
    requires m.Keys == up.Keys
  {
    set k | k in m && m[k] > 0 && up[k] == p
  }

  /** References to `p` that are not those of its running children. */
  ghost function Slack(m: Counts, up: Parents, p: Clk): int
    requires m.Keys == up.Keys && p in m
  {
    m[p] - |Kids(m, up, p)|
  }

  /** Each clock's count covers its running children. */
  ghost predicate Covered(m: Counts, up: Parents)
    requires m.Keys == up.Keys
  {
    forall p :: p in m ==> Slack(m, up, p) >= 0
  }

  /** A count moves and stays positive: no clock gains or loses a child. */
  lemma SlackMoves(m: Counts, up: Parents, c: Clk, n: nat, x: Clk)
    requires m.Keys == up.Keys && c in m && x in m && m[c] > 0 && n > 0
    ensures Slack(m[c := n], up, x) == Slack(m, up, x) + if c == x then n - m[c] else 0
  {
    assert Kids(m[c := n], up, x) == Kids(m, up, x);
  }

  /** A clock starts to run: it becomes a child of its parent and of no other clock. */
  lemma SlackStarts(m: Counts, up: Parents, c: Clk, n: nat, x: Clk)
    requires m.Keys == up.Keys && c in m && x in m && m[c] == 0 && n > 0
    ensures Slack(m[c := n], up, x) == Slack(m, up, x) + (if c == x then n else 0) - (if up[c] == x then 1 else 0)
  {
    assert c !in Kids(m, up, x);
    assert Kids(m[c := n], up, x) == Kids(m, up, x) + if up[c] == x then {c} else {};
  }

  /** Dependencies that enabling `c` newly takes on `x` and that are never given back. */
  ghost function Leaks(m: Counts, up: Parents, c: Clk?, x: Clk): nat
    requires Ranked(m, up) && (c != null ==> c in m)
    decreases Height(c)
  {
    if c == null || m[c] > 0 then 0
    else
      var m1 := Up(m, up, up[c]);
      Leaks(m, up, up[c], x) + Leaks(m1, up, c.depends, x) + if c.depends == x then 1 else 0
  }

  lemma UpIs(m: Counts, up: Parents, c: Clk?)
    requires Ranked(m, up) && (c != null ==> c in m)
    ensures c == null ==> Up(m, up, c) == m
    ensures c != null && m[c] > 0 ==> Up(m, up, c) == m[c := m[c] + 1]
    ensures c != null && m[c] == 0 ==>
      var m1 := Up(m, up, up[c]);
      var m2 := Up(m1, up, c.depends);
      m2[c] == m1[c] == 0 && Up(m, up, c) == m2[c := 1]
  {
    if c != null && m[c] == 0 {
      UpStarts(m, up, c);
    }
  }

  lemma UpStarts(m: Counts, up: Parents, c: Clk)
    requires Ranked(m, up) && c in m && m[c] == 0
    ensures var m1 := Up(m, up, up[c]);
      var m2 := Up(m1, up, c.depends);
      m2[c] == m1[c] == 0 && Up(m, up, c) == m2[c := 1]
  {
    var m1 := Up(m, up, up[c]);
    UpAbove(m, up, up[c], c);
    UpAbove(m1, up, c.depends, c);
    hide Ranked;
    var m2 := Up(m1, up, c.depends);
    assert Up(m, up, c) == m2[c := m2[c] + 1];
  }

  /** Enabling a clock leaves those that rank above it alone. */
  lemma {:induction false} UpAbove(m: Counts, up: Parents, p: Clk?, c: Clk)
    requires Ranked(m, up) && (p != null ==> p in m) && c in m && c.rank >= Height(p)
    ensures Up(m, up, p)[c] == m[c]
    decreases Height(p)
  {
    if p != null && m[p] == 0 {
      UpAbove(m, up, up[p], c);
      UpAbove(Up(m, up, up[p]), up, p.depends, c);
    }
  }

  /** So does disabling it. */
  lemma {:induction false} DownAbove(m: Counts, up: Parents, p: Clk?, c: Clk)
    requires Ranked(m, up) && (p != null ==> p in m) && c in m && c.rank >= Height(p)
    ensures Down(m, up, p)[c] == m[c]
    decreases Height(p)
  {
    if p != null && m[p] == 1 {
      DownAbove(m, up, up[p], c);
    }
  }

  lemma LeaksIs(m: Counts, up: Parents, c: Clk?, x: Clk)
    requires Ranked(m, up) && (c != null ==> c in m)
    ensures c == null || m[c] > 0 ==> Leaks(m, up, c, x) == 0
    ensures c != null && m[c] == 0 ==>
      Leaks(m, up, c, x)
      == Leaks(m, up, up[c], x) + Leaks(Up(m, up, up[c]), up, c.depends, x) + if c.depends == x then 1 else 0
  {
  }

  lemma DownIs(m: Counts, up: Parents, c: Clk?)
    requires Ranked(m, up) && (c != null ==> c in m)
    ensures c == null || m[c] == 0 ==> Down(m, up, c) == m
    ensures c != null && m[c] > 1 ==> Down(m, up, c) == m[c := m[c] - 1]
    ensures c != null && m[c] == 1 ==>
      && Height(up[c]) <= c.rank && (up[c] != null ==> up[c] in m)
      && Down(m, up, up[c])[c] == 1 && Down(m, up, c) == Down(m, up, up[c])[c := 0]
  {
    if c != null && m[c] == 1 {
      DownAbove(m, up, up[c], c);
    }
  }

  /** Enabling `c` adds a reference to `c` beyond those of children, and the leaked ones. */
  lemma {:induction false} SlackUp(m: Counts, up: Parents, c: Clk?, x: Clk)
    requires Ranked(m, up) && (c != null ==> c in m) && x in m
    ensures Slack(Up(m, up, c), up, x) == Slack(m, up, x) + Leaks(m, up, c, x) + if c == x then 1 else 0
    decreases Height(c)
  {
    hide Slack, Up, Leaks;
    UpIs(m, up, c);
    LeaksIs(m, up, c, x);
    if c != null {
      if m[c] > 0 {
        SlackMoves(m, up, c, m[c] + 1, x);
      } else {
        var m1 := Up(m, up, up[c]);
        var m2 := Up(m1, up, c.depends);
        SlackUp(m, up, up[c], x);
        SlackUp(m1, up, c.depends, x);
        SlackStarts(m2, up, c, 1, x);
      }
    }
  }

  /** Disabling a running clock takes one reference away from it and from no other clock. */
  lemma {:induction false} SlackDown(m: Counts, up: Parents, c: Clk?, x: Clk)
    requires Ranked(m, up) && (c != null ==> c in m && m[c] > 0) && x in m && Covered(m, up)
    ensures Slack(Down(m, up, c), up, x) == Slack(m, up, x) - if c == x then 1 else 0
    decreases Height(c)
  {
    hide Slack, Covered;
    if c != null {
      if m[c] > 1 {
        SlackMoves(m, up, c, m[c] - 1, x);
      } else {
        ParentRuns(m, up, c);
        DownAbove(m, up, up[c], c);
        SlackDown(m, up, up[c], x);
        var m1 := Down(m, up, up[c]);
        var off: Counts := m1[c := 0];
        UpdateTwice(m1, c, 0, 1);
        SlackStarts(off, up, c, 1, x);
      }
    }
  }

  lemma ParentRuns(m: Counts, up: Parents, c: Clk)
    requires Ranked(m, up) && Covered(m, up) && c in m && m[c] > 0
    ensures up[c] != null ==> up[c] in m && m[up[c]] > 0
  {
    if up[c] != null {
      assert Slack(m, up, up[c]) >= 0;
      assert c in Kids(m, up, up[c]);
    }
  }

  /** A running clock has a running chain of parents. */
  ghost predicate ChainRuns(m: Counts, up: Parents, c: Clk?)
    requires Ranked(m, up) && (c != null ==> c in m)
    decreases Height(c)
  {
    c == null || (m[c] > 0 && ChainRuns(m, up, up[c]))
  }

  lemma {:induction false} RunningChain(m: Counts, up: Parents, c: Clk)
    requires Ranked(m, up) && Covered(m, up) && c in m && m[c] > 0
    ensures ChainRuns(m, up, c)
    decreases c.rank
  {
    ParentRuns(m, up, c);
    if up[c] != null {
      RunningChain(m, up, up[c]);
    }
  }

  /** Counts of clocks that rank above do not matter to disabling. */
  lemma {:induction false} DownFrame(m: Counts, up: Parents, p: Clk?, c: Clk, n: nat)
    requires Ranked(m, up) && (p != null ==> p in m) && c in m && c.rank >= Height(p)
    ensures Down(m[c := n], up, p) == Down(m, up, p)[c := n]
    decreases Height(p)
  {
    if p != null && m[p] == 1 {
      DownFrame(m, up, up[p], c, n);
      UpdateSwap(Down(m, up, up[p]), c, n, p, 0);
    } else if p != null && m[p] > 1 {
      UpdateSwap(m, c, n, p, m[p] - 1);
    }
  }

  /** Enabling takes no dependency that is not given back. */
  ghost predicate LeakFree(m: Counts, up: Parents, c: Clk?)
    requires Ranked(m, up) && (c != null ==> c in m)
  {
    forall x :: x in m ==> Leaks(m, up, c, x) == 0
  }

  lemma {:induction false} DownUpBack(m: Counts, up: Parents, c: Clk?)
    requires Ranked(m, up) && (c != null ==> c in m) && LeakFree(m, up, c)
    ensures Down(Up(m, up, c), up, c) == m
    decreases Height(c)
  {
    if c != null && m[c] == 0 {
      hide LeakFree, Leaks, Up, Down;
      LeakFreeChain(m, up, c);
      DownUpBack(m, up, up[c]);
      var m1 := Up(m, up, up[c]);
      DownLast(m1, up, c);
      UpdateTwice(m, c, 1, 0);
    } else if c != null {
      UpdateTwice(m, c, m[c] + 1, m[c]);
    }
  }

  lemma DownLast(m: Counts, up: Parents, c: Clk)
    requires Ranked(m, up) && c in m
    ensures Down(m[c := 1], up, c) == Down(m, up, up[c])[c := 0]
  {
    DownFrame(m, up, up[c], c, 1);
    UpdateTwice(Down(m, up, up[c]), c, 1, 0);
  }

  lemma UpdateTwice(m: Counts, c: Clk, a: nat, b: nat)
    ensures var m1: Counts := m[c := a]; m1[c := b] == m[c := b]
    ensures c in m && m[c] == b ==> m[c := b] == m
  {
  }

  lemma UpdateSwap(m: Counts, c: Clk, a: nat, d: Clk, b: nat)
    requires c != d
    ensures var m1: Counts, m2: Counts := m[c := a], m[d := b]; m1[d := b] == m2[c := a]
  {
  }

  lemma LeakFreeChain(m: Counts, up: Parents, c: Clk)
    requires Ranked(m, up) && c in m && m[c] == 0 && LeakFree(m, up, c)
    ensures c.depends == null && LeakFree(m, up, up[c]) && Up(m, up, c) == Up(m, up, up[c])[c := 1]
  {
    UpAbove(m, up, up[c], c);
    assert c.depends != null ==> Leaks(m, up, c, c.depends) > 0;
    forall x | x in m
      ensures Leaks(m, up, up[c], x) == 0
    {
      assert Leaks(m, up, c, x) == 0;
    }
  }

  lemma CoveredUp(m: Counts, up: Parents, c: Clk?)
    requires Ranked(m, up) && (c != null ==> c in m) && Covered(m, up)
    ensures Covered(Up(m, up, c), up)
    ensures c != null ==> Up(m, up, c)[c] > 0
  {
    forall x | x in m
      ensures Slack(Up(m, up, c), up, x) >= 0
    {
      SlackUp(m, up, c, x);
    }
  }

  /** A running clock may be disabled exactly if it has a reference that is not a child's. */
  lemma CoveredDownIff(m: Counts, up: Parents, c: Clk)
    requires Ranked(m, up) && c in m && Covered(m, up) && m[c] > 0
    ensures Covered(Down(m, up, c), up) <==> Slack(m, up, c) >= 1
  {
    hide Slack, Down;
    SlackDown(m, up, c, c);
    if Slack(m, up, c) >= 1 {
      forall x | x in m
        ensures Slack(Down(m, up, c), up, x) >= 0
      {
        SlackDown(m, up, c, x);
      }
    } else {
      assert Slack(Down(m, up, c), up, c) < 0;
    }
  }

  /** Enabling and then disabling a clock restores every count exactly if no dependency
      was newly taken on the way up. */
  lemma DownUpIff(m: Counts, up: Parents, c: Clk?)
    requires Ranked(m, up) && (c != null ==> c in m) && Covered(m, up)
    ensures Down(Up(m, up, c), up, c) == m <==> LeakFree(m, up, c)
  {
    if LeakFree(m, up, c) {
      DownUpBack(m, up, c);
    }
    if Down(Up(m, up, c), up, c) == m {
      CoveredUp(m, up, c);
      forall x | x in m
        ensures Leaks(m, up, c, x) == 0
      {
        SlackUp(m, up, c, x);
        SlackDown(Up(m, up, c), up, c, x);
      }
    }
  }

  lemma {:induction false} NoDependsLeakFree(m: Counts, up: Parents, c: Clk?)
    requires Ranked(m, up) && (c != null ==> c in m) && forall k :: k in m ==> k.depends == null
    ensures LeakFree(m, up, c)
    decreases Height(c)
  {
    if c != null && m[c] == 0 {
      NoDependsLeakFree(m, up, up[c]);
    }
  }

  /** From `m` to `r` no reference beyond those of children is lost, and clocks that rank
      at least `h` are untouched. */
  ghost predicate Kept(m: Counts, r: Counts, up: Parents, h: nat) {
    && m.Keys == r.Keys == up.Keys
    && (forall x :: x in m ==> Slack(r, up, x) >= Slack(m, up, x))
    && (forall x :: x in m && x.rank >= h ==> r[x] == m[x])
  }

  lemma KeptRank(m: Counts, r: Counts, up: Parents, h: nat, h': nat)
    requires Kept(m, r, up, h) && h <= h'
    ensures Kept(m, r, up, h')
  {
  }

  lemma KeptSame(m: Counts, up: Parents, h: nat)
    requires m.Keys == up.Keys
    ensures Kept(m, m, up, h)
  {
  }

  /** The parent of a clock that could not be enabled is released again. */
  lemma RollbackKept(m: Counts, m1: Counts, m2: Counts, up: Parents, parent: Clk?, c: Clk)
    requires Ranked(m, up) && Ranked(m2, up) && Covered(m, up) && Covered(m2, up) && Height(parent) <= c.rank
    requires (parent != null ==> parent in m) && m1 == Up(m, up, parent) && Kept(m1, m2, up, c.rank)
    ensures var r := Down(m2, up, parent);
      Ranked(r, up) && Covered(r, up) && Kept(m, r, up, Height(c))
  {
    hide Slack, Up, Down;
    var r := Down(m2, up, parent);
    forall x | x in m
      ensures Slack(r, up, x) >= Slack(m, up, x)
    {
      RollbackSlack(m, m2, up, parent, x);
    }
    forall x | x in m && x.rank >= Height(c)
      ensures r[x] == m[x]
    {
      UpAbove(m, up, parent, x);
      DownAbove(m2, up, parent, x);
    }
  }

  lemma RollbackSlack(m: Counts, m2: Counts, up: Parents, parent: Clk?, x: Clk)
    requires Ranked(m, up) && Ranked(m2, up) && Covered(m2, up) && x in m && (parent != null ==> parent in m)
    requires Slack(m2, up, x) >= Slack(Up(m, up, parent), up, x)
    requires parent != null ==> Slack(m, up, parent) >= 0 && Slack(m2, up, parent) >= Slack(Up(m, up, parent), up, parent)
    ensures Slack(Down(m2, up, parent), up, x) - Slack(m, up, x)
         == Slack(m2, up, x) - Slack(Up(m, up, parent), up, x) + Leaks(m, up, parent, x)
  {
    hide Slack, Up, Down, Covered, Leaks;
    SlackUp(m, up, parent, x);
    if parent == null {
      DownIs(m2, up, parent);
    } else {
      SlackUp(m, up, parent, parent);
      SlackCounts(m2, up, parent);
      SlackDown(m2, up, parent, x);
    }
  }

  lemma SlackCounts(m: Counts, up: Parents, c: Clk)
    requires m.Keys == up.Keys && c in m && Slack(m, up, c) >= 1
    ensures m[c] > 0
  {
  }

  // Failures.

  /** Where enabling a clock failed: in the operation of clock `at`, which is the clock itself
      or one of its parents, or in enabling what `at` depends on. */
  datatype Failure =
    | NoFailure
    | OwnOp(at: Clk)
    | OfDepends(at: Clk, why: Failure)

  ghost predicate FailsIn(m: Counts, up: Parents, c: Clk?, f: Failure)
    requires Ranked(m, up) && (c != null ==> c in m)
    decreases Height(c)
  {
    && c != null && m[c] == 0 && !f.NoFailure?
    && if f.at != c then FailsIn(m, up, up[c], f)
       else if f.OwnOp? then c.kind == Other && c.depends == null
       else c.depends != null && FailsIn(Up(m, up, up[c]), up, c.depends, f.why)
  }

  /** The counts after such a failure: what was enabled below the failing clock's operation is
      undone by releasing the parent. */
  ghost function AfterFailure(m: Counts, up: Parents, c: Clk?, f: Failure): (r: Counts)
    requires Ranked(m, up) && (c != null ==> c in m) && FailsIn(m, up, c, f)
    ensures r.Keys == m.Keys
    decreases Height(c)
  {
    if f.at != c then AfterFailure(m, up, up[c], f)
    else
      var m1 := Up(m, up, up[c]);
      var m2 := if f.OwnOp? then m1 else AfterFailure(m1, up, c.depends, f.why);
      Down(m2, up, up[c])
  }

  /** No dependency was newly taken on the way to the failure. */
  ghost predicate CleanFailure(m: Counts, up: Parents, c: Clk?, f: Failure)
    requires Ranked(m, up) && (c != null ==> c in m) && FailsIn(m, up, c, f)
    decreases Height(c)
  {
    if f.at != c then CleanFailure(m, up, up[c], f)
    else LeakFree(m, up, up[c]) && (f.OfDepends? ==> CleanFailure(Up(m, up, up[c]), up, c.depends, f.why))
  }

  /** What a failure at the clock itself makes of the counts before its operation. */
  ghost predicate OpFailed(m1: Counts, up: Parents, c: Clk, f: Failure, m2: Counts) {
    && Ranked(m1, up) && c in m1 && !f.NoFailure? && f.at == c
    && if f.OwnOp? then c.kind == Other && c.depends == null && m2 == m1
       else c.depends != null && FailsIn(m1, up, c.depends, f.why) && m2 == AfterFailure(m1, up, c.depends, f.why)
  }

  lemma FailsHere(m: Counts, m2: Counts, up: Parents, c: Clk, f: Failure)
    requires Ranked(m, up) && c in m && m[c] == 0 && OpFailed(Up(m, up, up[c]), up, c, f, m2)
    ensures FailsIn(m, up, c, f) && Ranked(m2, up) && AfterFailure(m, up, c, f) == Down(m2, up, up[c])
    ensures CleanFailure(m, up, c, f) <==>
      && LeakFree(m, up, up[c])
      && (f.OfDepends? ==> CleanFailure(Up(m, up, up[c]), up, c.depends, f.why))
  {
    hide Up, Down, LeakFree;
  }

  lemma FailsAbove(m: Counts, up: Parents, c: Clk, f: Failure)
    requires Ranked(m, up) && c in m && m[c] == 0 && FailsIn(m, up, up[c], f)
    ensures FailsIn(m, up, c, f) && AfterFailure(m, up, c, f) == AfterFailure(m, up, up[c], f)
    ensures CleanFailure(m, up, c, f) <==> CleanFailure(m, up, up[c], f)
  {
    FailsBelow(m, up, up[c], f);
    hide Up, Down, LeakFree;
  }

  lemma {:induction false} FailsBelow(m: Counts, up: Parents, c: Clk?, f: Failure)
    requires Ranked(m, up) && (c != null ==> c in m) && FailsIn(m, up, c, f)
    ensures f.at.rank < Height(c)
    decreases Height(c)
  {
    if f.at != c {
      FailsBelow(m, up, up[c], f);
    }
  }

  /** The failure of clock `c`, taken apart. */
  lemma FailureIs(m: Counts, up: Parents, c: Clk?, f: Failure)
    requires Ranked(m, up) && (c != null ==> c in m) && FailsIn(m, up, c, f)
    ensures c != null && c in up && m[c] == 0 && Height(up[c]) <= c.rank && Height(c.depends) <= c.rank && !f.NoFailure?
    ensures up[c] != null ==> up[c] in m
    ensures c.depends != null ==> c.depends in m
    ensures f.at != c ==> FailsIn(m, up, up[c], f)
    ensures f.at == c ==>
      var m1 := Up(m, up, up[c]);
      && (f.OfDepends? ==> c.depends != null && Ranked(m1, up) && FailsIn(m1, up, c.depends, f.why))
      && OpFailed(m1, up, c, f, if f.OwnOp? then m1 else AfterFailure(m1, up, c.depends, f.why))
  {
    hide Up, Down;
  }

  /** A failure loses nobody's reference. */
  lemma {:induction false} FailureKept(m: Counts, up: Parents, c: Clk?, f: Failure)
    requires Ranked(m, up) && (c != null ==> c in m) && Covered(m, up) && FailsIn(m, up, c, f)
    ensures var r := AfterFailure(m, up, c, f);
      Ranked(r, up) && Covered(r, up) && Kept(m, r, up, Height(c))
    decreases Height(c)
  {
    hide *;
    FailureIs(m, up, c, f);
    HeightIs(c);
    if f.at != c {
      FailureKept(m, up, up[c], f);
      FailsAbove(m, up, c, f);
      KeptRank(m, AfterFailure(m, up, c, f), up, Height(up[c]), Height(c));
    } else {
      var m1 := Up(m, up, up[c]);
      RankedUp(m, up, up[c]);
      CoveredUp(m, up, up[c]);
      KeptSame(m1, up, c.rank);
      if f.OfDepends? {
        FailureKept(m1, up, c.depends, f.why);
        KeptRank(m1, AfterFailure(m1, up, c.depends, f.why), up, Height(c.depends), c.rank);
      }
      var m2 := if f.OwnOp? then m1 else AfterFailure(m1, up, c.depends, f.why);
      FailsHere(m, m2, up, c, f);
      RollbackKept(m, m1, m2, up, up[c], c);
    }
  }

  /** A clean failure undoes everything. */
  lemma {:induction false} CleanBack(m: Counts, up: Parents, c: Clk?, f: Failure)
    requires Ranked(m, up) && (c != null ==> c in m) && FailsIn(m, up, c, f) && CleanFailure(m, up, c, f)
    ensures AfterFailure(m, up, c, f) == m
    decreases Height(c)
  {
    hide *;
    FailureIs(m, up, c, f);
    HeightIs(c);
    if f.at != c {
      FailsAbove(m, up, c, f);
      CleanBack(m, up, up[c], f);
    } else {
      var m1 := Up(m, up, up[c]);
      var m2 := if f.OwnOp? then m1 else AfterFailure(m1, up, c.depends, f.why);
      FailsHere(m, m2, up, c, f);
      if f.OfDepends? {
        CleanBack(m1, up, c.depends, f.why);
      }
      DownUpBack(m, up, up[c]);
    }
  }

  /** Any other one leaves a reference behind. */
  lemma {:induction false} DirtyGrows(m: Counts, up: Parents, c: Clk?, f: Failure) returns (x: Clk)
    requires Ranked(m, up) && (c != null ==> c in m) && Covered(m, up) && FailsIn(m, up, c, f) && !CleanFailure(m, up, c, f)
    ensures m.Keys == up.Keys == AfterFailure(m, up, c, f).Keys && x in m
    ensures Slack(AfterFailure(m, up, c, f), up, x) > Slack(m, up, x)
    decreases Height(c)
  {
    hide *;
    FailureIs(m, up, c, f);
    HeightIs(c);
    RankedKeys(m, up);
    if f.at != c {
      FailsAbove(m, up, c, f);
      x := DirtyGrows(m, up, up[c], f);
    } else {
      var p, m1 := up[c], Up(m, up, up[c]);
      var m2 := if f.OwnOp? then m1 else AfterFailure(m1, up, c.depends, f.why);
      FailsHere(m, m2, up, c, f);
      RankedUp(m, up, p);
      CoveredUp(m, up, p);
      KeptSame(m1, up, c.rank);
      if f.OfDepends? {
        FailureKept(m1, up, c.depends, f.why);
        KeptRank(m1, m2, up, Height(c.depends), c.rank);
      }
      if LeakFree(m, up, p) {
        x := DirtyGrows(m1, up, c.depends, f.why);
      } else {
        x := Leaking(m, up, p);
      }
      KeptAt(m1, m2, up, c.rank, x);
      if p != null {
        KeptAt(m1, m2, up, c.rank, p);
        CoveredAt(m, up, p);
      }
      RollbackSlack(m, m2, up, p, x);
    }
  }

  /** Enabling a clock that fails leaves the counts as they were exactly if no dependency was
      newly taken on the way to the failure. */
  lemma CleanFailureIff(m: Counts, up: Parents, c: Clk?, f: Failure)
    requires Ranked(m, up) && (c != null ==> c in m) && Covered(m, up) && FailsIn(m, up, c, f)
    ensures AfterFailure(m, up, c, f) == m <==> CleanFailure(m, up, c, f)
  {
    if CleanFailure(m, up, c, f) {
      CleanBack(m, up, c, f);
    } else {
      var x := DirtyGrows(m, up, c, f);
    }
  }

  /** So does every failure below a clock whose own path takes none. */
  lemma {:induction false} LeakFreeClean(m: Counts, up: Parents, c: Clk?, f: Failure)
    requires Ranked(m, up) && (c != null ==> c in m) && FailsIn(m, up, c, f) && LeakFree(m, up, c)
    ensures CleanFailure(m, up, c, f)
    decreases Height(c)
  {
    hide *;
    FailureIs(m, up, c, f);
    HeightIs(c);
    LeakFreeChain(m, up, c);
    if f.at != c {
      FailsAbove(m, up, c, f);
      LeakFreeClean(m, up, up[c], f);
    } else {
      FailsHere(m, Up(m, up, up[c]), up, c, f);
    }
  }

  /** Enabling `c` may fail: a parent may, or its own operation, or what it depends on. */
  ghost predicate CanFail(m: Counts, up: Parents, c: Clk?)
    requires Ranked(m, up) && (c != null ==> c in m)
    decreases Height(c), 1
  {
    c != null && m[c] == 0 && (CanFail(m, up, up[c]) || OpCanFail(Up(m, up, up[c]), up, c))
  }

  ghost predicate OpCanFail(m1: Counts, up: Parents, c: Clk)
    requires Ranked(m1, up) && c in m1
    decreases Height(c), 0
  {
    if c.depends == null then c.kind == Other else CanFail(m1, up, c.depends)
  }

  /** A condition on the tree before the call: wherever the operation of a clock on the way may
      fail, no dependency was newly taken before. */
  ghost predicate AlwaysClean(m: Counts, up: Parents, c: Clk?)
    requires Ranked(m, up) && (c != null ==> c in m)
    decreases Height(c)
  {
    c != null && m[c] == 0 ==>
      && AlwaysClean(m, up, up[c])
      && var m1 := Up(m, up, up[c]);
         && (OpCanFail(m1, up, c) ==> LeakFree(m, up, up[c]))
         && AlwaysClean(m1, up, c.depends)
  }

  lemma {:induction false} AlwaysCleanly(m: Counts, up: Parents, c: Clk?, f: Failure)
    requires Ranked(m, up) && (c != null ==> c in m) && AlwaysClean(m, up, c) && FailsIn(m, up, c, f)
    ensures CleanFailure(m, up, c, f)
    decreases Height(c)
  {
    hide LeakFree, Up;
    FailureIs(m, up, c, f);
    if f.at != c {
      AlwaysCleanly(m, up, up[c], f);
    } else if f.OfDepends? {
      AlwaysCleanly(Up(m, up, up[c]), up, c.depends, f.why);
      FailsCan(Up(m, up, up[c]), up, c.depends, f.why);
    }
  }

  lemma {:induction false} FailsCan(m: Counts, up: Parents, c: Clk?, f: Failure)
    requires Ranked(m, up) && (c != null ==> c in m) && FailsIn(m, up, c, f)
    ensures CanFail(m, up, c)
    decreases Height(c)
  {
    hide Up;
    FailureIs(m, up, c, f);
    if f.at != c {
      FailsCan(m, up, up[c], f);
    } else if f.OfDepends? {
      FailsCan(Up(m, up, up[c]), up, c.depends, f.why);
    }
  }

  lemma {:induction false} SomeFailure(m: Counts, up: Parents, c: Clk?) returns (f: Failure)
    requires Ranked(m, up) && (c != null ==> c in m) && CanFail(m, up, c)
    ensures FailsIn(m, up, c, f)
    decreases Height(c)
  {
    hide Up;
    if CanFail(m, up, up[c]) {
      f := SomeFailure(m, up, up[c]);
      FailsAbove(m, up, c, f);
    } else if c.depends == null {
      f := OwnOp(c);
    } else {
      var why := SomeFailure(Up(m, up, up[c]), up, c.depends);
      f := OfDepends(c, why);
    }
  }

  lemma {:induction false} SomeDirtyFailure(m: Counts, up: Parents, c: Clk?) returns (f: Failure)
    requires Ranked(m, up) && (c != null ==> c in m) && !AlwaysClean(m, up, c)
    ensures FailsIn(m, up, c, f) && !CleanFailure(m, up, c, f)
    decreases Height(c)
  {
    hide Up, LeakFree;
    var m1 := Up(m, up, up[c]);
    if !AlwaysClean(m, up, up[c]) {
      f := SomeDirtyFailure(m, up, up[c]);
      FailsAbove(m, up, c, f);
    } else if !AlwaysClean(m1, up, c.depends) {
      var why := SomeDirtyFailure(m1, up, c.depends);
      f := OfDepends(c, why);
    } else if c.depends == null {
      f := OwnOp(c);
    } else {
      var why := SomeFailure(m1, up, c.depends);
      f := OfDepends(c, why);
    }
  }

  /** Every failure of enabling a clock leaves the counts as they were exactly if the tree
      meets that condition before the call. */
  lemma AlwaysCleanIff(m: Counts, up: Parents, c: Clk?)
    requires Ranked(m, up) && (c != null ==> c in m) && Covered(m, up)
    ensures (forall f :: FailsIn(m, up, c, f) ==> AfterFailure(m, up, c, f) == m) <==> AlwaysClean(m, up, c)
  {
    hide FailsIn, AfterFailure, CleanFailure, AlwaysClean, Ranked, Covered;
    if AlwaysClean(m, up, c) {
      forall f | FailsIn(m, up, c, f)
        ensures AfterFailure(m, up, c, f) == m
      {
        AlwaysCleanly(m, up, c, f);
        CleanFailureIff(m, up, c, f);
      }
    } else {
      var f := SomeDirtyFailure(m, up, c);
      CleanFailureIff(m, up, c, f);
    }
  }

  /** It happens: the parent takes a dependency, and then the clock's own operation fails. */
  lemma DirtyFailureOccurs(d: Clk, p: Clk, c: Clk)
    requires p.depends == d && d.depends == null && c.depends == null && c.kind == Other
    requires d.rank < p.rank < c.rank
    ensures var m: Counts, up: Parents := map[d := 0, p := 0, c := 0], map[d := null, p := null, c := p];
      && Ranked(m, up) && Covered(m, up) && FailsIn(m, up, c, OwnOp(c))
      && AfterFailure(m, up, c, OwnOp(c)) == m[d := 1] && !AlwaysClean(m, up, c)
  {
    var m: Counts, up: Parents := map[d := 0, p := 0, c := 0], map[d := null, p := null, c := p];
    assert Ranked(m, up);
    NothingRuns(m, up);
    var m1: Counts := m[d := 1];
    var m2: Counts := m1[p := 1];
    assert Up(m, up, d) == m1;
    assert Up(m, up, p) == m2;
    assert Down(m2, up, p) == m1;
    assert FailsIn(m, up, c, OwnOp(c));
    hide Up, Down, Covered;
    AlwaysCleanIff(m, up, c);
  }

  lemma NothingRuns(m: Counts, up: Parents)
    requires m.Keys == up.Keys && forall c :: c in m ==> m[c] == 0
    ensures Covered(m, up)
  {
    forall x | x in m
      ensures Slack(m, up, x) == 0
    {
      assert Kids(m, up, x) == {};
    }
  }

  lemma RankedKeys(m: Counts, up: Parents)
    requires Ranked(m, up)
    ensures m.Keys == up.Keys
  {
  }

  lemma Leaking(m: Counts, up: Parents, c: Clk?) returns (x: Clk)
    requires Ranked(m, up) && (c != null ==> c in m) && !LeakFree(m, up, c)
    ensures x in m && Leaks(m, up, c, x) > 0
  {
    hide Leaks;
    x :| x in m && Leaks(m, up, c, x) != 0;
  }

  lemma KeptAt(m: Counts, r: Counts, up: Parents, h: nat, x: Clk)
    requires Kept(m, r, up, h) && x in m
    ensures m.Keys == r.Keys == up.Keys && Slack(r, up, x) >= Slack(m, up, x)
  {
    hide Slack;
  }

  lemma CoveredAt(m: Counts, up: Parents, x: Clk)
    requires m.Keys == up.Keys && Covered(m, up) && x in m
    ensures Slack(m, up, x) >= 0
  {
    hide Slack;
  }

  lemma HeightIs(c: Clk?)
    ensures c != null ==> Height(c) == c.rank + 1
  {
  }

  lemma RankedUp(m: Counts, up: Parents, c: Clk?)
    requires Ranked(m, up) && (c != null ==> c in m)
    ensures Ranked(Up(m, up, c), up)
  {
  }

  /** The running clocks fed by `p`, leaving `c` out. */
  ghost function Siblings(m: Counts, up: Parents, p: Clk, c: Clk): set<Clk>
    requires m.Keys == up.Keys
  {
    Kids(m, up, p) - {c}
  }

  lemma KidsSplit(m: Counts, up: Parents, p: Clk, c: Clk)
    requires m.Keys == up.Keys && c in m
    ensures |Kids(m, up, p)| == |Siblings(m, up, p, c)| + if m[c] > 0 && up[c] == p then 1 else 0
  {
    if c in Kids(m, up, p) {
      assert Kids(m, up, p) == Siblings(m, up, p, c) + {c};
    } else {
      assert Kids(m, up, p) == Siblings(m, up, p, c);
    }
  }

  /** The source of `c` moves to `s`: a running clock changes from one parent to the other. */
  lemma SlackReparent(m: Counts, up: Parents, c: Clk, s: Clk?, x: Clk)
    requires m.Keys == up.Keys && c in m && x in m
    ensures Slack(m, up[c := s], x)
         == Slack(m, up, x) + if m[c] == 0 then 0 else (if up[c] == x then 1 else 0) - (if s == x then 1 else 0)
  {
    assert Siblings(m, up[c := s], x, c) == Siblings(m, up, x, c);
    hide Kids, Siblings;
    KidsSplit(m, up, x, c);
    KidsSplit(m, up[c := s], x, c);
  }

  lemma ReparentRanked(m: Counts, up: Parents, c: Clk, s: Clk?)
    requires Ranked(m, up) && c in m && (s != null ==> s in m) && Height(s) <= c.rank
    ensures Ranked(m, up[c := s])
  {
  }

  /** References beyond those of children that `x` gains when enabled clock `c` moves to
      source `s`: the one `c` had on its old source stays behind if `c` runs; the new one is
      not matched by a running child if it does not. */
  ghost function Moved(m: Counts, up: Parents, c: Clk, s: Clk?, x: Clk): nat
    requires Ranked(m, up) && c in m && (s != null ==> s in m)
  {
    Leaks(m, up, s, x) + (if s == x && m[c] == 0 then 1 else 0) + (if up[c] == x && m[c] > 0 then 1 else 0)
  }

  /** The counts after a rate change of an enabled clock: the new source is enabled, the
      old one is not released. */
  lemma RateMoves(m: Counts, up: Parents, c: Clk, s: Clk?)
    requires Ranked(m, up) && Covered(m, up) && c in m && (s != null ==> s in m) && Height(s) <= c.rank
    ensures var m', up' := Up(m, up, s), up[c := s];
      && Ranked(m', up') && Covered(m', up') && m'[c] == m[c]
      && (forall x :: x in m ==> Slack(m', up', x) == Slack(m, up, x) + Moved(m, up, c, s, x))
  {
    hide Slack, Up, Leaks, Moved;
    var m', up' := Up(m, up, s), up[c := s];
    ReparentRanked(m', up, c, s);
    UpAbove(m, up, s, c);
    forall x | x in m
      ensures Slack(m', up', x) == Slack(m, up, x) + Moved(m, up, c, s, x)
    {
      MovedIs(m, up, c, s, x);
    }
  }

  lemma MovedIs(m: Counts, up: Parents, c: Clk, s: Clk?, x: Clk)
    requires Ranked(m, up) && c in m && x in m && (s != null ==> s in m) && Height(s) <= c.rank
    ensures Slack(Up(m, up, s), up[c := s], x) == Slack(m, up, x) + Moved(m, up, c, s, x)
  {
    hide Slack, Up, Leaks;
    UpAbove(m, up, s, c);
    SlackUp(m, up, s, x);
    SlackReparent(Up(m, up, s), up, c, s, x);
  }

  /** The same for a clock that was never enabled: only the edge moves. */
  lemma RateMovesIdle(m: Counts, up: Parents, c: Clk, s: Clk?)
    requires Ranked(m, up) && Covered(m, up) && c in m && m[c] == 0 && (s != null ==> s in m) && Height(s) <= c.rank
    ensures var up' := up[c := s];
      && Ranked(m, up') && Covered(m, up')
      && forall x :: x in m ==> Slack(m, up', x) == Slack(m, up, x)
  {
    hide Slack;
    forall x | x in m
      ensures Slack(m, up[c := s], x) == Slack(m, up, x)
    {
      SlackReparent(m, up, c, s, x);
    }
  }

  /** The references that clients hold on clocks are there beyond those of children. */
  ghost predicate Ledger(m: Counts, up: Parents, owned: Counts)
    requires m.Keys == up.Keys
  {
    owned.Keys == m.Keys && forall x :: x in m ==> Slack(m, up, x) >= owned[x]
  }

  /** A tree in which nothing was enabled yet. */
  lemma LedgerStarts(m: Counts, up: Parents)
    requires m.Keys == up.Keys && forall c :: c in m ==> m[c] == 0
    ensures Ledger(m, up, m)
  {
    forall x | x in m
      ensures Slack(m, up, x) == 0
    {
      assert Kids(m, up, x) == {};
    }
  }

  lemma LedgerCovered(m: Counts, up: Parents, owned: Counts)
    requires m.Keys == up.Keys && Ledger(m, up, owned)
    ensures Covered(m, up)
  {
  }

  lemma LedgerUp(m: Counts, up: Parents, owned: Counts, c: Clk)
    requires Ranked(m, up) && c in m && Ledger(m, up, owned)
    ensures Ledger(Up(m, up, c), up, owned[c := owned[c] + 1])
  {
    hide Slack, Up, Leaks;
    forall x | x in m
      ensures Slack(Up(m, up, c), up, x) >= owned[x] + if c == x then 1 else 0
    {
      SlackUp(m, up, c, x);
    }
  }

  lemma LedgerDown(m: Counts, up: Parents, owned: Counts, c: Clk)
    requires Ranked(m, up) && c in m && Ledger(m, up, owned) && owned[c] > 0
    ensures Ledger(Down(m, up, c), up, owned[c := owned[c] - 1])
  {
    hide Slack, Down;
    LedgerCovered(m, up, owned);
    SlackCounts(m, up, c);
    hide Ranked, Covered;
    forall x | x in m
      ensures Slack(Down(m, up, c), up, x) >= owned[x] - if c == x then 1 else 0
    {
      SlackDown(m, up, c, x);
    }
  }

  lemma LedgerKept(m: Counts, m': Counts, up: Parents, up': Parents, owned: Counts)
    requires m.Keys == up.Keys == m'.Keys == up'.Keys && Ledger(m, up, owned)
    requires forall x :: x in m ==> Slack(m', up', x) >= Slack(m, up, x)
    ensures Ledger(m', up', owned)
  {
    hide Slack;
  }

  /** What the ledger guarantees in every state: a clock that a client holds or that feeds a
      running clock is running, and so is everything above it. */
  lemma LedgerRuns(m: Counts, up: Parents, owned: Counts, c: Clk)
    requires Ranked(m, up) && c in m && Ledger(m, up, owned)
    ensures m[c] >= owned[c] + |Kids(m, up, c)|
    ensures m[c] > 0 ==> ChainRuns(m, up, c)
  {
    LedgerCovered(m, up, owned);
    assert Slack(m, up, c) >= owned[c];
    if m[c] > 0 {
      RunningChain(m, up, c);
    }
  }
}
