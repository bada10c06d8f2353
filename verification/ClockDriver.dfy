/** The clock driver: enable, disable and rate changes on shared clock objects. */
module ClockDriver {
  import opened ClockTree

  /** The driver's return codes. */
  datatype Code = NoError | NotValid | InvalidArgs | Failed

  /** Clocks of the second library have a parent or a source, but no operation to report it. */
  function GetParent(c: Clk): Clk?
    reads c`current
  {
    if c.kind == Rcg then (if 0 <= c.current < |c.table| then c.table[c.current].src else null)
    else if c.kind == Root2 || c.kind.Gate2? then null
    else c.parent
  }

  /** Clocks with a table of frequencies. */
  predicate HasTable(c: Clk) {
    c.kind == Rcg || c.kind == Root2
  }

  ghost function CountsOf(all: set<Clk>): Counts
    reads all
  {
    map c | c in all :: c.count
  }

  ghost function ParentsOf(all: set<Clk>): Parents
    reads all
  {
    map c | c in all :: GetParent(c)
  }

  /** A clock of the tree refers to clocks of the tree that rank below it. */
  ghost predicate Below(p: Clk?, c: Clk, all: set<Clk>) {
    p != null ==> p in all && (p as Clk).rank < c.rank
  }

  ghost predicate Wired(c: Clk, all: set<Clk>) {
    && Below(c.parent, c, all) && Below(c.depends, c, all)
    && (c.kind != Rcg ==> c.depends == null)
    && (forall i :: 0 <= i < |c.table| ==> Below(c.table[i].src, c, all))
    && (HasTable(c) ==> |c.table| > 0 && c.table[|c.table| - 1].hz == FREQ_END)
    && (c.kind.Gate2? && !c.kind.sibling ==> c.parent != null)
  }

  /** Clocks that keep a mark of having been enabled. */
  predicate HasMark(c: Clk) {
    c.kind == Rcg || c.kind == Branch
  }

  /** The tree is well wired, and a running clock was marked as enabled. */
  ghost predicate Tree(all: set<Clk>)
    reads all
  {
    && (forall c :: c in all ==> Wired(c, all) && -1 <= c.current < |c.table|)
    && (forall c :: c in all && HasMark(c) && c.count > 0 ==> c.enabled)
  }

  /** What the contracts say about the objects: their counts and parents as values. */
  ghost predicate Holds(all: set<Clk>, m: Counts, up: Parents)
    reads all
  {
    Tree(all) && CountsOf(all) == m && ParentsOf(all) == up && Ranked(m, up)
  }

  lemma HoldsIs(all: set<Clk>, m: Counts, up: Parents, c: Clk)
    requires Holds(all, m, up) && c in all
    ensures Height(c) == c.rank + 1
    ensures Ranked(m, up) && c in m && m[c] == c.count && up[c] == GetParent(c) && m.Keys == all
    ensures GetParent(c) != null ==> GetParent(c) in all && c.rank > 0
    ensures c.depends != null ==> c.depends in all && c.kind == Rcg
    ensures Height(GetParent(c)) <= c.rank && Height(c.depends) <= c.rank
    ensures HasMark(c) && c.count > 0 ==> c.enabled
  {
  }

  lemma HoldsRanked(all: set<Clk>, m: Counts, up: Parents)
    requires Holds(all, m, up)
    ensures Ranked(m, up) && m.Keys == up.Keys == all
  {
  }

  /** What a running clock hangs on runs: the fixed parent of a gate of the first library, or of
      any other clock that reports one, and the source of the line that a root selects; and it
      was marked as enabled, if it keeps such a mark. */
  ghost predicate Fed(all: set<Clk>)
    reads all
  {
    forall c :: c in all && c.count > 0 ==> FedClock(c, all)
  }

  ghost predicate FedClock(c: Clk, all: set<Clk>)
    reads c, all
  {
    && ((c.kind == Branch || c.kind == Other) && c.parent != null ==> c.parent in all && c.parent.count > 0)
    && (c.kind == Rcg && 0 <= c.current < |c.table| && c.table[c.current].src != null ==>
          c.table[c.current].src in all && c.table[c.current].src.count > 0)
    && (c.kind == Rcg || c.kind == Branch ==> c.enabled)
  }

  lemma HoldsFed(all: set<Clk>, m: Counts, up: Parents)
    requires Holds(all, m, up) && Covered(m, up)
    ensures Fed(all)
  {
    hide Holds, Covered, FedClock;
    forall c | c in all && c.count > 0
      ensures FedClock(c, all)
    {
      HoldsIs(all, m, up, c);
      ParentRuns(m, up, c);
      if GetParent(c) != null {
        HoldsIs(all, m, up, GetParent(c));
      }
      FedBy(c, all);
    }
  }

  lemma FedBy(c: Clk, all: set<Clk>)
    requires GetParent(c) != null ==> GetParent(c) in all && (GetParent(c) as Clk).count > 0
    requires HasMark(c) ==> c.enabled
    ensures FedClock(c, all)
  {
  }

  /** One count is written. */
  method SetCount(c: Clk, n: nat, ghost all: set<Clk>, ghost m: Counts, ghost up: Parents)
    requires Holds(all, m, up) && c in all && (HasMark(c) && n > 0 ==> c.enabled)
    modifies c`count
    ensures Holds(all, m[c := n], up)
  {
    hide Wired, GetParent;
    c.count := n;
    assert Tree(all);
    assert CountsOf(all) == m[c := n];
    assert ParentsOf(all) == up;
  }

  method Disable(c: Clk?, ghost all: set<Clk>, ghost m: Counts, ghost up: Parents)
    requires Holds(all, m, up) && Ranked(m, up) && (c != null ==> c in m && c in all)
    modifies all`count
    ensures Holds(all, Down(m, up, c), up)
    decreases Height(c)
  {
    hide *;
    if c == null {
      DownIs(m, up, c);
      return;
    }
    DownIs(m, up, c);
    HoldsIs(all, m, up, c);
    ghost var m1 := m;
    if c.count == 0 {
      return;
    }
    if c.count == 1 {
      var parent := GetParent(c);
      Disable(parent, all, m, up);
      m1 := Down(m, up, up[c]);
      HoldsIs(all, m1, up, c);
    }
    SetCount(c, c.count - 1, all, m1, up);
  }

  method SetEnabled(c: Clk, ghost all: set<Clk>, ghost m: Counts, ghost up: Parents)
    requires Holds(all, m, up) && c in all
    modifies c`enabled
    ensures Holds(all, m, up) && c.enabled
  {
    hide Wired, GetParent, Ranked;
    c.enabled := true;
    assert Tree(all);
    assert CountsOf(all) == m;
    assert ParentsOf(all) == up;
  }

  ghost predicate NoDepends(all: set<Clk>) {
    forall c :: c in all ==> c.depends == null
  }

  /** No clock of the tree has an enable operation that can fail. */
  ghost predicate Dependable(all: set<Clk>) {
    forall c :: c in all ==> c.kind != Other
  }

  lemma DependableIs(all: set<Clk>, c: Clk)
    requires Dependable(all) && c in all
    ensures c.kind != Other
  {
  }

  /** The enable operation of a root clock: its dependency first. */
  method LocalClkEnable(c: Clk, ghost all: set<Clk>, ghost m: Counts, ghost up: Parents)
    returns (rc: Code, ghost m': Counts, ghost f: Failure)
    requires Holds(all, m, up) && Ranked(m, up) && Covered(m, up) && c in all && c.kind == Rcg
    modifies all`count, all`enabled
    ensures Holds(all, m', up) && Ranked(m', up) && Covered(m', up)
    ensures rc == NoError ==> (c.depends != null ==> c.depends in m) && m' == Up(m, up, c.depends) && c.enabled
    ensures rc != NoError ==> f.OfDepends? && OpFailed(m, up, c, f, m')
    ensures c.depends == null || Dependable(all) ==> rc == NoError
    decreases c.rank, 1
  {
    hide *;
    HoldsIs(all, m, up, c);
    UpIs(m, up, null);
    rc, m', f := Enable(c.depends, all, m, up);
    if rc != NoError {
      f := OfDepends(c, f);
      DependsFailed(m, up, c, f, m');
      return;
    }
    SetEnabled(c, all, m', up);
  }

  /** The clock's own enable operation. */
  method EnableOp(c: Clk, ghost all: set<Clk>, ghost m: Counts, ghost up: Parents)
    returns (rc: Code, ghost m': Counts, ghost f: Failure)
    requires Holds(all, m, up) && Ranked(m, up) && Covered(m, up) && c in all
    modifies all`count, all`enabled
    ensures Holds(all, m', up) && Ranked(m', up) && Covered(m', up)
    ensures rc == NoError ==> (c.depends != null ==> c.depends in m) && m' == Up(m, up, c.depends) && (HasMark(c) ==> c.enabled)
    ensures rc != NoError ==> OpFailed(m, up, c, f, m')
    ensures Dependable(all) ==> rc == NoError
    decreases c.rank, 2
  {
    hide *;
    HoldsIs(all, m, up, c);
    if Dependable(all) {
      DependableIs(all, c);
    }
    rc, m', f := NoError, m, OwnOp(c);
    MarkedKinds(c);
    match c.kind {
      case Rcg => rc, m', f := LocalClkEnable(c, all, m, up);
      case Branch => SetEnabled(c, all, m, up);
      case Root2 =>
      case Gate2(_) =>
      case Other => rc := *;  // the operation may fail
    }
    if c.kind != Rcg {
      UpIs(m, up, null);
    }
    if c.kind == Other {
      OwnFailed(m, up, c);
    }
  }

  lemma MarkedKinds(c: Clk)
    ensures HasMark(c) <==> c.kind == Rcg || c.kind == Branch
  {
  }

  lemma DependsFailed(m: Counts, up: Parents, c: Clk, f: Failure, m': Counts)
    requires Ranked(m, up) && c in m && f.OfDepends? && f.at == c && c.depends != null && c.depends in m
    requires FailsIn(m, up, c.depends, f.why) && m' == AfterFailure(m, up, c.depends, f.why)
    ensures OpFailed(m, up, c, f, m')
  {
  }

  lemma OwnFailed(m: Counts, up: Parents, c: Clk)
    requires Ranked(m, up) && c in m && c.kind == Other && c.depends == null
    ensures OpFailed(m, up, c, OwnOp(c), m)
  {
  }

  /** A success leaves the counts that enabling is specified to leave. A failure leaves those
      that follow from where it happened: the ones from before exactly if no dependency was
      newly taken on the way there, as it never is in a tree that is always clean. */
  method Enable(c: Clk?, ghost all: set<Clk>, ghost m: Counts, ghost up: Parents)
    returns (rc: Code, ghost m': Counts, ghost f: Failure)
    requires Holds(all, m, up) && Ranked(m, up) && Covered(m, up) && (c != null ==> c in all)
    modifies all`count, all`enabled
    ensures Holds(all, m', up) && Ranked(m', up) && Covered(m', up)
    ensures c != null ==> c in m
    ensures rc == NoError ==> m' == Up(m, up, c) && Fed(all) && (c != null ==> c.count > 0)
    ensures rc != NoError ==> c != null && FailsIn(m, up, c, f) && m' == AfterFailure(m, up, c, f)
    ensures rc != NoError ==> Kept(m, m', up, Height(c)) && (m' == m <==> CleanFailure(m, up, c, f))
    ensures rc != NoError && (AlwaysClean(m, up, c) || LeakFree(m, up, c) || NoDepends(all)) ==> m' == m
    ensures rc != NoError ==> CanFail(m, up, c)
    ensures c == null || old(c.count) > 0 || Dependable(all) ==> rc == NoError
    decreases Height(c), 0
  {
    hide *;
    rc, m', f := NoError, m, NoFailure;
    UpIs(m, up, null);
    if c == null {
      HoldsFed(all, m, up);
      return;
    }
    HoldsIs(all, m, up, c);
    if c.count == 0 {
      var parent := GetParent(c);
      rc, m', f := Enable(parent, all, m, up);
      if rc != NoError {
        FailsAbove(m, up, c, f);
        Failed(all, m, up, c, f);
        return;
      }
      ghost var m1 := m';
      rc, m', f := EnableOp(c, all, m', up);
      if rc != NoError {
        FailsHere(m, m', up, c, f);
        HoldsRanked(all, m', up);
        Disable(parent, all, m', up);
        Failed(all, m, up, c, f);
        m' := Down(m', up, parent);
        return;
      }
    }
    UpIs(m, up, c);
    CoveredUp(m, up, c);
    HoldsIs(all, m', up, c);
    SetCount(c, c.count + 1, all, m', up);
    m' := m'[c := m'[c] + 1];
    HoldsRanked(all, m', up);
    HoldsIs(all, m', up, c);
    HoldsFed(all, m', up);
  }

  /** What a failure leaves. */
  lemma Failed(all: set<Clk>, m: Counts, up: Parents, c: Clk, f: Failure)
    requires Ranked(m, up) && c in m && Covered(m, up) && FailsIn(m, up, c, f) && m.Keys == all
    ensures var r := AfterFailure(m, up, c, f);
      && Ranked(r, up) && Covered(r, up) && Kept(m, r, up, Height(c))
      && (r == m <==> CleanFailure(m, up, c, f))
      && (AlwaysClean(m, up, c) || LeakFree(m, up, c) || NoDepends(all) ==> r == m)
      && CanFail(m, up, c)
  {
    hide Ranked, Covered, Kept, LeakFree, FailsIn, AfterFailure, CleanFailure, AlwaysClean, CanFail;
    FailureKept(m, up, c, f);
    FailsCan(m, up, c, f);
    if AlwaysClean(m, up, c) {
      AlwaysCleanly(m, up, c, f);
    }
    CleanFailureIff(m, up, c, f);
    if NoDepends(all) {
      NoDependsLeakFree(m, up, c);
    }
    if LeakFree(m, up, c) {
      LeakFreeClean(m, up, c, f);
    }
  }

  /** The line of the table that a search for `rate` stops at. */
  ghost predicate StopsAt(table: seq<Freq>, rate: nat, i: nat) {
    && i < |table| && (table[i].hz == rate || table[i].hz == FREQ_END)
    && (forall j :: 0 <= j < i ==> table[j].hz != rate && table[j].hz != FREQ_END)
  }

  /** What a rate change leaves behind. */
  ghost predicate Retuned(m: Counts, up: Parents, m': Counts, up': Parents, c: Clk, s: Clk?, running: bool) {
    && Ranked(m, up) && c in m && (s != null ==> s in m)
    && up' == up[c := s]
    && m' == if running then Up(m, up, s) else m
  }

  method SetCurrent(c: Clk, i: nat, ghost all: set<Clk>, ghost m: Counts, ghost up: Parents)
    requires Holds(all, m, up) && c in all && (c.kind == Rcg || c.kind == Root2) && i < |c.table|
    modifies c`current
    ensures c.current == i
    ensures Holds(all, m, if c.kind == Rcg then up[c := c.table[i].src] else up)
  {
    hide Wired, Ranked, GetParent;
    SourceBelow(c, i, all, m, up);
    HoldsRanked(all, m, up);
    ReparentRanked(m, up, c, c.table[i].src);
    NoParent(c);
    c.current := i;
    SourceIs(c, i);
    assert Tree(all);
    assert CountsOf(all) == m;
    assert ParentsOf(all) == if c.kind == Rcg then up[c := c.table[i].src] else up;
  }

  lemma NoParent(c: Clk)
    ensures c.kind == Root2 || c.kind.Gate2? ==> GetParent(c) == null
  {
  }

  lemma SourceIs(c: Clk, i: nat)
    requires HasTable(c) && i < |c.table| && c.current == i
    ensures GetParent(c) == if c.kind == Rcg then c.table[i].src else null
  {
  }

  lemma SourceBelow(c: Clk, i: nat, all: set<Clk>, m: Counts, up: Parents)
    requires Holds(all, m, up) && c in all && i < |c.table|
    ensures c.table[i].src != null ==> c.table[i].src in all
    ensures Height(c.table[i].src) <= c.rank
  {
  }

  /** Nothing moves on a failure; a success selects line `i`. A source that is enabled for a
      running clock is not matched by a release of the old one. */
  method SwitchRate(c: Clk, i: nat, ghost all: set<Clk>, ghost m: Counts, ghost up: Parents)
    returns (rc: Code, ghost m': Counts, ghost up': Parents, ghost f: Failure)
    requires Holds(all, m, up) && Ranked(m, up) && Covered(m, up) && c in all && c.kind == Rcg && i < |c.table|
    modifies all`count, all`enabled, c`current
    ensures Holds(all, m', up') && Ranked(m', up') && Covered(m', up')
    ensures rc != NoError ==> c.current == old(c.current) && up' == up && Kept(m, m', up, c.rank)
    ensures rc != NoError ==> SourceFailed(m, up, c.table[i].src, f, m')
    ensures rc != NoError && (SourceClean(m, up, c.table[i].src) || NoDepends(all)) ==> m' == m
    ensures !old(c.enabled) || Dependable(all) ==> rc == NoError
    ensures rc == NoError ==> c.current == i
    ensures rc == NoError && old(c.current) == i ==> m' == m && up' == up
    ensures rc == NoError && old(c.current) != i ==> Retuned(m, up, m', up', c, c.table[i].src, old(c.enabled))
    ensures forall x :: x in m ==> x in up && x in m' && x in up'
    ensures m.Keys == up.Keys == m'.Keys == up'.Keys
    ensures forall x :: x in m ==> Slack(m', up', x) >= Slack(m, up, x)
  {
    hide *;
    HoldsRanked(all, m, up);
    rc, m', up', f := NoError, m, up, NoFailure;
    if i == c.current {
      return;
    }
    HoldsIs(all, m, up, c);
    SourceBelow(c, i, all, m, up);
    ghost var s := c.table[i].src;
    if c.enabled {
      rc, m', f := Enable(c.table[i].src, all, m, up);
      if rc != NoError {
        SourceFailedIs(m, up, s, f, m');
        KeptRank(m, m', up, Height(s), c.rank);
        KeptIs(m, m', up, c.rank);
        return;
      }
      RateMoves(m, up, c, s);
      RetunedIs(m, up, c, s, true);
    } else {
      MarkedKinds(c);
      RateMovesIdle(m, up, c, s);
      RetunedIs(m, up, c, s, false);
    }
    SetCurrent(c, i, all, m', up);
    up' := up[c := s];
    HoldsRanked(all, m', up');
  }

  /** The rate of a root clock of the second library: the new source is enabled whether the
      clock runs or not, nothing is released, and a source that could not be enabled goes
      unnoticed. */
  method SwitchRate2(c: Clk, i: nat, ghost all: set<Clk>, ghost m: Counts, ghost up: Parents)
    returns (ghost m': Counts, ghost f: Failure)
    requires Holds(all, m, up) && Ranked(m, up) && Covered(m, up) && c in all && c.kind == Root2 && i < |c.table|
    modifies all`count, all`enabled, c`current
    ensures Holds(all, m', up) && Ranked(m', up) && Covered(m', up)
    ensures c.current == i
    ensures old(c.current) == i ==> m' == m
    ensures old(c.current) != i ==>
      SourceTaken(m, up, c.table[i].src, m') || SourceFailed(m, up, c.table[i].src, f, m')
    ensures old(c.current) != i && Dependable(all) ==> SourceTaken(m, up, c.table[i].src, m')
    ensures m.Keys == up.Keys == m'.Keys
    ensures forall x :: x in m ==> Slack(m', up, x) >= Slack(m, up, x)
  {
    hide *;
    HoldsRanked(all, m, up);
    m', f := m, NoFailure;
    if i == c.current {
      return;
    }
    HoldsIs(all, m, up, c);
    SourceBelow(c, i, all, m, up);
    ghost var s := c.table[i].src;
    var rc;
    rc, m', f := Enable(c.table[i].src, all, m, up);
    if rc != NoError {
      SourceFailedIs(m, up, s, f, m');
      KeptIs(m, m', up, Height(s));
    } else {
      SourceTakenIs(m, up, s);
    }
    SetCurrent(c, i, all, m', up);
    HoldsRanked(all, m', up);
  }

  /** The source has one reference more that is not a child's, besides the leaks. */
  ghost predicate SourceTaken(m: Counts, up: Parents, s: Clk?, m': Counts) {
    && Ranked(m, up) && (s != null ==> s in m) && m' == Up(m, up, s)
    && (forall x :: x in m ==> Slack(m', up, x) == Slack(m, up, x) + Leaks(m, up, s, x) + if s == x then 1 else 0)
  }

  lemma SourceTakenIs(m: Counts, up: Parents, s: Clk?)
    requires Ranked(m, up) && (s != null ==> s in m)
    ensures SourceTaken(m, up, s, Up(m, up, s))
    ensures forall x :: x in m ==> Slack(Up(m, up, s), up, x) >= Slack(m, up, x)
  {
    hide Slack, Up, Leaks;
    forall x | x in m
      ensures Slack(Up(m, up, s), up, x) == Slack(m, up, x) + Leaks(m, up, s, x) + if s == x then 1 else 0
    {
      SlackUp(m, up, s, x);
    }
  }

  /** The new source could not be enabled: unchanged counts mean that no dependency was newly
      taken on the way to the failure, and the other way round. */
  ghost predicate SourceFailed(m: Counts, up: Parents, s: Clk?, f: Failure, m': Counts) {
    && Ranked(m, up) && s != null && s in m && FailsIn(m, up, s, f) && m' == AfterFailure(m, up, s, f)
    && (m' == m <==> CleanFailure(m, up, s, f))
  }

  ghost predicate SourceClean(m: Counts, up: Parents, s: Clk?) {
    Ranked(m, up) && (s != null ==> s in m) && (AlwaysClean(m, up, s) || LeakFree(m, up, s))
  }

  lemma SourceFailedIs(m: Counts, up: Parents, s: Clk?, f: Failure, m': Counts)
    requires Ranked(m, up) && s != null && s in m && FailsIn(m, up, s, f) && m' == AfterFailure(m, up, s, f)
    requires m' == m <==> CleanFailure(m, up, s, f)
    ensures SourceFailed(m, up, s, f, m')
    ensures SourceClean(m, up, s) == (AlwaysClean(m, up, s) || LeakFree(m, up, s))
  {
    hide Ranked, FailsIn, AfterFailure, CleanFailure, LeakFree, AlwaysClean;
  }

  lemma KeptIs(m: Counts, m': Counts, up: Parents, h: nat)
    requires Kept(m, m', up, h)
    ensures m.Keys == m'.Keys == up.Keys
    ensures forall x :: x in m ==> Slack(m', up, x) >= Slack(m, up, x)
  {
    hide Slack;
  }

  lemma RetunedIs(m: Counts, up: Parents, c: Clk, s: Clk?, running: bool)
    requires Ranked(m, up) && c in m && (s != null ==> s in m)
    ensures Retuned(m, up, if running then Up(m, up, s) else m, up[c := s], c, s, running)
  {
    hide Up, Ranked;
  }
}
