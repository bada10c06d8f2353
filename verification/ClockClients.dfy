/** What clients of the clock driver do over a run: they look clocks up, enable them, give
    their own references back and change rates. */
module ClockClients {
  import opened ClockTree
  import opened ClockDriver

  /** The search that ends at a line of its own, before the end marker. */
  ghost predicate Offers(table: seq<Freq>, rate: nat) {
    exists i: nat :: StopsAt(table, rate, i) && table[i].hz != FREQ_END
  }

  /** The line that was selected is the first one with the rate. */
  ghost predicate TunedTo(c: Clk, rate: nat)
    reads c`current
  {
    0 <= c.current && StopsAt(c.table, rate, c.current) && c.table[c.current].hz == rate
  }

  method FindLine(c: Clk, rate: nat, ghost all: set<Clk>) returns (i: nat)
    requires Wired(c, all) && HasTable(c)
    ensures StopsAt(c.table, rate, i)
  {
    i := 0;
    while c.table[i].hz != FREQ_END && c.table[i].hz != rate
      invariant i < |c.table|
      invariant forall j :: 0 <= j < i ==> c.table[j].hz != rate && c.table[j].hz != FREQ_END
      decreases |c.table| - i
    {
      i := i + 1;
    }
  }

  lemma StopsOnce(table: seq<Freq>, rate: nat, i: nat)
    requires StopsAt(table, rate, i)
    ensures Offers(table, rate) <==> table[i].hz != FREQ_END
  {
    forall k: nat | StopsAt(table, rate, k)
      ensures k == i
    {
      StopsUnique(table, rate, i, k);
    }
  }

  lemma StopsUnique(table: seq<Freq>, rate: nat, i: nat, k: nat)
    requires StopsAt(table, rate, i) && StopsAt(table, rate, k)
    ensures i == k
  {
  }

  lemma HoldsWired(all: set<Clk>, m: Counts, up: Parents, c: Clk)
    requires Holds(all, m, up) && c in all
    ensures Wired(c, all)
  {
  }

  /** The clock that a rate is set on: a gate of the second library passes it to its parent. */
  ghost function Target(c: Clk): Clk
    decreases c.rank
  {
    if c.kind.Gate2? && !c.kind.sibling && c.parent != null && (c.parent as Clk).rank < c.rank then Target(c.parent) else c
  }

  lemma TargetIn(c: Clk, all: set<Clk>, m: Counts, up: Parents)
    requires Holds(all, m, up) && c in all
    ensures c.kind.Gate2? && !c.kind.sibling ==>
      c.parent != null && c.parent in all && (c.parent as Clk).rank < c.rank && Target(c) == Target(c.parent)
    ensures !c.kind.Gate2? || c.kind.sibling ==> Target(c) == c
  {
    assert Wired(c, all);
    hide Tree, Ranked;
  }

  /** That clock is one of the tree, and no gate that would pass the rate on. */
  lemma {:induction false} TargetInAll(c: Clk, all: set<Clk>, m: Counts, up: Parents)
    requires Holds(all, m, up) && c in all
    ensures Target(c) in all && (Target(c).kind.Gate2? ==> Target(c).kind.sibling)
    decreases c.rank
  {
    hide Holds;
    TargetIn(c, all, m, up);
    if c.kind.Gate2? && !c.kind.sibling {
      TargetInAll(c.parent, all, m, up);
    }
  }

  /** A rate that the table does not offer, or a clock without a table, changes nothing. A rate
      that is offered is selected; if its source cannot be enabled, the old line stays, but a
      root clock of the second library does not notice. */
  method SetRate(c: Clk, rate: nat, ghost all: set<Clk>, ghost m: Counts, ghost up: Parents)
    returns (rc: Code, ghost m': Counts, ghost up': Parents)
    requires Holds(all, m, up) && Ranked(m, up) && Covered(m, up) && c in all
    modifies all`count, all`enabled, all`current
    ensures Holds(all, m', up') && Ranked(m', up') && Covered(m', up')
    ensures forall x :: x in all && x != Target(c) ==> x.current == old(x.current)
    ensures !HasTable(Target(c)) || !Offers(Target(c).table, rate) ==> rc != NoError && m' == m && up' == up
    ensures rc == NoError ==> TunedTo(Target(c), rate)
    ensures rc != NoError ==> up' == up && forall x :: x in all ==> x.current == old(x.current)
    ensures rc != NoError && NoDepends(all) ==> m' == m
    ensures Target(c) in all
    ensures (Target(c).kind == Rcg || Target(c).kind == Root2) && Offers(Target(c).table, rate) ==>
      (Target(c).kind == Root2 || !old(Target(c).enabled) || Dependable(all) ==> rc == NoError)
    ensures m.Keys == up.Keys == m'.Keys == up'.Keys
    ensures forall x :: x in m ==> Slack(m', up', x) >= Slack(m, up, x)
    decreases c.rank
  {
    hide Holds, Covered, Slack, Wired, Kept, Retuned, NoDepends, Offers, Target, TunedTo, Dependable, SourceTaken, SourceFailed,
         SourceClean, Ranked, StopsAt;
    HoldsRanked(all, m, up);
    TargetIn(c, all, m, up);
    TargetInAll(c, all, m, up);
    m', up' := m, up;
    if c.kind.Gate2? {
      if c.kind.sibling {
        return Failed, m', up';
      }
      rc, m', up' := SetRate(c.parent, rate, all, m, up);
      return;
    }
    if !HasTable(c) {
      return NotValid, m', up';
    }
    HoldsWired(all, m, up, c);
    var i := FindLine(c, rate, all);
    StopsOnce(c.table, rate, i);
    StopsTuned(c, rate, i);
    if c.table[i].hz == FREQ_END {
      return InvalidArgs, m', up';
    }
    ghost var f;
    if c.kind == Rcg {
      rc, m', up', f := SwitchRate(c, i, all, m, up);
    } else {
      m', f := SwitchRate2(c, i, all, m, up);
      rc := NoError;
    }
    if rc == NoError {
      Tuned(c, rate, i);
    }
  }

  lemma StopsTuned(c: Clk, rate: nat, i: nat)
    requires StopsAt(c.table, rate, i)
    ensures i < |c.table| && (c.table[i].hz != FREQ_END ==> c.table[i].hz == rate)
  {
  }

  lemma Tuned(c: Clk, rate: nat, i: nat)
    requires StopsAt(c.table, rate, i) && c.table[i].hz == rate && c.current == i
    ensures TunedTo(c, rate)
  {
  }

  datatype Lookup = Lookup(name: string, clk: Clk)

  /** The clock that `id` names: the first entry of the list with that name. */
  function Find(list: seq<Lookup>, id: string): (r: Clk?) {
    if list == [] then null else if list[0].name == id then list[0].clk else Find(list[1..], id)
  }

  method Get(list: seq<Lookup>, id: string) returns (r: Clk?)
    ensures r == Find(list, id)
    ensures r == null <==> forall k :: 0 <= k < |list| ==> list[k].name != id
    ensures r != null ==> exists k :: 0 <= k < |list| && list[k] == Lookup(id, r)
  {
    for i := 0 to |list|
      invariant Find(list[i..], id) == Find(list, id)
      invariant forall k :: 0 <= k < i ==> list[k].name != id
    {
      if list[i].name == id {
        return list[i].clk;
      }
      assert list[i..][1..] == list[i + 1..];
    }
    return null;
  }

  ghost predicate Listed(list: seq<Lookup>, all: set<Clk>) {
    forall k :: 0 <= k < |list| ==> list[k].clk in all
  }

  /** A call that returns without an error tuned the clock if a rate was asked for and left
      its client one reference if it asked for the clock to be enabled. */
  method GetSetEnable(list: seq<Lookup>, id: string, rate: nat, enable: bool,
                      ghost all: set<Clk>, ghost m: Counts, ghost up: Parents, ghost owned: Counts)
    returns (rc: Code, ghost m': Counts, ghost up': Parents)
    requires Holds(all, m, up) && Ranked(m, up) && Ledger(m, up, owned) && Listed(list, all)
    modifies all`count, all`enabled, all`current
    ensures Holds(all, m', up') && Ranked(m', up') && owned.Keys == m'.Keys
    ensures Ledger(m', up', After(owned, Setup(id, rate, enable), rc == NoError, list))
    ensures Find(list, id) == null ==> rc == NotValid && m' == m && up' == up
    ensures Find(list, id) != null && rate != 0 && rc == NoError ==> TunedTo(Target(Find(list, id)), rate)
  {
    hide Holds, Fed, Ledger, Covered, Slack, Find, Wired, Target, TunedTo, Kept, NoDepends, Offers, Ranked, ChainRuns, Up;
    HoldsRanked(all, m, up);
    LedgerCovered(m, up, owned);
    LedgerKeys(m, up, owned);
    rc, m', up' := NoError, m, up;
    var cp := Get(list, id);
    if cp == null {
      rc := NotValid;
      return;
    }
    if rate != 0 {
      rc, m', up' := SetRate(cp, rate, all, m, up);
      LedgerKept(m, m', up, up', owned);
      if rc != NoError {
        return;
      }
    }
    if enable {
      ghost var before := m';
      ghost var f;
      rc, m', f := Enable(cp, all, m', up');
      EnableLedger(before, m', up', owned, cp, rc);
      HoldsRanked(all, m', up');
    }
  }

  lemma LedgerKeys(m: Counts, up: Parents, owned: Counts)
    requires m.Keys == up.Keys && Ledger(m, up, owned)
    ensures owned.Keys == m.Keys
  {
  }

  /** What enabling does to the ledger. */
  lemma EnableLedger(m: Counts, m': Counts, up: Parents, owned: Counts, c: Clk, rc: Code)
    requires Ranked(m, up) && Ranked(m', up) && c in m && Ledger(m, up, owned)
    requires if rc == NoError then m' == Up(m, up, c) else Kept(m, m', up, Height(c))
    ensures Ledger(m', up, if rc == NoError then owned[c := owned[c] + 1] else owned)
  {
    if rc == NoError {
      LedgerUp(m, up, owned, c);
    } else {
      KeptIs(m, m', up, Height(c));
      LedgerKept(m, m', up, up, owned);
    }
  }

  datatype Op =
    | Acquire(c: Clk)
    | Release(c: Clk)
    | Tune(c: Clk, rate: nat)
    | Setup(id: string, rate: nat, enable: bool)

  /** The references that clients hold after an operation. */
  function After(owned: Counts, op: Op, ok: bool, list: seq<Lookup>): (r: Counts)
    ensures owned.Keys == r.Keys
  {
    match op
    case Acquire(c) => if ok && c in owned then owned[c := owned[c] + 1] else owned
    case Release(c) => if ok && c in owned && owned[c] > 0 then owned[c := owned[c] - 1] else owned
    case Tune(_, _) => owned
    case Setup(id, _, enable) =>
      var c := Find(list, id);
      if ok && enable && c != null && c in owned then owned[c := owned[c] + 1] else owned
  }

  ghost predicate Targets(op: Op, all: set<Clk>) {
    op.Setup? || op.c in all
  }

  /** One operation; a client that holds no reference on a clock does not disable it. */
  method Step(op: Op, list: seq<Lookup>, ghost all: set<Clk>, ghost m: Counts, ghost up: Parents, owned: Counts)
    returns (ok: bool, ghost m': Counts, ghost up': Parents)
    requires Holds(all, m, up) && Ranked(m, up) && Ledger(m, up, owned) && Listed(list, all) && Targets(op, all)
    modifies all`count, all`enabled, all`current
    ensures Holds(all, m', up') && Ranked(m', up') && Ledger(m', up', After(owned, op, ok, list))
    ensures op.Release? ==> op.c in owned && ok == (owned[op.c] > 0)
    ensures op.Acquire? && (old(op.c.count) > 0 || Dependable(all)) ==> ok
  {
    hide Holds, Fed, Ledger, Covered, Slack, Find, Wired, Target, TunedTo, Kept, NoDepends, Offers, Ranked, ChainRuns, Up, Down;
    HoldsRanked(all, m, up);
    LedgerCovered(m, up, owned);
    LedgerKeys(m, up, owned);
    ok, m', up' := false, m, up;
    var rc;
    match op {
      case Acquire(c) =>
        ghost var f;
        rc, m', f := Enable(c, all, m, up);
        EnableLedger(m, m', up, owned, c, rc);
        ok := rc == NoError;
      case Release(c) =>
        ok := owned[c] > 0;
        if ok {
          Disable(c, all, m, up);
          m' := Down(m, up, c);
          HoldsRanked(all, m', up);
          LedgerDown(m, up, owned, c);
        }
      case Tune(c, rate) =>
        rc, m', up' := SetRate(c, rate, all, m, up);
        LedgerKept(m, m', up, up', owned);
        ok := rc == NoError;
      case Setup(id, rate, enable) =>
        rc, m', up' := GetSetEnable(list, id, rate, enable, all, m, up, owned);
        ok := rc == NoError;
    }
  }

  /** The references that clients hold after a run. */
  function AfterAll(owned: Counts, ops: seq<Op>, oks: seq<bool>, list: seq<Lookup>): Counts
    requires |ops| == |oks|
  {
    if ops == [] then owned
    else After(AfterAll(owned, ops[..|ops| - 1], oks[..|oks| - 1], list), ops[|ops| - 1], oks[|oks| - 1], list)
  }

  /** A tree of new clocks is one that a run may start from, with no references held. */
  lemma RunStarts(all: set<Clk>)
    requires forall c :: c in all ==> Wired(c, all) && c.count == 0 && c.current == -1
    ensures var m, up := CountsOf(all), ParentsOf(all);
      Holds(all, m, up) && Ranked(m, up) && Ledger(m, up, m)
  {
    LedgerStarts(CountsOf(all), ParentsOf(all));
    hide Ledger;
  }

  /** In every reachable state each count covers the references of clients and one for each
      running child, so whatever a client holds runs, with all of its parents. */
  method Run(ops: seq<Op>, list: seq<Lookup>, ghost all: set<Clk>, ghost m: Counts, ghost up: Parents, start: Counts)
    returns (oks: seq<bool>, ghost m': Counts, ghost up': Parents, owned: Counts)
    requires Holds(all, m, up) && Ranked(m, up) && Ledger(m, up, start) && Listed(list, all)
    requires forall i :: 0 <= i < |ops| ==> Targets(ops[i], all)
    modifies all`count, all`enabled, all`current
    ensures Holds(all, m', up') && Ranked(m', up') && owned.Keys == m'.Keys == up'.Keys
    ensures |oks| == |ops| && owned == AfterAll(start, ops, oks, list)
    ensures forall c :: c in m' ==> m'[c] >= owned[c] + |Kids(m', up', c)|
    ensures forall c :: c in m' && m'[c] > 0 ==> ChainRuns(m', up', c)
    ensures Fed(all) && forall c :: c in owned && owned[c] > 0 ==> c in all && c.count > 0
  {
    hide Holds, Fed, Ledger, Covered, Slack, Find, Wired, Ranked, ChainRuns, Up, Down, After, Targets, Kids;
    HoldsRanked(all, m, up);
    oks, m', up', owned := [], m, up, start;
    for i := 0 to |ops|
      invariant Holds(all, m', up') && Ranked(m', up') && m'.Keys == up'.Keys && Ledger(m', up', owned)
      invariant |oks| == i && owned == AfterAll(start, ops[..i], oks, list)
    {
      var ok;
      ok, m', up' := Step(ops[i], list, all, m', up', owned);
      HoldsRanked(all, m', up');
      assert ops[..i + 1][..i] == ops[..i];
      assert (oks + [ok])[..i] == oks;
      owned := After(owned, ops[i], ok, list);
      oks := oks + [ok];
    }
    assert ops[..|ops|] == ops;
    RunEnds(all, m', up', owned);
  }

  /** What the ledger says of the objects. */
  lemma RunEnds(all: set<Clk>, m: Counts, up: Parents, owned: Counts)
    requires Holds(all, m, up) && Ranked(m, up) && m.Keys == up.Keys && Ledger(m, up, owned)
    ensures owned.Keys == m.Keys && Fed(all)
    ensures forall c :: c in m ==> m[c] >= owned[c] + |Kids(m, up, c)|
    ensures forall c :: c in m && m[c] > 0 ==> ChainRuns(m, up, c)
    ensures forall c :: c in owned && owned[c] > 0 ==> c in all && c.count > 0
  {
    hide Holds, Fed, Ledger, Ranked, ChainRuns, Kids;
    HoldsRanked(all, m, up);
    LedgerKeys(m, up, owned);
    LedgerCovered(m, up, owned);
    HoldsFed(all, m, up);
    forall c | c in m
      ensures m[c] >= owned[c] + |Kids(m, up, c)|
      ensures m[c] > 0 ==> ChainRuns(m, up, c)
      ensures c in all && m[c] == c.count
    {
      LedgerRuns(m, up, owned, c);
      HoldsIs(all, m, up, c);
    }
  }
}
