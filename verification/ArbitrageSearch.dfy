/** `FindArbitrage` of internal/graph/arbitrage.go: probing, deduplicating and ranking the loops. */
module ArbitrageSearch {
  import opened Common
  import opened Amm
  import opened Dex
  import opened Snapshots
  import opened Relaxation
  import opened Routing
  import opened Router
  import opened Arbitrage
  import Sorting

  // ----- what is reported -----

  /** The probed amounts, nil entries left out. */
  ghost function Amounts(probe: map<string, BigInt?>): map<string, int>
    reads set a | a in probe && probe[a] != null :: probe[a]
  {
    map a | a in probe && probe[a] != null :: probe[a].v
  }

  /** The search started at probe token `a`. */
  ghost predicate Probed(g: Graph, amounts: map<string, int>, a: string) {
    a in amounts && amounts[a] > 0 && FindToken(g.tokens, Normalize(a)).Some?
  }

  ghost function ProbeQuery(g: Graph, amounts: map<string, int>, a: string): (q: Query)
    requires WellFormed(g) && Probed(g, amounts, a)
    ensures q.Valid() && q.mode.ClosedLoops? && q.g == g && q.amountIn == amounts[a]
    ensures Key(g.tokens, q.src) == Normalize(a)
  {
    LoopQuery(g, FindToken(g.tokens, Normalize(a)).value, amounts[a])
  }

  /** `c` is the loop that probe `a` closes with a profit after k hops. */
  ghost predicate Reports(g: Graph, amounts: map<string, int>, m: nat, a: string, k: nat, c: Cycle)
    requires WellFormed(g)
  {
    Probed(g, amounts, a)
    && var q := ProbeQuery(g, amounts, a); Profitable(q, m, k) && c == LoopCycle(q, m, k)
  }

  ghost predicate Reported(g: Graph, amounts: map<string, int>, m: nat, c: Cycle)
    requires WellFormed(g)
  {
    exists a, k :: Reports(g, amounts, m, a, k, c)
  }

  ghost predicate HasKey(found: seq<Cycle>, key: string) {
    exists c <- found :: CycleKey(c.pools) == key
  }

  /** A profitable loop of probe `a` after k hops is represented by its pool set. */
  ghost predicate Covered(g: Graph, amounts: map<string, int>, m: nat, a: string, k: nat, found: seq<Cycle>)
    requires WellFormed(g)
  {
    Probed(g, amounts, a) && 2 <= k <= m ==>
      var q := ProbeQuery(g, amounts, a);
      var cell := Rounds(q, m)[k][q.src];
      cell.Some? && cell.value.amount > amounts[a] ==> HasKey(found, CycleKey(LoopCycle(q, m, k).pools))
  }

  ghost predicate DistinctKeys(found: seq<Cycle>) {
    forall i, j :: 0 <= i < j < |found| ==> CycleKey(found[i].pools) != CycleKey(found[j].pools)
  }

  /** The running state of the search: `seen` holds the keys of `found`, all reported, none twice. */
  ghost predicate Collected(g: Graph, amounts: map<string, int>, m: nat, found: seq<Cycle>, seen: set<string>)
    requires WellFormed(g)
  {
    && DistinctKeys(found)
    && (forall key :: key in seen <==> HasKey(found, key))
    && (forall c <- found :: Reported(g, amounts, m, c))
  }

  // ----- ranking -----

  /** Higher profit first, equal profit by key. */
  predicate RankLeq(a: Cycle, b: Cycle) {
    a.profitBps > b.profitBps || (a.profitBps == b.profitBps && StringLeq(CycleKey(a.pools), CycleKey(b.pools)))
  }

  lemma RankOrder()
    ensures Sorting.TotalOrder(RankLeq)
  {
    forall a, b
      ensures RankLeq(a, b) || RankLeq(b, a)
    {
      StringTotal(CycleKey(a.pools), CycleKey(b.pools));
    }
    forall a, b, c | RankLeq(a, b) && RankLeq(b, c)
      ensures RankLeq(a, c)
    {
      if a.profitBps == c.profitBps {
        StringTransitive(CycleKey(a.pools), CycleKey(b.pools), CycleKey(c.pools));
      }
    }
  }

  // ----- the search -----

  lemma KeepsCovered(g: Graph, amounts: map<string, int>, m: nat, a: string, k: nat, found: seq<Cycle>, more: seq<Cycle>)
    requires WellFormed(g) && Covered(g, amounts, m, a, k, found) && found <= more
    ensures Covered(g, amounts, m, a, k, more)
  {
    if Probed(g, amounts, a) && Profitable(ProbeQuery(g, amounts, a), m, k) {
      var c :| c in found && CycleKey(c.pools) == CycleKey(LoopCycle(ProbeQuery(g, amounts, a), m, k).pools);
      assert c in more;
    }
  }

  ghost predicate CoveredBelow(g: Graph, amounts: map<string, int>, m: nat, a: string, k: nat, found: seq<Cycle>)
    requires WellFormed(g)
  {
    forall r :: 2 <= r < k ==> Covered(g, amounts, m, a, r, found)
  }

  lemma CoversOneMore(g: Graph, amounts: map<string, int>, m: nat, a: string, k: nat, found: seq<Cycle>, more: seq<Cycle>)
    requires WellFormed(g) && CoveredBelow(g, amounts, m, a, k, found) && found <= more
    requires Covered(g, amounts, m, a, k, more)
    ensures CoveredBelow(g, amounts, m, a, k + 1, more)
  {
    forall r | 2 <= r < k
      ensures Covered(g, amounts, m, a, r, more)
    {
      KeepsCovered(g, amounts, m, a, r, found, more);
    }
  }

  lemma HasKeyAppend(found: seq<Cycle>, c: Cycle, key: string)
    ensures HasKey(found + [c], key) <==> HasKey(found, key) || key == CycleKey(c.pools)
  {
    var more := found + [c];
    assert c in more;
    if HasKey(found, key) {
      var d :| d in found && CycleKey(d.pools) == key;
      assert d in more;
    }
  }

  lemma DistinctKeysAppend(found: seq<Cycle>, c: Cycle)
    requires DistinctKeys(found) && !HasKey(found, CycleKey(c.pools))
    ensures DistinctKeys(found + [c])
  {
    assert forall i :: 0 <= i < |found| ==> found[i] in found;
  }

  lemma CollectOne(g: Graph, amounts: map<string, int>, m: nat, found: seq<Cycle>, seen: set<string>, c: Cycle)
    requires WellFormed(g) && Collected(g, amounts, m, found, seen) && Reported(g, amounts, m, c)
    requires CycleKey(c.pools) !in seen
    ensures Collected(g, amounts, m, found + [c], seen + {CycleKey(c.pools)})
  {
    DistinctKeysAppend(found, c);
    forall key
      ensures key in seen + {CycleKey(c.pools)} <==> HasKey(found + [c], key)
    {
      HasKeyAppend(found, c, key);
    }
  }

  /** `buildCycle`. */
  method BuildCycle(hops: seq<Hop>, amountIn: int, amountOut: int) returns (c: Cycle)
    requires |hops| > 0 && amountIn > 0
    ensures c == CycleOf(hops, amountIn, amountOut)
  {
    var tokens, symbols, pools := [hops[0].tokenIn], [hops[0].tokenInSymbol], [];
    for i := 0 to |hops|
      invariant tokens == [hops[0].tokenIn] + seq(i, j requires 0 <= j < i => hops[j].tokenOut)
      invariant symbols == [hops[0].tokenInSymbol] + seq(i, j requires 0 <= j < i => hops[j].tokenOutSymbol)
      invariant pools == seq(i, j requires 0 <= j < i => hops[j].poolAddress)
    {
      tokens := tokens + [hops[i].tokenOut];
      symbols := symbols + [hops[i].tokenOutSymbol];
      pools := pools + [hops[i].poolAddress];
    }
    var gain := amountOut - amountIn;
    gain := gain * BPS_SCALE;
    gain := gain / amountIn;
    c := Cycle(tokens, symbols, pools, amountIn, amountOut, if gain > MAX_INT64 then MAX_INT64 else gain);
  }

  /** One round of one probe's table: none, or the loop it closes. */
  method LoopAt(q: Query, rows: seq<Row>, m: nat, k: nat) returns (c: Option<Cycle>)
    requires q.Valid() && 2 <= k <= m && |rows| == m + 1
    requires forall r :: 0 <= r <= m ==> Holds(rows[r], Rounds(q, m)[r])
    ensures c.Some? <==> Profitable(q, m, k)
    ensures c.Some? ==> c.value == LoopCycle(q, m, k)
  {
    RoundsLinked(q, m);
    assert Holds(rows[k], Rounds(q, m)[k]);
    if !rows[k].seen[q.src] {
      return None;
    }
    var out := rows[k].amount[q.src].v;
    if out <= q.amountIn {
      return None;
    }
    var hops := Reconstruct(q.g, rows, q.src, k, Rounds(q, m));
    var cycle := BuildCycle(hops, q.amountIn, out);
    return Some(cycle);
  }

  /** Everything one probe token contributes, duplicates by pool set dropped. */
  method CollectProbe(g: Graph, a: string, src: nat, amount: BigInt, m: nat, found: seq<Cycle>, seen: set<string>,
                      ghost amounts: map<string, int>)
    returns (more: seq<Cycle>, keys: set<string>)
    requires WellFormed(g) && Probed(g, amounts, a) && amounts[a] == amount.v
    requires Some(src) == FindToken(g.tokens, Normalize(a)) && m >= 2
    requires Collected(g, amounts, m, found, seen)
    ensures Collected(g, amounts, m, more, keys) && found <= more && CoveredBelow(g, amounts, m, a, m + 1, more)
  {
    var q := LoopQuery(g, src, amount.v);
    assert q == ProbeQuery(g, amounts, a);
    var rows := Relax(q, amount, m);
    more, keys := found, seen;
    for k := 2 to m + 1
      invariant forall r :: 0 <= r <= m ==> Holds(rows[r], Rounds(q, m)[r])
      invariant Collected(g, amounts, m, more, keys) && found <= more
      invariant CoveredBelow(g, amounts, m, a, k, more)
    {
      ghost var before := more;
      var c := LoopAt(q, rows, m, k);
      more, keys := CollectLoop(g, a, k, m, c, more, keys, amounts, q);
      CoversOneMore(g, amounts, m, a, k, before, more);
    }
  }

  /** One round's loop, if profitable, is added unless its pool set is known. */
  method CollectLoop(g: Graph, ghost a: string, ghost k: nat, ghost m: nat, c: Option<Cycle>,
                     found: seq<Cycle>, seen: set<string>, ghost amounts: map<string, int>, ghost q: Query)
    returns (more: seq<Cycle>, keys: set<string>)
    requires WellFormed(g) && Probed(g, amounts, a) && q == ProbeQuery(g, amounts, a) && 2 <= k <= m
    requires Collected(g, amounts, m, found, seen)
    requires c.Some? <==> Profitable(q, m, k)
    requires c.Some? ==> c.value == LoopCycle(q, m, k)
    ensures Collected(g, amounts, m, more, keys) && found <= more && Covered(g, amounts, m, a, k, more)
  {
    more, keys := found, seen;
    if c.Some? {
      assert Reports(g, amounts, m, a, k, c.value);
      var key := CycleKey(c.value.pools);
      if key !in keys {
        CollectOne(g, amounts, m, more, keys, c.value);
        more := more + [c.value];
        keys := keys + {key};
      }
      assert HasKey(more, key);
    }
  }

  /** All that the caller of `FindArbitrage` is told about the result. */
  ghost predicate Ranked(g: Graph, amounts: map<string, int>, m: nat, found: seq<Cycle>)
    requires WellFormed(g)
  {
    && (forall c <- found :: Reported(g, amounts, m, c))
    && DistinctKeys(found)
    && (forall i, j :: 0 <= i < j < |found| ==>
          && found[i].profitBps >= found[j].profitBps
          && (found[i].profitBps == found[j].profitBps ==>
                StringLeq(CycleKey(found[i].pools), CycleKey(found[j].pools))))
    && (forall a, k :: a in amounts && 2 <= k <= m ==> Covered(g, amounts, m, a, k, found))
  }

  /** Sorting keeps the cycles, their distinct keys and what they cover. */
  lemma RankKeeps(g: Graph, amounts: map<string, int>, m: nat, found: seq<Cycle>, seen: set<string>)
    requires WellFormed(g) && Collected(g, amounts, m, found, seen)
    requires forall a, k :: a in amounts && 2 <= k <= m ==> Covered(g, amounts, m, a, k, found)
    ensures Ranked(g, amounts, m, Sorting.Sort(RankLeq, found))
  {
    var sorted := Sorting.Sort(RankLeq, found);
    RankOrder();
    Sorting.SortPermutes(RankLeq, found);
    Sorting.SortOrders(RankLeq, found);
    assert forall c :: c in sorted <==> c in multiset(sorted);
    assert forall c :: c in found <==> c in multiset(found);
    DistinctKeysPermute(found, sorted);
    forall a, k | a in amounts && 2 <= k <= m
      ensures Covered(g, amounts, m, a, k, sorted)
    {
      assert Covered(g, amounts, m, a, k, found);
    }
  }

  lemma DistinctKeysPermute(found: seq<Cycle>, sorted: seq<Cycle>)
    requires DistinctKeys(found) && multiset(found) == multiset(sorted)
    ensures DistinctKeys(sorted)
  {
    forall i, j | 0 <= i < j < |sorted|
      ensures CycleKey(sorted[i].pools) != CycleKey(sorted[j].pools)
    {
      assert sorted[i] in multiset(found) && sorted[j] in multiset(found);
      var x :| 0 <= x < |found| && found[x] == sorted[i];
      var y :| 0 <= y < |found| && found[y] == sorted[j];
      if x == y {
        TwiceInMultiset(sorted, i, j);
        OnceInMultiset(found, x);
        assert false;
      }
    }
  }

  lemma TwiceInMultiset(s: seq<Cycle>, i: nat, j: nat)
    requires i < j < |s| && s[i] == s[j]
    ensures multiset(s)[s[i]] >= 2
  {
    assert s == s[..i] + [s[i]] + s[i + 1..j] + [s[j]] + s[j + 1..];
  }

  lemma OnceInMultiset(s: seq<Cycle>, x: nat)
    requires DistinctKeys(s) && x < |s|
    ensures multiset(s)[s[x]] == 1
  {
    var (front, back) := (s[..x], s[x + 1..]);
    assert s == front + [s[x]] + back;
    assert s[x] !in front && s[x] !in back by {
      NotElsewhere(s, x);
    }
  }

  lemma NotElsewhere(s: seq<Cycle>, x: nat)
    requires DistinctKeys(s) && x < |s|
    ensures s[x] !in s[..x] && s[x] !in s[x + 1..]
  {
    forall i | 0 <= i < |s| && i != x
      ensures s[i] != s[x]
    {
      if i < x {
        assert CycleKey(s[i].pools) != CycleKey(s[x].pools);
      } else {
        assert CycleKey(s[x].pools) != CycleKey(s[i].pools);
      }
    }
  }

  /** One probe: skipped unless its amount is positive and its token known. */
  method VisitProbe(s: Snapshot, g: Graph, a: string, amount: BigInt?, m: nat, found: seq<Cycle>, seen: set<string>,
                    ghost amounts: map<string, int>)
    returns (more: seq<Cycle>, keys: set<string>)
    requires s.Valid() && g == s.View() && WellFormed(g) && m >= 2
    requires if amount == null then a !in amounts else a in amounts && amounts[a] == amount.v
    requires Collected(g, amounts, m, found, seen)
    ensures Collected(g, amounts, m, more, keys) && found <= more && CoveredBelow(g, amounts, m, a, m + 1, more)
  {
    more, keys := found, seen;
    if amount == null || amount.v <= 0 {
      return;
    }
    var src := s.TokenIndex(a);
    SameIndex(g.tokens, src, Normalize(a));
    if src.None? {
      return;
    }
    more, keys := CollectProbe(g, a, src.value, amount, m, found, seen, amounts);
  }

  /**
    `FindArbitrage`: whatever order the probes are visited in, the result holds
    only profitable loops, each pool set once, best first, and every profitable
    loop of every probe is represented.
   */
  method FindArbitrage(s: Snapshot?, probe: map<string, BigInt?>, maxHops: int) returns (found: seq<Cycle>)
    requires s != null ==> s.Valid()
    ensures s == null || maxHops < 2 ==> found == []
    ensures s != null && maxHops >= 2 ==>
      WellFormed(s.View()) && Ranked(s.View(), Amounts(probe), maxHops, found)
  {
    if s == null {
      return [];
    }
    IndexedDistinct(s.tokens, s.index);
    if |probe| == 0 || maxHops < 2 {
      return [];
    }
    var g := s.View();
    ghost var amounts := Amounts(probe);
    found := [];
    var seen: set<string> := {};
    var todo := probe.Keys;
    while todo != {}
      invariant todo <= probe.Keys
      invariant Collected(g, amounts, maxHops, found, seen)
      invariant forall a, k :: a in amounts && a !in todo && 2 <= k <= maxHops ==>
        Covered(g, amounts, maxHops, a, k, found)
      decreases |todo|
    {
      var a :| a in todo;
      todo := todo - {a};
      ghost var before := found;
      found, seen := VisitProbe(s, g, a, probe[a], maxHops, found, seen, amounts);
      forall b, k | b in amounts && b !in todo && 2 <= k <= maxHops
        ensures Covered(g, amounts, maxHops, b, k, found)
      {
        if b != a {
          KeepsCovered(g, amounts, maxHops, b, k, before, found);
        }
      }
    }
    RankKeeps(g, amounts, maxHops, found, seen);
    found := Sorting.Sort(RankLeq, found);
  }

  /** In a market at one price the search comes back empty, for any probes and any hop budget. */
  lemma MarketHasNoArbitrage(g: Graph, amounts: map<string, int>, m: nat, found: seq<Cycle>, prices: seq<int>)
    requires WellFormed(g) && Market(g, prices) && Ranked(g, amounts, m, found)
    ensures found == []
  {
    if found != [] {
      var c := found[0];
      assert Reported(g, amounts, m, c);
      var a, k :| Reports(g, amounts, m, a, k, c);
      MarketHasNoLoops(ProbeQuery(g, amounts, a), m, k, prices);
      assert false;
    }
  }

  /** Every reported cycle closes at its probe token and replays to a gain; short ones are simple. */
  lemma ReportedCloses(g: Graph, amounts: map<string, int>, m: nat, a: string, k: nat, c: Cycle)
    requires WellFormed(g) && Reports(g, amounts, m, a, k, c)
    ensures c.amountIn == amounts[a] && c.amountOut > c.amountIn && c.profitBps >= 0
    ensures var q := ProbeQuery(g, amounts, a);
      var (path, tokens) := (Path(Rounds(q, m), k, q.src), Chain(Rounds(q, m), k, q.src));
      && Key(g.tokens, q.src) == Normalize(a)
      && Closes(g, c, q.src, path, tokens)
      && (k <= 3 && NoSelfEdges(g) && (forall p <- g.pools :: Sound(p)) ==>
            Distinct(tokens[..k]) && forall i, j :: 0 <= i < j < k ==> path[i].pool != path[j].pool)
  {
    var q := ProbeQuery(g, amounts, a);
    LoopCloses(q, m, k);
    if k <= 3 && NoSelfEdges(g) && (forall p <- g.pools :: Sound(p)) {
      ShortLoopsSimple(q, m, k);
    }
  }
}
