/**
  Closed loops that return more than they consumed (internal/graph/arbitrage.go):
  what every reported cycle guarantees, which are reported, and why a market at
  one consistent price has none.
 */
module Arbitrage {
  import opened Arith
  import opened Common
  import opened Dex
  import opened Text
  import opened Snapshots
  import opened Relaxation
  import opened Routing
  import Sorting

  datatype Cycle = Cycle(
    tokens: seq<string>,
    symbols: seq<string>,
    pools: seq<string>,
    amountIn: int,
    amountOut: int,
    profitBps: int)

  // ----- string order and cycle keys -----

  /** Lexicographic order on strings. */
  predicate StringLeq(a: string, b: string) {
    if a == [] then true
    else if b == [] then false
    else a[0] < b[0] || (a[0] == b[0] && StringLeq(a[1..], b[1..]))
  }

  lemma {:induction false} StringTotal(a: string, b: string)
    ensures StringLeq(a, b) || StringLeq(b, a)
    ensures StringLeq(a, b) && StringLeq(b, a) ==> a == b
  {
    if a != [] && b != [] {
      StringTotal(a[1..], b[1..]);
      assert a == [a[0]] + a[1..] && b == [b[0]] + b[1..];
    }
  }

  lemma {:induction false} StringTransitive(a: string, b: string, c: string)
    requires StringLeq(a, b) && StringLeq(b, c)
    ensures StringLeq(a, c)
  {
    if a != [] && a[0] == b[0] && b[0] == c[0] {
      StringTransitive(a[1..], b[1..], c[1..]);
    }
  }

  /** The order is lexicographic: a prefix comes first, otherwise the first difference decides. */
  lemma {:induction false} StringLeqIff(a: string, b: string)
    ensures StringLeq(a, b) <==> a <= b || exists i: nat :: FirstLess(a, b, i)
  {
    if a != [] && b != [] {
      var (x, y) := (a[1..], b[1..]);
      StringLeqIff(x, y);
      assert a == [a[0]] + x && b == [b[0]] + y;
      if StringLeq(a, b) {
        if a[0] < b[0] {
          assert FirstLess(a, b, 0);
        } else if exists i: nat :: FirstLess(x, y, i) {
          var i: nat :| FirstLess(x, y, i);
          assert a[..i + 1] == [a[0]] + x[..i] && b[..i + 1] == [b[0]] + y[..i];
          assert FirstLess(a, b, i + 1);
        }
      }
      if exists i: nat :: FirstLess(a, b, i) {
        var i: nat :| FirstLess(a, b, i);
        if i > 0 {
          assert a[..i][0] == b[..i][0] && a[..i][1..] == x[..i - 1] && b[..i][1..] == y[..i - 1];
          assert FirstLess(x, y, i - 1);
        }
      }
    } else if a != [] && exists i: nat :: FirstLess(a, b, i) {
      assert false;
    }
  }

  predicate FirstLess(a: string, b: string, i: nat) {
    i < |a| && i < |b| && a[..i] == b[..i] && a[i] < b[i]
  }

  lemma StringOrder()
    ensures Sorting.TotalOrder(StringLeq)
  {
    forall a, b
      ensures StringLeq(a, b) || StringLeq(b, a)
    {
      StringTotal(a, b);
    }
    forall a, b, c | StringLeq(a, b) && StringLeq(b, c)
      ensures StringLeq(a, c)
    {
      StringTransitive(a, b, c);
    }
  }

  function Join(parts: seq<string>): string {
    if parts == [] then ""
    else if |parts| == 1 then parts[0]
    else parts[0] + "|" + Join(parts[1..])
  }

  function LowerAll(pools: seq<string>): (r: seq<string>)
    ensures |r| == |pools|
  {
    seq(|pools|, i requires 0 <= i < |pools| => ToLower(pools[i]))
  }

  /** `cycleKey`: the loop's pool set, whatever token it was entered at. */
  function CycleKey(pools: seq<string>): string {
    Join(Sorting.Sort(StringLeq, LowerAll(pools)))
  }

  /** Two loops over the same pools have the same key. */
  lemma SamePoolsSameKey(a: seq<string>, b: seq<string>)
    requires multiset(LowerAll(a)) == multiset(LowerAll(b))
    ensures CycleKey(a) == CycleKey(b)
  {
    StringOrder();
    var (x, y) := (Sorting.Sort(StringLeq, LowerAll(a)), Sorting.Sort(StringLeq, LowerAll(b)));
    Sorting.SortPermutes(StringLeq, LowerAll(a));
    Sorting.SortPermutes(StringLeq, LowerAll(b));
    Sorting.SortOrders(StringLeq, LowerAll(a));
    Sorting.SortOrders(StringLeq, LowerAll(b));
    forall i, j | 0 <= i < |x| && 0 <= j < |x| && StringLeq(x[i], x[j]) && StringLeq(x[j], x[i])
      ensures x[i] == x[j]
    {
      StringTotal(x[i], x[j]);
    }
    Sorting.OrderUnique(StringLeq, x, y);
  }

  predicate NoBar(s: string) {
    '|' !in s
  }

  lemma BarInJoin(parts: seq<string>)
    requires |parts| >= 2
    ensures !NoBar(Join(parts))
  {
    assert Join(parts)[|parts[0]|] == '|';
  }

  lemma SplitUnique(x: string, u: string, y: string, v: string)
    requires NoBar(x) && NoBar(y) && x + "|" + u == y + "|" + v
    ensures x == y && u == v
  {
    var s := x + "|" + u;
    assert s[|x|] == '|' && s[|y|] == '|';
    assert forall i :: 0 <= i < |x| ==> s[i] == x[i];
    assert forall i :: 0 <= i < |y| ==> s[i] == y[i];
    assert |x| == |y|;
    assert x == s[..|x|] && y == s[..|y|];
    assert u == s[|x| + 1..] && v == s[|y| + 1..];
  }

  /** Without a bar inside the parts, the joined string determines them. */
  lemma {:induction false} JoinInjective(a: seq<string>, b: seq<string>)
    requires a != [] && b != [] && Join(a) == Join(b)
    requires forall p <- a :: NoBar(p)
    requires forall p <- b :: NoBar(p)
    ensures a == b
  {
    assert a[0] in a && b[0] in b;
    if |a| >= 2 {
      BarInJoin(a);
    }
    if |b| >= 2 {
      BarInJoin(b);
    }
    if |a| >= 2 {
      SplitUnique(a[0], Join(a[1..]), b[0], Join(b[1..]));
      JoinInjective(a[1..], b[1..]);
      assert a == [a[0]] + a[1..] && b == [b[0]] + b[1..];
    }
  }

  /** Loops over different pools are never merged, for addresses without a bar. */
  lemma SameKeySamePools(a: seq<string>, b: seq<string>)
    requires a != [] && b != [] && CycleKey(a) == CycleKey(b)
    requires forall p <- LowerAll(a) + LowerAll(b) :: NoBar(p)
    ensures multiset(LowerAll(a)) == multiset(LowerAll(b))
  {
    var (x, y) := (Sorting.Sort(StringLeq, LowerAll(a)), Sorting.Sort(StringLeq, LowerAll(b)));
    Sorting.SortPermutes(StringLeq, LowerAll(a));
    Sorting.SortPermutes(StringLeq, LowerAll(b));
    assert forall p <- x :: p in multiset(x);
    assert forall p <- y :: p in multiset(y);
    JoinInjective(x, y);
  }

  // ----- cycles read off a closed-loop table -----

  function LoopQuery(g: Graph, src: nat, amount: int): Query {
    Query(g, src, amount, ClosedLoops)
  }

  /** Round k returns to the start with more than was sold. */
  predicate Profitable(q: Query, m: nat, k: nat)
    requires q.Valid()
  {
    2 <= k <= m && Rounds(q, m)[k][q.src].Some? && Rounds(q, m)[k][q.src].value.amount > q.amountIn
  }

  function ProfitBps(amountIn: int, amountOut: int): int
    requires amountIn > 0
  {
    var gain := (amountOut - amountIn) * BPS_SCALE / amountIn;
    if gain > MAX_INT64 then MAX_INT64 else gain
  }

  /** `buildCycle`. */
  function CycleOf(hops: seq<Hop>, amountIn: int, amountOut: int): Cycle
    requires |hops| > 0 && amountIn > 0
  {
    Cycle(
      [hops[0].tokenIn] + seq(|hops|, i requires 0 <= i < |hops| => hops[i].tokenOut),
      [hops[0].tokenInSymbol] + seq(|hops|, i requires 0 <= i < |hops| => hops[i].tokenOutSymbol),
      seq(|hops|, i requires 0 <= i < |hops| => hops[i].poolAddress),
      amountIn, amountOut, ProfitBps(amountIn, amountOut))
  }

  function LoopCycle(q: Query, m: nat, k: nat): Cycle
    requires q.Valid() && Profitable(q, m, k)
  {
    RoundsLinked(q, m);
    CycleOf(Hops(q.g, Rounds(q, m), k, q.src), q.amountIn, Rounds(q, m)[k][q.src].value.amount)
  }

  /**
    The loop leaves and re-enters the starting token along edges of the graph, and
    selling hop by hop through the listed pools turns AmountIn into AmountOut.
   */
  ghost predicate Closes(g: Graph, c: Cycle, src: nat, path: seq<EdgeRef>, tokens: seq<nat>) {
    && |path| >= 2 && Follows(g, path, tokens) && tokens[0] == src == tokens[|path|]
    && |c.tokens| == |path| + 1 && |c.symbols| == |path| + 1 && |c.pools| == |path|
    && (forall i :: 0 <= i < |tokens| ==>
          && tokens[i] < |g.tokens|
          && c.tokens[i] == g.tokens[tokens[i]].address && c.symbols[i] == g.tokens[tokens[i]].symbol)
    && (forall i :: 0 <= i < |path| ==> c.pools[i] == g.pools[path[i].pool].address)
    && Replay(g, c.amountIn, path) == Ok(c.amountOut)
  }

  /** The profit is the gain in basis points, rounded down, unless it exceeds an int64. */
  lemma ProfitIs(amountIn: int, amountOut: int)
    requires 0 < amountIn < amountOut
    ensures var bps := ProfitBps(amountIn, amountOut);
      && bps * amountIn <= (amountOut - amountIn) * 10000
      && (bps < 0x7fff_ffff_ffff_ffff ==> (amountOut - amountIn) * 10000 < (bps + 1) * amountIn)
      && 0 <= bps <= 0x7fff_ffff_ffff_ffff
  {
    var gain: nat := (amountOut - amountIn) * 10000;
    var (q, bps) := (gain / amountIn, ProfitBps(amountIn, amountOut));
    FloorBounds(gain, amountIn);
    assert bps == if q > 0x7fff_ffff_ffff_ffff then 0x7fff_ffff_ffff_ffff else q;
    MulLe(bps, q, amountIn);
  }

  /** Every cycle read off the table closes, replays at a gain and has non-negative profit. */
  lemma LoopCloses(q: Query, m: nat, k: nat)
    requires q.Valid() && Profitable(q, m, k)
    ensures var c := LoopCycle(q, m, k);
      && c.amountIn == q.amountIn && c.amountOut > c.amountIn && c.profitBps >= 0
      && c.profitBps == ProfitBps(c.amountIn, c.amountOut)
      && Closes(q.g, c, q.src, Path(Rounds(q, m), k, q.src), Chain(Rounds(q, m), k, q.src))
  {
    RoundsLinked(q, m);
    PathFollows(q, m, k, q.src);
    HopsPrice(q, m, k, q.src);
    ProfitIs(q.amountIn, Rounds(q, m)[k][q.src].value.amount);
    var (path, hops) := (Path(Rounds(q, m), k, q.src), Hops(q.g, Rounds(q, m), k, q.src));
    CycleTokens(q.g, hops, path, Chain(Rounds(q, m), k, q.src), q.amountIn, Rounds(q, m)[k][q.src].value.amount);
  }

  lemma CycleTokens(g: Graph, hops: seq<Hop>, path: seq<EdgeRef>, tokens: seq<nat>, amountIn: int, amountOut: int)
    requires |path| > 0 && amountIn > 0 && Follows(g, path, tokens) && Prices(g, hops, path, amountIn, amountOut)
    ensures var c := CycleOf(hops, amountIn, amountOut);
      && |c.tokens| == |c.symbols| == |tokens| && |c.pools| == |path|
      && (forall i :: 0 <= i < |tokens| ==>
            && tokens[i] < |g.tokens|
            && c.tokens[i] == g.tokens[tokens[i]].address && c.symbols[i] == g.tokens[tokens[i]].symbol)
      && (forall i :: 0 <= i < |path| ==> c.pools[i] == g.pools[path[i].pool].address)
  {
    var c := CycleOf(hops, amountIn, amountOut);
    forall i | 0 <= i < |tokens|
      ensures tokens[i] < |g.tokens|
      ensures c.tokens[i] == g.tokens[tokens[i]].address && c.symbols[i] == g.tokens[tokens[i]].symbol
    {
      if i == 0 {
        assert PricesHop(g, hops[0], path[0]);
      } else {
        assert PricesHop(g, hops[i - 1], path[i - 1]);
        assert path[i - 1].to == tokens[i - 1 + 1];
      }
    }
    forall i | 0 <= i < |path|
      ensures c.pools[i] == g.pools[path[i].pool].address
    {
      assert PricesHop(g, hops[i], path[i]);
    }
  }

  // ----- short cycles are simple -----

  /** No pool pairs a token with itself. */
  ghost predicate NoSelfEdges(g: Graph) {
    forall e: EdgeRef :: EdgeOf(g, e) ==> e.from != e.to
  }

  predicate TwoTokens(p: Pool) {
    Normalize(p.token0.address) != Normalize(p.token1.address)
  }

  /** In a built graph no edge loops back exactly when every pool's two normalised addresses differ. */
  lemma SelfEdgesIff(g: Graph, index: map<string, nat>)
    requires WellFormed(g) && Indexed(g.tokens, index) && Complete(g.pools, index, g.adj)
    ensures NoSelfEdges(g) <==> forall p <- g.pools :: TwoTokens(p)
  {
    if forall p <- g.pools :: TwoTokens(p) {
      forall e: EdgeRef | EdgeOf(g, e)
        ensures e.from != e.to
      {
        ScanIsEdges(g, e);
        assert g.pools[e.pool] in g.pools;
      }
    }
    if NoSelfEdges(g) {
      forall k | 0 <= k < |g.pools|
        ensures TwoTokens(g.pools[k])
      {
        assert BothEdges(g.pools[k], index, g.adj, k);
        var (k0, k1) := (Normalize(g.pools[k].token0.address), Normalize(g.pools[k].token1.address));
        var (a, b) := (index[k0], index[k1]);
        assert EdgeRef(k, a, b) in multiset(g.adj[a]);
        assert EdgeOf(g, EdgeRef(k, a, b));
      }
    }
  }

  /** `usable` compares addresses untrimmed: a pool of one token with itself can slip through. */
  lemma BlankSlipsThrough(p: Pool, a: string, blank: char)
    requires p.protocol.SushiswapV2? && Positive(p.reserve0) && Positive(p.reserve1)
    requires a != "" && !Blank(a[0]) && !Blank(a[|a| - 1]) && Blank(blank)
    requires p.token0.address == a && p.token1.address == a + [blank]
    ensures Usable(p) && !TwoTokens(p)
  {
    var padded := a + [blank];
    assert padded[..|padded| - 1] == a;
    assert TrimSpace(padded) == TrimSpace(a) == a;
    assert |ToLower(a)| != |ToLower(padded)|;
  }

  /** It cannot when neither address carries surrounding blanks. */
  lemma TrimmedTwoTokens(p: Pool)
    requires Usable(p)
    requires TrimSpace(p.token0.address) == p.token0.address && TrimSpace(p.token1.address) == p.token1.address
    ensures TwoTokens(p)
  {
  }

  /** An edge sells token0 exactly when it leaves the pool's token0. */
  lemma EdgeDirection(g: Graph, e: EdgeRef)
    requires Joins(g.tokens, g.pools, e)
    ensures var p := g.pools[e.pool];
      Direction(p, g.tokens[e.from].address) == Ok(Key(g.tokens, e.from) == Normalize(p.token0.address))
  {
  }

  /** Selling through a pool and straight back never profits. */
  lemma EdgeThereAndBack(g: Graph, e: EdgeRef, f: EdgeRef, amount: int, mid: int, out: int)
    requires WellFormed(g) && Joins(g.tokens, g.pools, e) && Joins(g.tokens, g.pools, f)
    requires e.pool == f.pool && e.from != e.to && f.from == e.to && f.to == e.from && Sound(g.pools[e.pool])
    requires EdgeQuote(g, e, amount) == Ok(mid) && EdgeQuote(g, f, mid) == Ok(out)
    ensures out <= amount
  {
    EdgeDirection(g, e);
    EdgeDirection(g, f);
    assert Key(g.tokens, e.from) != Key(g.tokens, e.to) by {
      if e.from < e.to {
        assert Key(g.tokens, e.from) != Key(g.tokens, e.to);
      } else {
        assert Key(g.tokens, e.to) != Key(g.tokens, e.from);
      }
    }
    ThereAndBack(g.pools[e.pool], amount, g.tokens[e.from].address, g.tokens[f.from].address);
  }

  lemma ReplayLast(g: Graph, path: seq<EdgeRef>, amount: int, out: int)
    requires |path| > 0 && forall e <- path :: Joins(g.tokens, g.pools, e)
    requires Replay(g, amount, path) == Ok(out)
    ensures var front := path[..|path| - 1];
      Replay(g, amount, front).Ok? && EdgeQuote(g, path[|path| - 1], Replay(g, amount, front).value) == Ok(out)
  {
  }

  lemma ReplayTwo(g: Graph, path: seq<EdgeRef>, amount: int, out: int)
    requires |path| == 2 && forall e <- path :: Joins(g.tokens, g.pools, e)
    requires Replay(g, amount, path) == Ok(out)
    ensures EdgeQuote(g, path[0], amount).Ok? && EdgeQuote(g, path[1], EdgeQuote(g, path[0], amount).value) == Ok(out)
  {
    var front := path[..|path| - 1];
    ReplayLast(g, path, amount, out);
    ReplayLast(g, front, amount, Replay(g, amount, front).value);
    assert front[..|front| - 1] == [];
  }

  /** Two-hop loop: the two pools differ, or it would be a there-and-back trip. */
  lemma TwoHopPools(g: Graph, path: seq<EdgeRef>, tokens: seq<nat>, amount: int, out: int)
    requires WellFormed(g) && NoSelfEdges(g) && forall p <- g.pools :: Sound(p)
    requires |path| == 2 && Follows(g, path, tokens) && tokens[0] == tokens[2]
    requires Replay(g, amount, path) == Ok(out) && out > amount
    ensures path[0].pool != path[1].pool
  {
    var (e, f) := (path[0], path[1]);
    if e.pool == f.pool {
      ReplayTwo(g, path, amount, out);
      assert g.pools[e.pool] in g.pools;
      EdgeThereAndBack(g, e, f, amount, EdgeQuote(g, e, amount).value, out);
      assert false;
    }
  }

  /** Three-hop loop through three tokens: three different pairs, so three different pools. */
  lemma ThreeHopPools(g: Graph, path: seq<EdgeRef>, tokens: seq<nat>)
    requires WellFormed(g) && |path| == 3 && Follows(g, path, tokens) && tokens[0] == tokens[3]
    requires tokens[0] != tokens[1] && tokens[1] != tokens[2] && tokens[2] != tokens[0]
    ensures path[0].pool != path[1].pool && path[0].pool != path[2].pool && path[1].pool != path[2].pool
  {
    if path[0].pool == path[1].pool {
      SamePoolSameTokens(g, path[0], path[1]);
      assert false;
    }
    if path[0].pool == path[2].pool {
      SamePoolSameTokens(g, path[0], path[2]);
      assert false;
    }
    if path[1].pool == path[2].pool {
      SamePoolSameTokens(g, path[1], path[2]);
      assert false;
    }
  }

  /** With at most three hops a reported loop meets no token twice, except the start, and no pool twice. */
  lemma ShortLoopsSimple(q: Query, m: nat, k: nat)
    requires q.Valid() && Profitable(q, m, k) && k <= 3
    requires NoSelfEdges(q.g) && forall p <- q.g.pools :: Sound(p)
    ensures var (path, tokens) := (Path(Rounds(q, m), k, q.src), Chain(Rounds(q, m), k, q.src));
      && |path| == k && |tokens| == k + 1 && Distinct(tokens[..k])
      && (forall i, j :: 0 <= i < j < k ==> path[i].pool != path[j].pool)
  {
    PathFollows(q, m, k, q.src);
    var (path, tokens) := (Path(Rounds(q, m), k, q.src), Chain(Rounds(q, m), k, q.src));
    assert EdgeOf(q.g, path[0]) && EdgeOf(q.g, path[1]);
    if k == 2 {
      TwoHopPools(q.g, path, tokens, q.amountIn, Rounds(q, m)[k][q.src].value.amount);
    } else {
      assert EdgeOf(q.g, path[2]);
      ThreeHopPools(q.g, path, tokens);
    }
  }

  // ----- a market at one price has no arbitrage -----

  /** One price per token matches every pool's marginal rate. */
  ghost predicate Market(g: Graph, prices: seq<int>) {
    && |prices| == |g.tokens|
    && (forall i :: 0 <= i < |prices| ==> prices[i] > 0)
    && (forall p <- g.pools :: Sound(p))
    && forall e: EdgeRef :: EdgeOf(g, e) && Joins(g.tokens, g.pools, e) ==> RatedAt(g, e, prices)
  }

  /** The edge's pool is priced at its two tokens' prices. */
  predicate RatedAt(g: Graph, e: EdgeRef, prices: seq<int>)
    requires |prices| == |g.tokens| && Joins(g.tokens, g.pools, e)
  {
    var p := g.pools[e.pool];
    if Key(g.tokens, e.from) == Normalize(p.token0.address) then PricedAt(p, prices[e.from], prices[e.to])
    else PricedAt(p, prices[e.to], prices[e.from])
  }

  lemma EdgeLosesValue(g: Graph, prices: seq<int>, e: EdgeRef, amount: int, out: int)
    requires Market(g, prices) && EdgeOf(g, e) && Joins(g.tokens, g.pools, e) && EdgeQuote(g, e, amount) == Ok(out)
    ensures out * prices[e.to] <= amount * prices[e.from]
  {
    assert RatedAt(g, e, prices);
    EdgeDirection(g, e);
    var p := g.pools[e.pool];
    assert p in g.pools;
    if Key(g.tokens, e.from) == Normalize(p.token0.address) {
      QuoteLosesValue(p, amount, g.tokens[e.from].address, prices[e.from], prices[e.to]);
    } else {
      QuoteLosesValue(p, amount, g.tokens[e.from].address, prices[e.to], prices[e.from]);
    }
  }

  /** Along every chain of the table, in either mode, value only shrinks. */
  lemma {:induction false} TableLosesValue(q: Query, m: nat, k: nat, j: nat, prices: seq<int>)
    requires q.Valid() && Market(q.g, prices) && k <= m && j < q.N() && Rounds(q, m)[k][j].Some?
    ensures Rounds(q, m)[k][j].value.amount * prices[j] <= q.amountIn * prices[q.src]
    decreases k
  {
    FirstRoundSeen(q, m, j);
    if k > 0 {
      CellJustified(q, m, k, j);
      var c := Rounds(q, m)[k][j].value;
      TableLosesValue(q, m, k - 1, c.edge.from, prices);
      EdgeLosesValue(q.g, prices, c.edge, Rounds(q, m)[k - 1][c.edge.from].value.amount, c.amount);
    }
  }

  /** So no loop of any length returns more than it consumed. */
  lemma MarketHasNoLoops(q: Query, m: nat, k: nat, prices: seq<int>)
    requires q.Valid() && Market(q.g, prices)
    ensures !Profitable(q, m, k)
  {
    if Profitable(q, m, k) {
      TableLosesValue(q, m, k, q.src, prices);
      CancelLe(Rounds(q, m)[k][q.src].value.amount, q.amountIn, prices[q.src]);
      assert false;
    }
  }

  /** Conversely, a profitable loop through two pools is found, if the second stays quotable. */
  lemma TwoHopLoopFound(q: Query, m: nat, e: EdgeRef, f: EdgeRef, mid: int, out: int)
    requires q.Valid() && q.mode.ClosedLoops? && m >= 2 && EdgeOf(q.g, e) && EdgeOf(q.g, f)
    requires Joins(q.g.tokens, q.g.pools, e) && Joins(q.g.tokens, q.g.pools, f)
    requires e.from == q.src == f.to && e.to == f.from && e.to != q.src
    requires EdgeQuote(q.g, e, q.amountIn) == Ok(mid) && EdgeQuote(q.g, f, mid) == Ok(out) && out > q.amountIn
    requires Rounds(q, m)[1][e.to].Some? ==> QuotesMore(q.g, f, Rounds(q, m)[1][e.to].value.amount)
    ensures Profitable(q, m, 2) && Rounds(q, m)[2][q.src].value.amount >= out
  {
    QuotePositiveInput(q.g.pools[f.pool], mid, q.g.tokens[f.from].address);
    OneHop(q, m, e, mid);
    var x := Rounds(q, m)[1][e.to].value.amount;
    QuoteGrows(q.g, f, mid, x, out);
    CellDominates(q, m, 2, f, EdgeQuote(q.g, f, x).value);
  }
}
