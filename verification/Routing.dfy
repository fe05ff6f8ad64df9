/**
  Routes read off the relaxation table (internal/graph/router.go) and the
  theorems about them: executability, optimality over short paths, and what a
  larger hop budget can change.
 */
module Routing {
  import Arith
  import opened Common
  import opened Dex
  import opened Snapshots
  import opened Relaxation

  // ----- reading the table -----

  /** `bestRoundFor`, over rounds 1..k: the first round attaining the largest amount. */
  function BestRound(t: Table, k: nat, token: nat): (b: Option<nat>)
    requires k < |t| && forall r :: 0 <= r < |t| ==> token < |t[r]|
    ensures b.Some? ==> 1 <= b.value <= k && t[b.value][token].Some?
  {
    if k == 0 then None
    else
      var best := BestRound(t, k - 1, token);
      if t[k][token].None? then best
      else if best.None? || t[k][token].value.amount > t[best.value][token].value.amount then Some(k)
      else best
  }

  /** The chosen round is maximal, and ties go to the fewest hops. */
  lemma {:induction false} BestRoundSpec(t: Table, k: nat, token: nat)
    requires k < |t| && forall r :: 0 <= r < |t| ==> token < |t[r]|
    ensures var b := BestRound(t, k, token);
      && (b.None? <==> forall r :: 1 <= r <= k ==> t[r][token].None?)
      && (b.Some? ==> forall r :: 1 <= r <= k && t[r][token].Some? ==>
            && t[r][token].value.amount <= t[b.value][token].value.amount
            && (r < b.value ==> t[r][token].value.amount < t[b.value][token].value.amount))
  {
    if k > 0 {
      BestRoundSpec(t, k - 1, token);
    }
  }

  datatype Hop = Hop(
    poolAddress: string,
    protocol: Protocol,
    feeBps: nat,
    tokenIn: string,
    tokenOut: string,
    tokenInSymbol: string,
    tokenOutSymbol: string,
    amountIn: int,
    amountOut: int)

  datatype Route = Route(hops: seq<Hop>, amountIn: int, amountOut: int, priceImpactBps: int)

  function HopOver(g: Graph, e: EdgeRef, amountIn: int, amountOut: int): Hop
    requires Joins(g.tokens, g.pools, e)
  {
    var p := g.pools[e.pool];
    Hop(p.address, p.protocol, p.feeBps, g.tokens[e.from].address, g.tokens[e.to].address,
        g.tokens[e.from].symbol, g.tokens[e.to].symbol, amountIn, amountOut)
  }

  /** Every seen cell of the table has a seen predecessor along an edge of the graph. */
  predicate Linked(g: Graph, t: Table) {
    && (forall r :: 0 <= r < |t| ==> |t[r]| == |g.tokens|)
    && forall r, j :: 0 < r < |t| && 0 <= j < |g.tokens| && t[r][j].Some? ==>
         var e := t[r][j].value.edge;
         Joins(g.tokens, g.pools, e) && e.to == j && t[r - 1][e.from].Some?
  }

  lemma RoundsLinked(q: Query, m: nat)
    requires q.Valid()
    ensures Linked(q.g, Rounds(q, m))
  {
    forall r, j | 0 < r < |Rounds(q, m)| && 0 <= j < q.N() && Rounds(q, m)[r][j].Some?
      ensures Justified(q, Rounds(q, m), r, j)
    {
      CellJustified(q, m, r, j);
    }
  }

  /** `reconstruct`: the hops along the predecessor chain. */
  function Hops(g: Graph, t: Table, k: nat, token: nat): (h: seq<Hop>)
    requires Linked(g, t) && k < |t| && token < |g.tokens| && t[k][token].Some?
    ensures |h| == k
  {
    if k == 0 then []
    else
      var c := t[k][token].value;
      Hops(g, t, k - 1, c.edge.from) + [HopOver(g, c.edge, t[k - 1][c.edge.from].value.amount, c.amount)]
  }

  function PoolByAddress(pools: seq<Pool>, address: string): Option<Pool> {
    if pools == [] then None
    else if pools[0].address == address then Some(pools[0])
    else PoolByAddress(pools[1..], address)
  }

  /** Re-pricing the path at a probe size; none if any hop cannot be quoted positively. */
  function Probe(pools: seq<Pool>, hops: seq<Hop>, amount: int): Option<int> {
    if hops == [] then Some(amount)
    else
      match Probe(pools, hops[..|hops| - 1], amount)
      case None => None
      case Some(x) =>
        var h := hops[|hops| - 1];
        match PoolByAddress(pools, h.poolAddress)
        case None => None
        case Some(p) =>
          match Quote(p, x, h.tokenIn)
          case Err(_) => None
          case Ok(out) => if out > 0 then Some(out) else None
  }

  const BPS_SCALE: nat := 10000
  const MAX_INT64: int := 0x7fff_ffff_ffff_ffff

  function ProbeSize(amountIn: int): (p: int)
    ensures p >= 1
  {
    if amountIn / 1000 <= 0 then 1 else amountIn / 1000
  }

  function ShortfallBps(expected: int, amountOut: int): int {
    if expected <= 0 || expected - amountOut <= 0 then 0
    else
      var bps := (expected - amountOut) * BPS_SCALE / expected;
      if bps > MAX_INT64 then BPS_SCALE else bps
  }

  /** `priceImpact`. */
  function PriceImpact(pools: seq<Pool>, hops: seq<Hop>, amountIn: int, amountOut: int): int {
    if |hops| == 0 || amountIn <= 0 then 0
    else
      match Probe(pools, hops, ProbeSize(amountIn))
      case None => 0
      case Some(probeOut) => ShortfallBps(probeOut * amountIn / ProbeSize(amountIn), amountOut)
  }

  /** The impact is a fraction in basis points: never negative, never all of it, never clamped. */
  lemma PriceImpactBounds(pools: seq<Pool>, hops: seq<Hop>, amountIn: int, amountOut: int)
    requires amountOut > 0
    ensures 0 <= PriceImpact(pools, hops, amountIn, amountOut) < BPS_SCALE
  {
    if |hops| > 0 && amountIn > 0 && Probe(pools, hops, ProbeSize(amountIn)).Some? {
      var expected := Probe(pools, hops, ProbeSize(amountIn)).value * amountIn / ProbeSize(amountIn);
      ShortfallBounds(expected, amountOut);
    }
  }

  lemma ShortfallBounds(expected: int, amountOut: int)
    requires amountOut > 0
    ensures 0 <= ShortfallBps(expected, amountOut) < BPS_SCALE
    ensures expected > amountOut ==> (expected - amountOut) * BPS_SCALE / expected < BPS_SCALE
  {
    if expected > amountOut {
      var short := (expected - amountOut) * BPS_SCALE;
      var q := short / expected;
      assert short == q * expected + short % expected;
      assert short < BPS_SCALE * expected;
      if q >= BPS_SCALE {
        Arith.MulLe(BPS_SCALE, q, expected);
        assert false;
      }
    }
  }

  /** First token with the given key. */
  function FindToken(tokens: seq<Token>, key: string): (i: Option<nat>)
    ensures i.Some? ==> i.value < |tokens| && Key(tokens, i.value) == key
    ensures i.None? ==> forall j :: 0 <= j < |tokens| ==> Key(tokens, j) != key
  {
    if tokens == [] then None
    else
      var last := |tokens| - 1;
      var front := FindToken(tokens[..last], key);
      if front.Some? then
        assert Key(tokens, front.value) == Key(tokens[..last], front.value);
        front
      else
        assert forall j :: 0 <= j < last ==> Key(tokens, j) == Key(tokens[..last], j);
        if Key(tokens, last) == key then Some(last) else None
  }

  function RouteQuery(g: Graph, src: nat, amountIn: int): Query {
    Query(g, src, amountIn, SimplePaths)
  }

  /** `FindBestRoute`. */
  function BestRoute(g: Graph, tokenIn: string, tokenOut: string, amountIn: int, maxHops: int): Result<Route>
    requires WellFormed(g)
  {
    if amountIn <= 0 || maxHops < 1 then Err(BadRequest)
    else
      var src := FindToken(g.tokens, Normalize(tokenIn));
      var dst := FindToken(g.tokens, Normalize(tokenOut));
      if src.None? || dst.None? then Err(UnknownToken)
      else if src.value == dst.value then Err(BadRequest)
      else
        var q := RouteQuery(g, src.value, amountIn);
        var t := Rounds(q, maxHops);
        match BestRound(t, maxHops, dst.value)
        case None => Err(NoRoute)
        case Some(k) =>
          RoundsLinked(q, maxHops);
          var hops := Hops(g, t, k, dst.value);
          var out := t[k][dst.value].value.amount;
          Ok(Route(hops, amountIn, out, PriceImpact(g.pools, hops, amountIn, out)))
  }

  // ----- every returned route is executable -----

  predicate PricesHop(g: Graph, hop: Hop, e: EdgeRef) {
    && Joins(g.tokens, g.pools, e)
    && hop.poolAddress == g.pools[e.pool].address && hop.protocol == g.pools[e.pool].protocol
    && hop.feeBps == g.pools[e.pool].feeBps
    && hop.tokenIn == g.tokens[e.from].address && hop.tokenInSymbol == g.tokens[e.from].symbol
    && hop.tokenOut == g.tokens[e.to].address && hop.tokenOutSymbol == g.tokens[e.to].symbol
    && EdgeQuote(g, e, hop.amountIn) == Ok(hop.amountOut) && hop.amountOut > 0
  }

  /** The hops price the edges of `path` one after the other, each amount feeding the next. */
  predicate Prices(g: Graph, hops: seq<Hop>, path: seq<EdgeRef>, amountIn: int, amountOut: int) {
    && |hops| == |path|
    && (forall i :: 0 <= i < |hops| ==> PricesHop(g, hops[i], path[i]))
    && (forall i :: 0 <= i < |hops| - 1 ==> hops[i].amountOut == hops[i + 1].amountIn)
    && (if |hops| == 0 then amountIn == amountOut
        else hops[0].amountIn == amountIn && hops[|hops| - 1].amountOut == amountOut)
  }

  lemma {:induction false} HopsPrice(q: Query, m: nat, k: nat, j: nat)
    requires q.Valid() && k <= m && j < q.N() && Rounds(q, m)[k][j].Some? && Linked(q.g, Rounds(q, m))
    ensures Prices(q.g, Hops(q.g, Rounds(q, m), k, j), Path(Rounds(q, m), k, j),
                   q.amountIn, Rounds(q, m)[k][j].value.amount)
    decreases k
  {
    FirstRoundSeen(q, m, j);
    if k > 0 {
      CellJustified(q, m, k, j);
      var e := Rounds(q, m)[k][j].value.edge;
      HopsPrice(q, m, k - 1, e.from);
      PricesExtends(q.g, Hops(q.g, Rounds(q, m), k - 1, e.from), Path(Rounds(q, m), k - 1, e.from), q.amountIn,
                    Rounds(q, m)[k - 1][e.from].value.amount, e, Rounds(q, m)[k][j].value.amount);
    }
  }

  lemma PricesExtends(g: Graph, hops: seq<Hop>, path: seq<EdgeRef>, amountIn: int, mid: int, e: EdgeRef, out: int)
    requires Prices(g, hops, path, amountIn, mid)
    requires Joins(g.tokens, g.pools, e) && EdgeQuote(g, e, mid) == Ok(out) && out > 0
    ensures Prices(g, hops + [HopOver(g, e, mid, out)], path + [e], amountIn, out)
  {
    var (more, longer) := (hops + [HopOver(g, e, mid, out)], path + [e]);
    forall i | 0 <= i < |more|
      ensures PricesHop(g, more[i], longer[i])
    {
      if i < |hops| {
        assert PricesHop(g, hops[i], path[i]);
      } else {
        NewHopPrices(g, e, mid, out);
      }
    }
  }

  lemma NewHopPrices(g: Graph, e: EdgeRef, mid: int, out: int)
    requires Joins(g.tokens, g.pools, e) && EdgeQuote(g, e, mid) == Ok(out) && out > 0
    ensures PricesHop(g, HopOver(g, e, mid, out), e)
    ensures HopOver(g, e, mid, out).amountIn == mid && HopOver(g, e, mid, out).amountOut == out
  {
  }

  /**
    `route` is executable along `path`: it leaves the token keyed `keyIn`, arrives
    at the one keyed `keyOut`, passes through distinct tokens and distinct pools,
    chains its amounts, and selling hop by hop gives the promised output.
   */
  predicate Executable(g: Graph, route: Route, path: seq<EdgeRef>, tokens: seq<nat>, keyIn: string, keyOut: string) {
    && |path| > 0
    && Follows(g, path, tokens) && Distinct(tokens)
    && Key(g.tokens, path[0].from) == keyIn && Key(g.tokens, path[|path| - 1].to) == keyOut
    && (forall i, j :: 0 <= i < j < |path| ==> path[i].pool != path[j].pool)
    && Prices(g, route.hops, path, route.amountIn, route.amountOut)
    && Replay(g, route.amountIn, path) == Ok(route.amountOut)
  }

  ghost predicate ExecutableRoute(g: Graph, route: Route, tokenIn: string, tokenOut: string) {
    exists path: seq<EdgeRef>, tokens: seq<nat> ::
      Executable(g, route, path, tokens, Normalize(tokenIn), Normalize(tokenOut))
  }

  lemma CellExecutable(q: Query, m: nat, k: nat, dst: nat, route: Route)
    requires q.Valid() && q.mode.SimplePaths? && 1 <= k <= m && dst < q.N() && Rounds(q, m)[k][dst].Some?
    requires Linked(q.g, Rounds(q, m)) && route.hops == Hops(q.g, Rounds(q, m), k, dst)
    requires route.amountIn == q.amountIn && route.amountOut == Rounds(q, m)[k][dst].value.amount
    ensures Executable(q.g, route, Path(Rounds(q, m), k, dst), Chain(Rounds(q, m), k, dst),
                       Key(q.g.tokens, q.src), Key(q.g.tokens, dst))
    ensures route.amountOut > 0
  {
    CellJustified(q, m, k, dst);
    PathFollows(q, m, k, dst);
    ChainSimple(q, m, k, dst);
    DistinctTokensDistinctPools(q.g, Path(Rounds(q, m), k, dst), Chain(Rounds(q, m), k, dst));
    HopsPrice(q, m, k, dst);
  }

  /** Every route `FindBestRoute` returns is executable within the hop budget. */
  lemma BestRouteExecutable(g: Graph, tokenIn: string, tokenOut: string, amountIn: int, maxHops: int, route: Route)
    requires WellFormed(g) && BestRoute(g, tokenIn, tokenOut, amountIn, maxHops) == Ok(route)
    ensures route.amountIn == amountIn && 1 <= |route.hops| <= maxHops
    ensures 0 <= route.priceImpactBps < BPS_SCALE
    ensures ExecutableRoute(g, route, tokenIn, tokenOut)
  {
    var src := FindToken(g.tokens, Normalize(tokenIn)).value;
    var dst := FindToken(g.tokens, Normalize(tokenOut)).value;
    var q := RouteQuery(g, src, amountIn);
    var k := BestRound(Rounds(q, maxHops), maxHops, dst).value;
    RoundsLinked(q, maxHops);
    CellExecutable(q, maxHops, k, dst, route);
    PriceImpactBounds(g.pools, route.hops, amountIn, route.amountOut);
  }

  predicate UniqueAddresses(pools: seq<Pool>) {
    forall i, j :: 0 <= i < j < |pools| ==> pools[i].address != pools[j].address
  }

  lemma HopAddress(g: Graph, hops: seq<Hop>, path: seq<EdgeRef>, amountIn: int, amountOut: int, i: nat)
    requires Prices(g, hops, path, amountIn, amountOut) && i < |hops|
    ensures path[i].pool < |g.pools| && hops[i].poolAddress == g.pools[path[i].pool].address
  {
    assert PricesHop(g, hops[i], path[i]);
  }

  /** With unique pool addresses the reported addresses are distinct as well. */
  lemma DistinctPoolAddresses(g: Graph, route: Route, tokenIn: string, tokenOut: string, i: nat, j: nat)
    requires ExecutableRoute(g, route, tokenIn, tokenOut) && UniqueAddresses(g.pools)
    requires i < j < |route.hops|
    ensures route.hops[i].poolAddress != route.hops[j].poolAddress
  {
    var path: seq<EdgeRef>, tokens: seq<nat> :|
      Executable(g, route, path, tokens, Normalize(tokenIn), Normalize(tokenOut));
    HopAddress(g, route.hops, path, route.amountIn, route.amountOut, i);
    HopAddress(g, route.hops, path, route.amountIn, route.amountOut, j);
    assert path[i].pool != path[j].pool;
  }

  // ----- what the reported price impact means -----

  /** The lookup returns the first pool with the address. */
  lemma {:induction false} PoolByAddressIs(pools: seq<Pool>, k: nat)
    requires k < |pools| && forall j :: 0 <= j < k ==> pools[j].address != pools[k].address
    ensures PoolByAddress(pools, pools[k].address) == Some(pools[k])
  {
    if k > 0 {
      assert pools[0].address != pools[k].address;
      PoolByAddressIs(pools[1..], k - 1);
    }
  }

  /** Selling `amount` along the path pays a positive amount at every hop. */
  predicate SellsThrough(g: Graph, amount: int, path: seq<EdgeRef>)
    requires forall e <- path :: Joins(g.tokens, g.pools, e)
  {
    path == [] || (SellsThrough(g, amount, path[..|path| - 1]) && Pays(Replay(g, amount, path)))
  }

  predicate Pays(r: Result<int>) {
    r.Ok? && r.value > 0
  }

  lemma HopsJoin(g: Graph, hops: seq<Hop>, path: seq<EdgeRef>)
    requires |hops| == |path| && forall i :: 0 <= i < |hops| ==> PricesHop(g, hops[i], path[i])
    ensures forall e <- path :: Joins(g.tokens, g.pools, e)
  {
    forall e <- path
      ensures Joins(g.tokens, g.pools, e)
    {
      var i :| 0 <= i < |path| && path[i] == e;
      assert PricesHop(g, hops[i], path[i]);
    }
  }

  /** The probe re-sells its amount along the route's own path, and gives up at a hop that pays nothing. */
  lemma {:induction false} ProbeReplays(g: Graph, hops: seq<Hop>, path: seq<EdgeRef>, amount: int)
    requires UniqueAddresses(g.pools) && |hops| == |path|
    requires forall i :: 0 <= i < |hops| ==> PricesHop(g, hops[i], path[i])
    ensures forall e <- path :: Joins(g.tokens, g.pools, e)
    ensures Probe(g.pools, hops, amount).Some? <==> SellsThrough(g, amount, path)
    ensures Probe(g.pools, hops, amount).Some? ==> Replay(g, amount, path) == Ok(Probe(g.pools, hops, amount).value)
  {
    HopsJoin(g, hops, path);
    if hops != [] {
      var n := |hops| - 1;
      ProbeReplays(g, hops[..n], path[..n], amount);
      assert PricesHop(g, hops[n], path[n]);
      PoolByAddressIs(g.pools, path[n].pool);
    }
  }

  /** One thousandth of the trade, at least one unit. */
  function ProbeAmount(amountIn: int): int {
    if amountIn < 1000 then 1 else amountIn / 1000
  }

  /** `amountOut` is `bps` basis points, rounded down, below `expected`, or not below it. */
  predicate FallsShort(expected: int, amountOut: int, bps: int) {
    if expected <= amountOut then bps == 0
    else bps * expected <= (expected - amountOut) * 10000 < (bps + 1) * expected
  }

  /**
    The impact of a returned route: the basis points, rounded down, by which its output
    falls short of the probe's output scaled up to the trade; zero when the probe cannot
    be sold through or scales to no more than the trade pays.
   */
  lemma RouteImpact(g: Graph, tokenIn: string, tokenOut: string, amountIn: int, maxHops: int, route: Route,
                    path: seq<EdgeRef>, tokens: seq<nat>)
    requires WellFormed(g) && UniqueAddresses(g.pools) && BestRoute(g, tokenIn, tokenOut, amountIn, maxHops) == Ok(route)
    requires Executable(g, route, path, tokens, Normalize(tokenIn), Normalize(tokenOut))
    ensures forall e <- path :: Joins(g.tokens, g.pools, e)
    ensures !SellsThrough(g, ProbeAmount(amountIn), path) ==> route.priceImpactBps == 0
    ensures SellsThrough(g, ProbeAmount(amountIn), path) ==>
      && Replay(g, ProbeAmount(amountIn), path).Ok?
      && FallsShort(Replay(g, ProbeAmount(amountIn), path).value * amountIn / ProbeAmount(amountIn),
                    route.amountOut, route.priceImpactBps)
  {
    ImpactReported(g, tokenIn, tokenOut, amountIn, maxHops, route);
    HopsJoin(g, route.hops, path);
    ImpactIs(g, route.hops, path, amountIn, route.amountOut, route.priceImpactBps);
  }

  lemma ImpactReported(g: Graph, tokenIn: string, tokenOut: string, amountIn: int, maxHops: int, route: Route)
    requires WellFormed(g) && BestRoute(g, tokenIn, tokenOut, amountIn, maxHops) == Ok(route)
    ensures amountIn > 0 && route.amountOut > 0 && |route.hops| > 0
    ensures route.priceImpactBps == PriceImpact(g.pools, route.hops, amountIn, route.amountOut)
  {
    var src := FindToken(g.tokens, Normalize(tokenIn)).value;
    var dst := FindToken(g.tokens, Normalize(tokenOut)).value;
    var q := RouteQuery(g, src, amountIn);
    CellJustified(q, maxHops, BestRound(Rounds(q, maxHops), maxHops, dst).value, dst);
  }

  lemma ImpactIs(g: Graph, hops: seq<Hop>, path: seq<EdgeRef>, amountIn: int, amountOut: int, bps: int)
    requires UniqueAddresses(g.pools) && |hops| == |path| > 0 && amountIn > 0 && amountOut > 0
    requires bps == PriceImpact(g.pools, hops, amountIn, amountOut)
    requires forall i :: 0 <= i < |hops| ==> PricesHop(g, hops[i], path[i])
    requires forall e <- path :: Joins(g.tokens, g.pools, e)
    ensures !SellsThrough(g, ProbeAmount(amountIn), path) ==> bps == 0
    ensures SellsThrough(g, ProbeAmount(amountIn), path) ==>
      && Replay(g, ProbeAmount(amountIn), path).Ok?
      && FallsShort(Replay(g, ProbeAmount(amountIn), path).value * amountIn / ProbeAmount(amountIn), amountOut, bps)
  {
    var probe := ProbeAmount(amountIn);
    assert ProbeSize(amountIn) == probe;
    ProbeReplays(g, hops, path, probe);
    if SellsThrough(g, probe, path) {
      ShortfallIs(Probe(g.pools, hops, probe).value * amountIn / probe, amountOut);
    }
  }

  lemma ShortfallIs(expected: int, amountOut: int)
    requires amountOut > 0
    ensures FallsShort(expected, amountOut, ShortfallBps(expected, amountOut))
  {
    ShortfallBounds(expected, amountOut);
    if expected > amountOut {
      Arith.FloorBounds((expected - amountOut) * 10000, expected);
    }
  }

  // ----- when there is no route -----

  predicate Known(g: Graph, token: string) {
    exists i :: 0 <= i < |g.tokens| && Key(g.tokens, i) == Normalize(token)
  }

  /** Which requests are refused, and why. */
  lemma BestRouteRefuses(g: Graph, tokenIn: string, tokenOut: string, amountIn: int, maxHops: int)
    requires WellFormed(g)
    ensures var r := BestRoute(g, tokenIn, tokenOut, amountIn, maxHops);
      if amountIn <= 0 || maxHops < 1 then r == Err(BadRequest)
      else if !Known(g, tokenIn) || !Known(g, tokenOut) then r == Err(UnknownToken)
      else if Normalize(tokenIn) == Normalize(tokenOut) then r == Err(BadRequest)
      else r.Ok? || r == Err(NoRoute)
  {
  }

  /** There is no route exactly when no round up to the budget reaches the target. */
  lemma NoRouteIff(g: Graph, tokenIn: string, tokenOut: string, amountIn: int, maxHops: int, src: nat, dst: nat)
    requires WellFormed(g) && Asks(g, tokenIn, tokenOut, amountIn, src, dst) && maxHops >= 1
    ensures BestRoute(g, tokenIn, tokenOut, amountIn, maxHops) == Err(NoRoute) <==>
      forall k :: 1 <= k <= maxHops ==> Rounds(RouteQuery(g, src, amountIn), maxHops)[k][dst].None?
  {
    var q := RouteQuery(g, src, amountIn);
    BestRouteRefuses(g, tokenIn, tokenOut, amountIn, maxHops);
    RouteIsBestCell(g, tokenIn, tokenOut, amountIn, maxHops, src, dst);
    UnseenEverywhere(q, maxHops, dst);
  }

  lemma UnseenEverywhere(q: Query, m: nat, dst: nat)
    requires q.Valid() && dst < q.N()
    ensures BestOut(q, m, dst).None? <==> forall k :: 1 <= k <= m ==> Rounds(q, m)[k][dst].None?
  {
    var t: Table := Rounds(q, m);
    BestRoundSpec(t, m, dst);
    if BestRound(t, m, dst).None? {
      forall k | 1 <= k <= m
        ensures Rounds(q, m)[k][dst].None?
      {
        assert t[k][dst].None?;
      }
    } else {
      var k := BestRound(t, m, dst).value;
      assert 1 <= k <= m && Rounds(q, m)[k][dst].Some?;
    }
  }

  // ----- how good the returned route is -----

  /** The output of the table's best cell for `dst`, if any. */
  function BestOut(q: Query, m: nat, dst: nat): Option<int>
    requires q.Valid() && dst < q.N()
  {
    match BestRound(Rounds(q, m), m, dst)
    case None => None
    case Some(k) => Some(Rounds(q, m)[k][dst].value.amount)
  }

  lemma BestOutAtLeast(q: Query, m: nat, k: nat, dst: nat, out: int)
    requires q.Valid() && dst < q.N() && 1 <= k <= m
    requires Rounds(q, m)[k][dst].Some? && Rounds(q, m)[k][dst].value.amount >= out
    ensures BestOut(q, m, dst).Some? && BestOut(q, m, dst).value >= out
  {
    BestRoundSpec(Rounds(q, m), m, dst);
  }

  /** After one hop, every reachable token holds at least what any single pool would give. */
  lemma OneHop(q: Query, m: nat, e: EdgeRef, out: int)
    requires q.Valid() && m >= 1 && EdgeOf(q.g, e) && e.from == q.src && e.to != q.src
    requires Joins(q.g.tokens, q.g.pools, e) && EdgeQuote(q.g, e, q.amountIn) == Ok(out) && out > 0
    ensures Rounds(q, m)[1][e.to].Some? && Rounds(q, m)[1][e.to].value.amount >= out
  {
    FirstRoundSeen(q, m, q.src);
    assert Chain(Rounds(q, m), 0, e.from) == [q.src];
    CellDominates(q, m, 1, e, out);
  }

  lemma CellBeatsDirect(q: Query, m: nat, e: EdgeRef, out: int)
    requires q.Valid() && m >= 1 && EdgeOf(q.g, e) && e.from == q.src && e.to != q.src
    requires Joins(q.g.tokens, q.g.pools, e) && EdgeQuote(q.g, e, q.amountIn) == Ok(out) && out > 0
    ensures BestOut(q, m, e.to).Some? && BestOut(q, m, e.to).value >= out
  {
    OneHop(q, m, e, out);
    BestOutAtLeast(q, m, 1, e.to, out);
  }

  lemma ChainOfOne(q: Query, m: nat, x: nat)
    requires q.Valid() && m >= 1 && x < q.N() && Rounds(q, m)[1][x].Some?
    ensures Chain(Rounds(q, m), 1, x) == [q.src, x]
  {
    PathFollows(q, m, 1, x);
  }

  /** Second hop of a comparison path: it still quotes when a larger amount arrives. */
  predicate QuotesMore(g: Graph, f: EdgeRef, amount: int)
    requires Joins(g.tokens, g.pools, f)
  {
    Sound(g.pools[f.pool]) && (g.pools[f.pool].protocol.SushiswapV2? || EdgeQuote(g, f, amount).Ok?)
  }

  lemma CellBeatsTwoHops(q: Query, m: nat, e: EdgeRef, f: EdgeRef, mid: int, out: int)
    requires q.Valid() && m >= 2 && EdgeOf(q.g, e) && EdgeOf(q.g, f)
    requires Joins(q.g.tokens, q.g.pools, e) && Joins(q.g.tokens, q.g.pools, f)
    requires e.from == q.src && e.to == f.from && e.to != q.src && f.to != q.src && f.to != e.to
    requires EdgeQuote(q.g, e, q.amountIn) == Ok(mid) && EdgeQuote(q.g, f, mid) == Ok(out) && out > 0
    requires Rounds(q, m)[1][e.to].Some? ==> QuotesMore(q.g, f, Rounds(q, m)[1][e.to].value.amount)
    ensures BestOut(q, m, f.to).Some? && BestOut(q, m, f.to).value >= out
  {
    QuotePositiveInput(q.g.pools[f.pool], mid, q.g.tokens[f.from].address);
    OneHop(q, m, e, mid);
    var x := Rounds(q, m)[1][e.to].value.amount;
    QuoteGrows(q.g, f, mid, x, out);
    SecondHop(q, m, f, x, EdgeQuote(q.g, f, x).value);
    BestOutAtLeast(q, m, 2, f.to, out);
  }

  /** A second hop off a first-round cell is offered to its target. */
  lemma SecondHop(q: Query, m: nat, f: EdgeRef, x: int, y: int)
    requires q.Valid() && m >= 2 && EdgeOf(q.g, f) && Joins(q.g.tokens, q.g.pools, f)
    requires f.to != q.src && f.to != f.from
    requires Rounds(q, m)[1][f.from].Some? && Rounds(q, m)[1][f.from].value.amount == x
    requires EdgeQuote(q.g, f, x) == Ok(y) && y > 0
    ensures Rounds(q, m)[2][f.to].Some? && Rounds(q, m)[2][f.to].value.amount >= y
  {
    assert f.to !in Chain(Rounds(q, m), 1, f.from) by {
      ChainOfOne(q, m, f.from);
    }
    CellDominates(q, m, 2, f, y);
  }

  lemma QuoteGrows(g: Graph, f: EdgeRef, x: int, y: int, out: int)
    requires Joins(g.tokens, g.pools, f) && 0 < x <= y && EdgeQuote(g, f, x) == Ok(out) && QuotesMore(g, f, y)
    ensures EdgeQuote(g, f, y).Ok? && EdgeQuote(g, f, y).value >= out
  {
    var pool := g.pools[f.pool];
    var from := g.tokens[f.from].address;
    if pool.protocol.SushiswapV2? {
      QuoteTotalV2(pool, x, y, from);
    }
    QuoteMonotone(pool, x, y, from);
  }

  /** A longer table agrees with a shorter one on the rounds they share. */
  lemma SharedRound(q: Query, m: nat, more: nat, k: nat)
    requires q.Valid() && k <= m <= more
    ensures Rounds(q, m)[k] == Rounds(q, more)[k]
  {
    RoundAt(q, k, m);
    RoundAt(q, k, more);
  }

  lemma BestOutGrows(q: Query, m: nat, more: nat, dst: nat)
    requires q.Valid() && dst < q.N() && m <= more
    requires BestRound(Rounds(q, m), m, dst).Some?
    ensures BestRound(Rounds(q, more), more, dst).Some?
    ensures BestOut(q, more, dst).value >= BestOut(q, m, dst).value
    ensures BestOut(q, more, dst).value == BestOut(q, m, dst).value ==>
      BestRound(Rounds(q, more), more, dst) == BestRound(Rounds(q, m), m, dst)
  {
    RoundsPrefix(q, m, more);
    LongerTable(Rounds(q, m), Rounds(q, more), m, more, dst);
  }

  lemma LongerTable(t: Table, u: Table, m: nat, more: nat, dst: nat)
    requires |t| == m + 1 && |u| == more + 1 && m <= more && u[..m + 1] == t
    requires forall r :: 0 <= r <= more ==> dst < |u[r]|
    requires forall r :: 0 <= r <= m ==> dst < |t[r]|
    requires BestRound(t, m, dst).Some?
    ensures var (a, b) := (BestRound(t, m, dst), BestRound(u, more, dst));
      && b.Some? && u[b.value][dst].value.amount >= t[a.value][dst].value.amount
      && (u[b.value][dst].value.amount == t[a.value][dst].value.amount ==> a == b)
  {
    assert forall r :: 0 <= r <= m ==> u[r] == t[r] by {
      assert forall r :: 0 <= r <= m ==> u[r] == u[..m + 1][r];
    }
    BestRoundSpec(t, m, dst);
    BestRoundSpec(u, more, dst);
  }

  /** Tables that share their first rounds yield the same hops there. */
  lemma {:induction false} SharedHops(q: Query, m: nat, more: nat, k: nat, j: nat)
    requires q.Valid() && k <= m <= more && j < q.N() && Rounds(q, m)[k][j].Some?
    requires Linked(q.g, Rounds(q, m)) && Linked(q.g, Rounds(q, more))
    ensures Rounds(q, more)[k][j].Some?
    ensures Hops(q.g, Rounds(q, m), k, j) == Hops(q.g, Rounds(q, more), k, j)
    decreases k
  {
    SharedRound(q, m, more, k);
    if k > 0 {
      SharedRound(q, m, more, k - 1);
      SharedHops(q, m, more, k - 1, Rounds(q, m)[k][j].value.edge.from);
    }
  }

  // ----- the same, of the route `FindBestRoute` returns -----

  /** A request that names two different known tokens, at their indices. */
  predicate Asks(g: Graph, tokenIn: string, tokenOut: string, amountIn: int, src: nat, dst: nat) {
    && amountIn > 0 && src != dst
    && FindToken(g.tokens, Normalize(tokenIn)) == Some(src)
    && FindToken(g.tokens, Normalize(tokenOut)) == Some(dst)
  }

  /** A route is returned exactly when the table has a cell for the target, and pays what the best one holds. */
  lemma RouteIsBestCell(g: Graph, tokenIn: string, tokenOut: string, amountIn: int, maxHops: int, src: nat, dst: nat)
    requires WellFormed(g) && Asks(g, tokenIn, tokenOut, amountIn, src, dst) && maxHops >= 1
    ensures var r := BestRoute(g, tokenIn, tokenOut, amountIn, maxHops);
      var out := BestOut(RouteQuery(g, src, amountIn), maxHops, dst);
      (r.Ok? <==> out.Some?) && (r.Ok? ==> r.value.amountOut == out.value)
  {
  }

  /** Raising the hop budget never loses a route and never lowers the output; an equal output keeps the route itself. */
  lemma MoreHopsNeverWorse(g: Graph, tokenIn: string, tokenOut: string, amountIn: int, maxHops: int, more: int)
    requires WellFormed(g) && maxHops <= more && BestRoute(g, tokenIn, tokenOut, amountIn, maxHops).Ok?
    ensures var (a, b) := (BestRoute(g, tokenIn, tokenOut, amountIn, maxHops),
                           BestRoute(g, tokenIn, tokenOut, amountIn, more));
      && b.Ok? && b.value.amountOut >= a.value.amountOut
      && (b.value.amountOut == a.value.amountOut ==> b == a)
  {
    var src := FindToken(g.tokens, Normalize(tokenIn)).value;
    var dst := FindToken(g.tokens, Normalize(tokenOut)).value;
    var q := RouteQuery(g, src, amountIn);
    RouteIsBestCell(g, tokenIn, tokenOut, amountIn, maxHops, src, dst);
    RouteIsBestCell(g, tokenIn, tokenOut, amountIn, more, src, dst);
    BestOutGrows(q, maxHops, more, dst);
    if BestOut(q, more, dst) == BestOut(q, maxHops, dst) {
      RoundsLinked(q, maxHops);
      RoundsLinked(q, more);
      SharedHops(q, maxHops, more, BestRound(Rounds(q, maxHops), maxHops, dst).value, dst);
    }
  }

  /** The pool's two tokens are `a` and `b`, in either order and spelling. */
  predicate Trades(p: Pool, a: string, b: string) {
    var (k0, k1) := (Normalize(p.token0.address), Normalize(p.token1.address));
    (Normalize(a) == k0 && Normalize(b) == k1) || (Normalize(a) == k1 && Normalize(b) == k0)
  }

  /** What `BuildSnapshot` guarantees: an index of the tokens and both edges of every pool. */
  predicate Built(g: Graph, index: map<string, nat>) {
    WellFormed(g) && Indexed(g.tokens, index) && Complete(g.pools, index, g.adj)
  }

  lemma IndexFinds(g: Graph, index: map<string, nat>, key: string)
    requires WellFormed(g) && Indexed(g.tokens, index) && key in index
    ensures FindToken(g.tokens, key) == Some(index[key])
  {
    assert Key(g.tokens, index[key]) == key;
  }

  lemma SameKeySameQuote(p: Pool, amount: int, a: string, b: string)
    requires Normalize(a) == Normalize(b)
    ensures Quote(p, amount, a) == Quote(p, amount, b)
  {
  }

  /** A kept pool's edge from `a` to `b`. */
  function EdgeFor(index: map<string, nat>, k: nat, a: string, b: string): EdgeRef
    requires Normalize(a) in index && Normalize(b) in index
  {
    EdgeRef(k, index[Normalize(a)], index[Normalize(b)])
  }

  lemma PoolHasEdge(g: Graph, index: map<string, nat>, k: nat, a: string, b: string)
    requires Built(g, index) && k < |g.pools| && Trades(g.pools[k], a, b)
    ensures Normalize(a) in index && Normalize(b) in index
    ensures EdgeOf(g, EdgeFor(index, k, a, b)) && Joins(g.tokens, g.pools, EdgeFor(index, k, a, b))
    ensures FindToken(g.tokens, Normalize(a)) == Some(index[Normalize(a)])
    ensures FindToken(g.tokens, Normalize(b)) == Some(index[Normalize(b)])
    ensures Normalize(a) != Normalize(b) ==> index[Normalize(a)] != index[Normalize(b)]
  {
    assert BothEdges(g.pools[k], index, g.adj, k);
    IndexFinds(g, index, Normalize(a));
    IndexFinds(g, index, Normalize(b));
    var e := EdgeFor(index, k, a, b);
    assert e in multiset(g.adj[e.from]);
    ScanIsEdges(g, e);
  }

  lemma EdgePricesPool(g: Graph, index: map<string, nat>, k: nat, a: string, b: string, amount: int)
    requires Built(g, index) && k < |g.pools| && Trades(g.pools[k], a, b)
    requires Normalize(a) in index && Normalize(b) in index && Joins(g.tokens, g.pools, EdgeFor(index, k, a, b))
    ensures EdgeQuote(g, EdgeFor(index, k, a, b), amount) == Quote(g.pools[k], amount, a)
  {
    SameKeySameQuote(g.pools[k], amount, a, g.tokens[index[Normalize(a)]].address);
  }

  /** The route returned is at least as good as every direct pool between the two tokens. */
  lemma BeatsDirect(g: Graph, index: map<string, nat>, tokenIn: string, tokenOut: string, amountIn: int, maxHops: int,
                    k: nat, out: int)
    requires Built(g, index) && maxHops >= 1 && Normalize(tokenIn) != Normalize(tokenOut)
    requires k < |g.pools| && Trades(g.pools[k], tokenIn, tokenOut)
    requires Quote(g.pools[k], amountIn, tokenIn) == Ok(out) && out > 0
    ensures var r := BestRoute(g, tokenIn, tokenOut, amountIn, maxHops); r.Ok? && r.value.amountOut >= out
  {
    PoolHasEdge(g, index, k, tokenIn, tokenOut);
    EdgePricesPool(g, index, k, tokenIn, tokenOut, amountIn);
    QuotePositiveInput(g.pools[k], amountIn, tokenIn);
    var e := EdgeFor(index, k, tokenIn, tokenOut);
    CellBeatsDirect(RouteQuery(g, e.from, amountIn), maxHops, e, out);
    RouteIsBestCell(g, tokenIn, tokenOut, amountIn, maxHops, e.from, e.to);
  }

  /**
    With two hops allowed it is at least as good as every path over two pools through
    a third token, provided the second pool still quotes the best one-hop output.
   */
  lemma BeatsTwoHops(g: Graph, index: map<string, nat>, tokenIn: string, via: string, tokenOut: string,
                     amountIn: int, maxHops: int, k: nat, l: nat, mid: int, out: int)
    requires Built(g, index) && maxHops >= 2 && k < |g.pools| && l < |g.pools|
    requires Distinct([Normalize(tokenIn), Normalize(via), Normalize(tokenOut)])
    requires Trades(g.pools[k], tokenIn, via) && Trades(g.pools[l], via, tokenOut)
    requires Quote(g.pools[k], amountIn, tokenIn) == Ok(mid) && Quote(g.pools[l], mid, via) == Ok(out) && out > 0
    requires Sound(g.pools[l])
    requires g.pools[l].protocol.SushiswapV2?
      || (BestRoute(g, tokenIn, via, amountIn, 1).Ok? ==>
            Quote(g.pools[l], BestRoute(g, tokenIn, via, amountIn, 1).value.amountOut, via).Ok?)
    ensures var r := BestRoute(g, tokenIn, tokenOut, amountIn, maxHops); r.Ok? && r.value.amountOut >= out
  {
    ThreeDistinct(Normalize(tokenIn), Normalize(via), Normalize(tokenOut));
    PoolHasEdge(g, index, k, tokenIn, via);
    PoolHasEdge(g, index, l, via, tokenOut);
    IndexApart(g.tokens, index, Normalize(tokenIn), Normalize(tokenOut));
    QuotePositiveInput(g.pools[k], amountIn, tokenIn);
    var e, f := EdgeFor(index, k, tokenIn, via), EdgeFor(index, l, via, tokenOut);
    EdgePricesPool(g, index, k, tokenIn, via, amountIn);
    EdgePricesPool(g, index, l, via, tokenOut, mid);
    if BestRoute(g, tokenIn, via, amountIn, 1).Ok? {
      EdgePricesPool(g, index, l, via, tokenOut, BestRoute(g, tokenIn, via, amountIn, 1).value.amountOut);
    }
    BeatsTwoEdges(g, tokenIn, via, tokenOut, amountIn, maxHops, e, f, mid, out);
  }

  /** The same for two edges of the graph. */
  lemma BeatsTwoEdges(g: Graph, tokenIn: string, via: string, tokenOut: string, amountIn: int, maxHops: int,
                      e: EdgeRef, f: EdgeRef, mid: int, out: int)
    requires WellFormed(g) && maxHops >= 2 && e.to == f.from && f.to != e.to
    requires Asks(g, tokenIn, via, amountIn, e.from, e.to) && Asks(g, tokenIn, tokenOut, amountIn, e.from, f.to)
    requires EdgeOf(g, e) && EdgeOf(g, f) && Joins(g.tokens, g.pools, e) && Joins(g.tokens, g.pools, f)
    requires EdgeQuote(g, e, amountIn) == Ok(mid) && EdgeQuote(g, f, mid) == Ok(out) && out > 0
    requires BestRoute(g, tokenIn, via, amountIn, 1).Ok? ==>
      QuotesMore(g, f, BestRoute(g, tokenIn, via, amountIn, 1).value.amountOut)
    ensures var r := BestRoute(g, tokenIn, tokenOut, amountIn, maxHops); r.Ok? && r.value.amountOut >= out
  {
    var q := RouteQuery(g, e.from, amountIn);
    if Rounds(q, maxHops)[1][e.to].Some? {
      OneHopRoute(g, tokenIn, via, amountIn, maxHops, e.from, e.to);
    }
    CellBeatsTwoHops(q, maxHops, e, f, mid, out);
    RouteIsBestCell(g, tokenIn, tokenOut, amountIn, maxHops, e.from, f.to);
  }

  lemma ThreeDistinct<T>(a: T, b: T, c: T)
    requires Distinct([a, b, c])
    ensures a != b && a != c && b != c
  {
    var s := [a, b, c];
    assert s[0] != s[1] && s[0] != s[2] && s[1] != s[2];
  }

  lemma IndexApart(tokens: seq<Token>, index: map<string, nat>, a: string, b: string)
    requires Indexed(tokens, index) && a in index && b in index && a != b
    ensures index[a] != index[b]
  {
  }

  /** With one hop allowed the returned output is the first round's amount. */
  lemma OneHopRoute(g: Graph, tokenIn: string, tokenOut: string, amountIn: int, maxHops: int, src: nat, dst: nat)
    requires WellFormed(g) && Asks(g, tokenIn, tokenOut, amountIn, src, dst) && maxHops >= 1
    requires Rounds(RouteQuery(g, src, amountIn), maxHops)[1][dst].Some?
    ensures var r := BestRoute(g, tokenIn, tokenOut, amountIn, 1);
      r.Ok? && r.value.amountOut == Rounds(RouteQuery(g, src, amountIn), maxHops)[1][dst].value.amount
  {
    var q := RouteQuery(g, src, amountIn);
    RouteIsBestCell(g, tokenIn, tokenOut, amountIn, 1, src, dst);
    SharedRound(q, 1, maxHops, 1);
    BestRoundSpec(Rounds(q, 1), 1, dst);
  }

  /** On a V2-only snapshot every quotable two-hop path is covered, with no side condition. */
  lemma BeatsTwoHopsV2(g: Graph, index: map<string, nat>, tokenIn: string, via: string, tokenOut: string,
                       amountIn: int, maxHops: int, k: nat, l: nat, mid: int, out: int)
    requires Built(g, index) && (forall p <- g.pools :: p.protocol.SushiswapV2?)
    requires maxHops >= 2 && k < |g.pools| && l < |g.pools|
    requires Distinct([Normalize(tokenIn), Normalize(via), Normalize(tokenOut)])
    requires Trades(g.pools[k], tokenIn, via) && Trades(g.pools[l], via, tokenOut)
    requires Quote(g.pools[k], amountIn, tokenIn) == Ok(mid) && Quote(g.pools[l], mid, via) == Ok(out) && out > 0
    ensures var r := BestRoute(g, tokenIn, tokenOut, amountIn, maxHops); r.Ok? && r.value.amountOut >= out
  {
    assert g.pools[l] in g.pools;
    BeatsTwoHops(g, index, tokenIn, via, tokenOut, amountIn, maxHops, k, l, mid, out);
  }
}
