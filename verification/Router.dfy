/**
  The imperative router of internal/graph/router.go: relaxation rows overwritten
  in place, the shared workspace, and the best-route search proved to compute the
  pure table and route.
 */
module Router {
  import opened Common
  import opened Amm
  import opened Dex
  import opened Snapshots
  import opened Relaxation
  import opened Routing

  /** One round of the table: `amount[k]`, `from[k]` and `seen[k]`. */
  class Row {
    const amount: array<BigInt?>
    const from: array<EdgeRef>
    const seen: array<bool>
    ghost var view: Round
    ghost var cells: set<BigInt>

    ghost function Repr(): set<object>
      reads this
    {
      {this, amount, from, seen} + cells
    }

    ghost predicate Valid()
      reads this, amount, from, seen, cells
    {
      && amount.Length == from.Length == seen.Length == |view|
      && (forall i :: 0 <= i < |view| ==>
            if view[i].Some? then
              && seen[i] && amount[i] != null && amount[i] in cells
              && amount[i].v == view[i].value.amount && from[i] == view[i].value.edge
            else !seen[i])
      && (forall i, j :: 0 <= i < j < |view| && view[i].Some? && view[j].Some? ==> amount[i] != amount[j])
    }

    constructor (n: nat)
      ensures Valid() && view == Unseen(n) && cells == {}
      ensures fresh(amount) && fresh(from) && fresh(seen)
    {
      amount := new BigInt?[n](_ => null);
      from := new EdgeRef[n](_ => NO_EDGE);
      seen := new bool[n](_ => false);
      view := Unseen(n);
      cells := {};
    }

    /** Round 0 stores the caller's own cell, not a copy. */
    method Share(src: nat, amountIn: BigInt)
      requires Valid() && src < |view| && view == Unseen(|view|) && cells == {}
      modifies this, amount, from, seen
      ensures Valid() && cells == {amountIn}
      ensures view == Unseen(|view|)[src := Some(Cell(amountIn.v, NO_EDGE))] && |view| == old(|view|)
    {
      amount[src] := amountIn;
      from[src] := NO_EDGE;
      seen[src] := true;
      cells := {amountIn};
      view := view[src := Some(Cell(amountIn.v, NO_EDGE))];
    }

    /** A candidate wins only if strictly better; a winner overwrites its own cell or gets a new one. */
    method Take(e: EdgeRef, out: BigInt)
      requires Valid() && e.to < |view| && out !in cells
      modifies this, amount, from, seen, cells
      ensures Valid() && view == Improve(old(view), e, out.v)
      ensures fresh(cells - old(cells))
    {
      if seen[e.to] && amount[e.to].v >= out.v {
        return;
      }
      if seen[e.to] {
        amount[e.to].v := out.v;
      } else {
        var cell := new BigInt(out.v);
        amount[e.to] := cell;
        cells := cells + {cell};
      }
      from[e.to] := e;
      seen[e.to] := true;
      view := view[e.to := Some(Cell(out.v, e))];
    }
  }

  /** Every seen cell points back to a seen cell one round earlier. */
  ghost predicate Chained(n: nat, t: Table) {
    && (forall r :: 0 <= r < |t| ==> |t[r]| == n)
    && forall r, j :: 0 < r < |t| && 0 <= j < n && t[r][j].Some? ==>
         t[r][j].value.edge.from < n && t[r - 1][t[r][j].value.edge.from].Some?
  }

  lemma LinkedChained(g: Graph, t: Table)
    requires Linked(g, t)
    ensures Chained(|g.tokens|, t)
  {
  }

  /** The chain walk of `mayVisit`, over the rows themselves. */
  method ChainAllows(q: Query, rows: seq<Row>, ghost t: Table, hops: nat, fromToken: nat, next: nat) returns (ok: bool)
    requires hops < |t| && hops < |rows| && Chained(q.N(), t)
    requires forall r :: 0 <= r <= hops ==> rows[r].Valid() && rows[r].view == t[r]
    requires fromToken < q.N() && t[hops][fromToken].Some?
    ensures ok <==> if next == q.src then q.mode.ClosedLoops? else next !in Chain(t, hops, fromToken)
  {
    if q.mode.ClosedLoops? && next == q.src {
      return true;
    }
    if next == q.src {
      return false;
    }
    if next == fromToken {
      assert Chain(t, hops, fromToken)[|Chain(t, hops, fromToken)| - 1] == next;
      return false;
    }
    var token: nat := fromToken;
    var k: nat := hops;
    while k >= 1
      invariant 0 <= k <= hops && token < q.N() && t[k][token].Some?
      invariant next in Chain(t, hops, fromToken) <==> next in Chain(t, k, token)
    {
      assert Chain(t, k, token) == Chain(t, k - 1, t[k][token].value.edge.from) + [token];
      if token == next {
        return false;
      }
      token := rows[k].from[token].from;
      k := k - 1;
    }
    return token != next;
  }

  /** The row holds the given round. */
  ghost predicate Holds(row: Row, round: Round)
    reads row, row.amount, row.from, row.seen, row.cells
  {
    row.Valid() && row.view == round
  }

  /** Finished rows hold their rounds and share nothing with the row being filled. */
  ghost predicate Ready(done: seq<Row>, t: Table, row: Row)
    reads done, row
    reads set r <- done :: r.amount
    reads set r <- done :: r.from
    reads set r <- done :: r.seen
    reads set r, c | r in done && c in r.cells :: c
  {
    && |done| == |t|
    && (forall r :: 0 <= r < |done| ==> Holds(done[r], t[r]) && done[r].Repr() !! row.Repr())
  }

  /** The workspace is usable and shares nothing with any row. */
  ghost predicate Clear(done: seq<Row>, row: Row, sc: Scratch)
    reads done, row, sc.one
  {
    && sc.Valid() && sc.repr !! row.Repr()
    && (forall r :: 0 <= r < |done| ==> done[r].Repr() !! sc.repr)
  }

  /** The cell the candidate's output sits in, if there is a candidate. */
  ghost predicate Offered(o: Option<BigInt>, offer: Option<int>, sc: Scratch)
    reads sc.out
  {
    match offer
    case None => o == None
    case Some(x) => o == Some(sc.out) && sc.out.v == x
  }

  /** Quotes an edge in the workspace: no row is touched. */
  method QuoteEdge(q: Query, done: seq<Row>, ghost row: Row, e: EdgeRef, sc: Scratch, ghost t: Table)
    returns (r: Result<BigInt>)
    requires q.Valid() && |t| > 0 && Ready(done, t, row) && Clear(done, row, sc)
    requires Joins(q.g.tokens, q.g.pools, e) && e.from < |t[|t| - 1]| && t[|t| - 1][e.from].Some?
    modifies sc.cells
    ensures Ready(done, t, row) && Clear(done, row, sc)
    ensures Delivers(r, sc, EdgeQuote(q.g, e, t[|t| - 1][e.from].value.amount))
  {
    var last := done[|done| - 1];
    assert Holds(last, t[|t| - 1]);
    r := AmountOutInto(sc, q.g.pools[e.pool], last.amount[e.from], q.g.tokens[e.from].address);
  }

  /** The skip tests on a quote; the rows are only read. */
  method Admit(q: Query, done: seq<Row>, e: EdgeRef, out: Result<BigInt>,
               ghost row: Row, ghost sc: Scratch, ghost t: Table, ghost quote: Result<nat>)
    returns (o: Option<BigInt>)
    requires |t| > 0 && Chained(q.N(), t) && Ready(done, t, row) && Delivers(out, sc, quote)
    requires e.from < q.N() && t[|t| - 1][e.from].Some?
    ensures Offered(o, Screen(q, t, e, quote), sc)
  {
    if out.Err? {
      return None;
    }
    if out.value.v <= 0 {
      return None;
    }
    var ok := ChainAllows(q, done, t, |done| - 1, e.from, e.to);
    return if ok then Some(out.value) else None;
  }

  /** A candidate edge's output after the skip tests. */
  method MakeOffer(q: Query, done: seq<Row>, ghost row: Row, e: EdgeRef, sc: Scratch, ghost t: Table)
    returns (o: Option<BigInt>)
    requires q.Valid() && |t| > 0 && Chained(q.N(), t) && Ready(done, t, row) && Clear(done, row, sc)
    requires Joins(q.g.tokens, q.g.pools, e) && t[|t| - 1][e.from].Some?
    modifies sc.cells
    ensures Ready(done, t, row) && Clear(done, row, sc)
    ensures Offered(o, Offer(q, t, e), sc)
  {
    var out := QuoteEdge(q, done, row, e, sc, t);
    ghost var quote := EdgeQuote(q.g, e, t[|t| - 1][e.from].value.amount);
    assert Offer(q, t, e) == Screen(q, t, e, quote);
    o := Admit(q, done, e, out, row, sc, t, quote);
  }

  /** Writing the new row leaves every finished round as it was. */
  method TakeInto(ghost done: seq<Row>, row: Row, e: EdgeRef, out: BigInt, ghost t: Table)
    requires Ready(done, t, row) && row.Valid() && e.to < |row.view| && out !in row.Repr()
    modifies row.Repr()
    ensures Ready(done, t, row) && row.Valid() && row.view == Improve(old(row.view), e, old(out.v))
    ensures fresh(row.Repr() - old(row.Repr()))
  {
    row.Take(e, out);
  }

  /** Enters an offer, if there is one, into the new row. */
  method EnterOffer(done: seq<Row>, row: Row, e: EdgeRef, o: Option<BigInt>, sc: Scratch,
                    ghost t: Table, ghost offer: Option<int>)
    requires Ready(done, t, row) && Clear(done, row, sc) && row.Valid() && e.to < |row.view| && Offered(o, offer, sc)
    modifies row.Repr()
    ensures Ready(done, t, row) && Clear(done, row, sc) && row.Valid()
    ensures row.view == Consider(old(row.view), e, offer)
    ensures fresh(row.Repr() - old(row.Repr()))
  {
    if o.Some? {
      TakeInto(done, row, e, o.value, t);
    }
  }

  /** One candidate edge. */
  method RelaxOne(q: Query, done: seq<Row>, row: Row, e: EdgeRef, sc: Scratch, ghost t: Table)
    requires q.Valid() && |t| > 0 && Chained(q.N(), t) && Ready(done, t, row) && Clear(done, row, sc)
    requires Joins(q.g.tokens, q.g.pools, e) && t[|t| - 1][e.from].Some?
    requires row.Valid() && |row.view| == q.N()
    modifies sc.cells, row.Repr()
    ensures Ready(done, t, row) && Clear(done, row, sc) && row.Valid()
    ensures row.view == Consider(old(row.view), e, Offer(q, t, e))
    ensures fresh(row.Repr() - old(row.Repr()))
  {
    var o := MakeOffer(q, done, row, e, sc, t);
    EnterOffer(done, row, e, o, sc, t, Offer(q, t, e));
  }

  /** All edges leaving token `i`: only the new row changes. */
  method RelaxToken(q: Query, done: seq<Row>, row: Row, i: nat, sc: Scratch, ghost t: Table)
    requires q.Valid() && |t| > 0 && Chained(q.N(), t) && Ready(done, t, row) && Clear(done, row, sc)
    requires i < q.N() && t[|t| - 1][i].Some?
    requires Holds(row, RelaxEdges(q, t, Scan(q.g.adj, i)))
    modifies sc.cells, row.Repr()
    ensures Ready(done, t, row) && Clear(done, row, sc) && Holds(row, RelaxEdges(q, t, Scan(q.g.adj, i + 1)))
    ensures fresh(row.Repr() - old(row.Repr()))
  {
    var edges := q.g.adj[i];
    ghost var before := Scan(q.g.adj, i);
    assert before + edges[..0] == before;
    for j := 0 to |edges|
      invariant Ready(done, t, row) && Clear(done, row, sc) && Holds(row, RelaxEdges(q, t, before + edges[..j]))
      invariant fresh(row.Repr() - old(row.Repr()))
    {
      RelaxSnoc(q, t, before, edges, j);
      RelaxOne(q, done, row, edges[j], sc, t);
    }
    assert edges[..|edges|] == edges;
  }

  lemma RelaxSnoc(q: Query, t: Table, before: seq<EdgeRef>, edges: seq<EdgeRef>, j: nat)
    requires |t| > 0 && j < |edges|
    ensures RelaxEdges(q, t, before + edges[..j + 1])
         == Consider(RelaxEdges(q, t, before + edges[..j]), edges[j], Offer(q, t, edges[j]))
  {
    var longer := before + edges[..j + 1];
    assert longer[..|longer| - 1] == before + edges[..j];
  }

  /** Edges out of an unseen token offer nothing, so skipping them changes nothing. */
  lemma {:induction false} UnseenOffersNothing(q: Query, t: Table, before: seq<EdgeRef>, edges: seq<EdgeRef>)
    requires |t| > 0
    requires forall e <- edges :: e.from >= |t[|t| - 1]| || t[|t| - 1][e.from].None?
    ensures RelaxEdges(q, t, before + edges) == RelaxEdges(q, t, before)
    decreases |edges|
  {
    if edges == [] {
      assert before + edges == before;
    } else {
      var front := edges[..|edges| - 1];
      UnseenOffersNothing(q, t, before, front);
      RelaxSnoc(q, t, before, edges, |edges| - 1);
      assert edges[..|edges|] == edges;
      assert Offer(q, t, edges[|edges| - 1]).None?;
    }
  }

  lemma UnseenToken(q: Query, t: Table, i: nat)
    requires q.Valid() && |t| > 0 && i < q.N() && |t[|t| - 1]| == q.N() && t[|t| - 1][i].None?
    ensures RelaxEdges(q, t, Scan(q.g.adj, i + 1)) == RelaxEdges(q, t, Scan(q.g.adj, i))
  {
    forall e <- q.g.adj[i]
      ensures e.from == i
    {
      var j :| 0 <= j < |q.g.adj[i]| && q.g.adj[i][j] == e;
    }
    UnseenOffersNothing(q, t, Scan(q.g.adj, i), q.g.adj[i]);
  }

  /** `after(i)` is the new round once the edges of the first `i` tokens have been considered. */
  ghost predicate Stages(after: nat -> Round, q: Query, t: Table) {
    && |t| > 0
    && forall i: nat {:trigger Scan(q.g.adj, i)} ::
         i <= |q.g.adj| ==> after(i) == RelaxEdges(q, t, Scan(q.g.adj, i))
  }

  /** Token `i`: skipped unless it was seen one round earlier. */
  method RelaxOrSkip(q: Query, done: seq<Row>, row: Row, i: nat, sc: Scratch, ghost t: Table, ghost after: nat -> Round)
    requires q.Valid() && Stages(after, q, t) && Linked(q.g, t) && Ready(done, t, row) && Clear(done, row, sc)
    requires i < q.N() && Holds(row, after(i))
    modifies sc.cells, row.Repr()
    ensures Ready(done, t, row) && Clear(done, row, sc) && Holds(row, after(i + 1))
    ensures fresh(row.Repr() - old(row.Repr()))
  {
    assert after(i) == RelaxEdges(q, t, Scan(q.g.adj, i));
    assert after(i + 1) == RelaxEdges(q, t, Scan(q.g.adj, i + 1));
    var last := done[|done| - 1];
    assert Holds(last, t[|t| - 1]);
    if !last.seen[i] {
      UnseenToken(q, t, i);
    } else {
      LinkedChained(q.g, t);
      RelaxToken(q, done, row, i, sc, t);
    }
  }

  /** One round: every token in index order. */
  method RelaxRound(q: Query, done: seq<Row>, row: Row, sc: Scratch, ghost t: Table, ghost after: nat -> Round)
    requires q.Valid() && Stages(after, q, t) && Linked(q.g, t) && Ready(done, t, row) && Clear(done, row, sc)
    requires Holds(row, after(0))
    modifies sc.cells, row.Repr()
    ensures Ready(done, t, row) && Clear(done, row, sc) && Holds(row, after(|q.g.tokens|))
    ensures fresh(row.Repr() - old(row.Repr()))
  {
    for i := 0 to |q.g.tokens|
      invariant Ready(done, t, row) && Clear(done, row, sc) && Holds(row, after(i))
      invariant fresh(row.Repr() - old(row.Repr()))
    {
      RelaxOrSkip(q, done, row, i, sc, t, after);
    }
  }

  ghost function StagesOf(q: Query, t: Table): (after: nat -> Round)
    requires q.Valid() && |t| > 0
    ensures Stages(after, q, t) && after(0) == Unseen(q.N())
    ensures after(|q.g.tokens|) == RelaxEdges(q, t, Scan(q.g.adj, |q.g.adj|))
  {
    (i: nat) => if i <= |q.g.adj| then RelaxEdges(q, t, Scan(q.g.adj, i)) else []
  }

  /** The finished rows: each holds its round, none contains the workspace. */
  ghost predicate Finished(rows: seq<Row>, t: Table, sc: Scratch)
    reads rows, sc.one
    reads set r <- rows :: r.amount
    reads set r <- rows :: r.from
    reads set r <- rows :: r.seen
    reads set r, c | r in rows && c in r.cells :: c
  {
    && |rows| == |t| && sc.Valid()
    && (forall r :: 0 <= r < |rows| ==> Holds(rows[r], t[r]) && rows[r].Repr() !! sc.repr)
  }

  /** Allocates the next row and runs its round; rows already there are left alone. */
  method AddRound(q: Query, rows: seq<Row>, sc: Scratch, ghost t: Table) returns (more: seq<Row>)
    requires q.Valid() && |rows| > 0 && Linked(q.g, t) && Finished(rows, t, sc)
    modifies sc.cells
    ensures Finished(more, t + [RelaxEdges(q, t, Scan(q.g.adj, |q.g.adj|))], sc)
  {
    more := AddStages(q, rows, sc, t, StagesOf(q, t));
  }

  method AddStages(q: Query, rows: seq<Row>, sc: Scratch, ghost t: Table, ghost after: nat -> Round)
    returns (more: seq<Row>)
    requires q.Valid() && |rows| > 0 && Linked(q.g, t) && Finished(rows, t, sc)
    requires Stages(after, q, t) && after(0) == Unseen(q.N())
    modifies sc.cells
    ensures Finished(more, t + [after(|q.g.tokens|)], sc)
  {
    var row := new Row(|q.g.tokens|);
    RelaxRound(q, rows, row, sc, t, after);
    FinishedExtends(rows, t, row, after(|q.g.tokens|), sc);
    more := rows + [row];
  }

  lemma FinishedExtends(rows: seq<Row>, t: Table, row: Row, round: Round, sc: Scratch)
    requires Ready(rows, t, row) && Clear(rows, row, sc) && Holds(row, round)
    ensures Finished(rows + [row], t + [round], sc)
  {
  }

  /** Round 0: the starting token holds the caller's own amount. */
  method StartRows(q: Query, amountIn: BigInt, sc: Scratch) returns (rows: seq<Row>)
    requires q.Valid() && q.amountIn == amountIn.v && sc.Valid() && amountIn !in sc.repr
    ensures Finished(rows, [FirstRound(q)], sc)
  {
    var first := new Row(|q.g.tokens|);
    first.Share(q.src, amountIn);
    rows := [first];
  }

  /**
    `relax`: fills the table round by round. Nothing that existed before is
    written, so the caller's amount, stored in round 0, keeps its value.
   */
  method Relax(q: Query, amountIn: BigInt, maxHops: nat) returns (rows: seq<Row>)
    requires q.Valid() && q.amountIn == amountIn.v
    ensures |rows| == maxHops + 1
    ensures forall k :: 0 <= k <= maxHops ==> Holds(rows[k], Rounds(q, maxHops)[k])
  {
    var sc := new Scratch();
    rows := StartRows(q, amountIn, sc);
    for k := 0 to maxHops
      invariant fresh(sc.repr) && Finished(rows, Rounds(q, k), sc)
    {
      RoundsLinked(q, k);
      rows := AddRound(q, rows, sc, Rounds(q, k));
    }
  }

  /** `bestRoundFor` over the rows. */
  method BestRoundFor(rows: seq<Row>, rounds: nat, token: nat, ghost t: Table) returns (best: Option<nat>)
    requires |rows| == rounds + 1 == |t|
    requires forall r :: 0 <= r <= rounds ==> Holds(rows[r], t[r]) && token < |t[r]|
    ensures best == BestRound(t, rounds, token)
  {
    best := None;
    for k := 1 to rounds + 1
      invariant best == BestRound(t, k - 1, token)
    {
      assert Holds(rows[k], t[k]);
      if !rows[k].seen[token] {
        continue;
      }
      assert best.Some? ==> Holds(rows[best.value], t[best.value]);
      if best.None? || rows[k].amount[token].v > rows[best.value].amount[token].v {
        best := Some(k);
      }
    }
  }

  /** The last hop into (k, token), and the token it leaves. */
  method LastHop(g: Graph, rows: seq<Row>, k: nat, token: nat, ghost t: Table)
    returns (hop: Hop, before: nat, ghost front: seq<Hop>)
    requires 0 < k < |t| <= |rows| && Linked(g, t) && token < |g.tokens| && t[k][token].Some?
    requires Holds(rows[k], t[k]) && Holds(rows[k - 1], t[k - 1])
    ensures before < |g.tokens| && t[k - 1][before].Some?
    ensures front == Hops(g, t, k - 1, before) && Hops(g, t, k, token) == front + [hop]
  {
    var e := rows[k].from[token];
    before := e.from;
    hop := HopOver(g, e, rows[k - 1].amount[e.from].v, rows[k].amount[e.to].v);
    front := Hops(g, t, k - 1, before);
  }

  lemma Regroup(front: seq<Hop>, hop: Hop, hops: seq<Hop>)
    ensures (front + [hop]) + hops == front + ([hop] + hops)
  {
  }

  /** `reconstruct`: walks the predecessor edges back from the destination. */
  method Reconstruct(g: Graph, rows: seq<Row>, dst: nat, rounds: nat, ghost t: Table) returns (hops: seq<Hop>)
    requires rounds < |t| <= |rows| && Linked(g, t) && dst < |g.tokens| && t[rounds][dst].Some?
    requires forall r :: 0 <= r <= rounds ==> Holds(rows[r], t[r])
    ensures hops == Hops(g, t, rounds, dst)
  {
    hops := [];
    ghost var goal := Hops(g, t, rounds, dst);
    ghost var front := goal;
    var token: nat := dst;
    var k: nat := rounds;
    while k >= 1
      invariant k <= rounds && token < |g.tokens| && t[k][token].Some?
      invariant |front| == k && front == Hops(g, t, k, token)
      invariant goal == front + hops
    {
      var hop, before;
      hop, before, front := LastHop(g, rows, k, token, t);
      assert goal == front + ([hop] + hops) by {
        Regroup(front, hop, hops);
      }
      hops := [hop] + hops;
      token, k := before, k - 1;
    }
  }

  method FindPool(pools: seq<Pool>, address: string) returns (p: Option<Pool>)
    ensures p == PoolByAddress(pools, address)
  {
    assert pools[0..] == pools;
    for i := 0 to |pools|
      invariant PoolByAddress(pools, address) == PoolByAddress(pools[i..], address)
    {
      assert pools[i..][1..] == pools[i + 1..];
      if pools[i].address == address {
        return Some(pools[i]);
      }
    }
    return None;
  }

  lemma {:induction false} ProbeStops(pools: seq<Pool>, hops: seq<Hop>, k: nat, amount: int)
    requires k <= |hops| && Probe(pools, hops[..k], amount).None?
    ensures Probe(pools, hops, amount).None?
    decreases |hops| - k
  {
    if k < |hops| {
      assert hops[..k + 1][..k] == hops[..k];
      ProbeStops(pools, hops, k + 1, amount);
    } else {
      assert hops[..k] == hops;
    }
  }

  /** The probe loop: sells the probe hop by hop, giving up at the first hop that cannot quote. */
  method ProbeRoute(pools: seq<Pool>, hops: seq<Hop>, probeIn: int) returns (probeOut: Option<int>)
    requires CachesReady(pools)
    ensures probeOut == Probe(pools, hops, probeIn)
  {
    var amount := new BigInt(probeIn);
    for k := 0 to |hops|
      invariant Probe(pools, hops[..k], probeIn) == Some(amount.v)
    {
      assert hops[..k + 1][..k] == hops[..k];
      var pool := FindPool(pools, hops[k].poolAddress);
      if pool.None? {
        ProbeStops(pools, hops, k + 1, probeIn);
        return None;
      }
      FoundPool(pools, hops[k].poolAddress);
      var next := AmountOut(pool.value, amount, hops[k].tokenIn);
      if next.Err? || next.value.v <= 0 {
        ProbeStops(pools, hops, k + 1, probeIn);
        return None;
      }
      amount := next.value;
    }
    assert hops[..|hops|] == hops;
    return Some(amount.v);
  }

  /** `priceImpact`: re-prices the same path at a probe size. */
  method MeasureImpact(pools: seq<Pool>, hops: seq<Hop>, amountIn: int, amountOut: int) returns (bps: int)
    requires CachesReady(pools)
    ensures bps == PriceImpact(pools, hops, amountIn, amountOut)
  {
    if |hops| == 0 || amountIn <= 0 {
      return 0;
    }
    var probeIn := amountIn / 1000;
    if probeIn <= 0 {
      probeIn := 1;
    }
    var probeOut := ProbeRoute(pools, hops, probeIn);
    if probeOut.None? {
      return 0;
    }
    var expected := probeOut.value * amountIn;
    expected := expected / probeIn;
    bps := MeasureShortfall(expected, amountOut);
  }

  method MeasureShortfall(expected: int, amountOut: int) returns (bps: int)
    ensures bps == ShortfallBps(expected, amountOut)
  {
    if expected <= 0 {
      return 0;
    }
    var shortfall := expected - amountOut;
    if shortfall <= 0 {
      return 0;
    }
    shortfall := shortfall * BPS_SCALE;
    shortfall := shortfall / expected;
    return if shortfall > MAX_INT64 then BPS_SCALE else shortfall;
  }

  lemma {:induction false} FoundPool(pools: seq<Pool>, address: string)
    ensures PoolByAddress(pools, address).Some? ==> PoolByAddress(pools, address).value in pools
  {
    if pools != [] {
      FoundPool(pools[1..], address);
    }
  }

  /**
    `FindBestRoute`: refuses bad requests and unknown tokens, and otherwise returns
    exactly the best route of the pure table.
   */
  method FindBestRoute(s: Snapshot?, tokenIn: string, tokenOut: string, amountIn: BigInt?, maxHops: int)
    returns (r: Result<Route>)
    requires s != null ==> s.Valid()
    ensures s == null || amountIn == null ==> r == Err(BadRequest)
    ensures s != null && amountIn != null ==>
      && WellFormed(s.View())
      && r == BestRoute(s.View(), tokenIn, tokenOut, amountIn.v, maxHops)
  {
    if s == null {
      return Err(BadRequest);
    }
    IndexedDistinct(s.tokens, s.index);
    if amountIn == null || amountIn.v <= 0 {
      return Err(BadRequest);
    }
    if maxHops < 1 {
      return Err(BadRequest);
    }
    var g := s.View();
    var src := s.TokenIndex(tokenIn);
    SameIndex(g.tokens, src, Normalize(tokenIn));
    if src.None? {
      return Err(UnknownToken);
    }
    var dst := s.TokenIndex(tokenOut);
    SameIndex(g.tokens, dst, Normalize(tokenOut));
    if dst.None? {
      return Err(UnknownToken);
    }
    if src.value == dst.value {
      return Err(BadRequest);
    }
    r := SearchRoute(RouteQuery(g, src.value, amountIn.v), dst.value, amountIn, maxHops);
  }

  /** Keys are distinct, so the map lookup and the first match agree. */
  lemma SameIndex(tokens: seq<Token>, i: Option<nat>, key: string)
    requires DistinctTokens(tokens)
    requires i.Some? ==> i.value < |tokens| && Key(tokens, i.value) == key
    requires i.None? ==> forall j :: 0 <= j < |tokens| ==> Key(tokens, j) != key
    ensures i == FindToken(tokens, key)
  {
  }

  /** The search proper: relax, pick the round, read the hops back. */
  method SearchRoute(q: Query, dst: nat, amountIn: BigInt, maxHops: nat) returns (r: Result<Route>)
    requires q.Valid() && q.amountIn == amountIn.v && dst < q.N()
    ensures Linked(q.g, Rounds(q, maxHops))
    ensures r == match BestRound(Rounds(q, maxHops), maxHops, dst)
      case None => Err(NoRoute)
      case Some(k) =>
        var hops := Hops(q.g, Rounds(q, maxHops), k, dst);
        var out := Rounds(q, maxHops)[k][dst].value.amount;
        Ok(Route(hops, q.amountIn, out, PriceImpact(q.g.pools, hops, q.amountIn, out)))
  {
    ghost var t := Rounds(q, maxHops);
    RoundsLinked(q, maxHops);
    var rows := Relax(q, amountIn, maxHops);
    var best := BestRoundFor(rows, maxHops, dst, t);
    if best.None? {
      return Err(NoRoute);
    }
    var hops := Reconstruct(q.g, rows, dst, best.value, t);
    assert Holds(rows[best.value], t[best.value]);
    var out := rows[best.value].amount[dst].v;
    var bps := MeasureImpact(q.g.pools, hops, q.amountIn, out);
    return Ok(Route(hops, q.amountIn, out, bps));
  }
}
