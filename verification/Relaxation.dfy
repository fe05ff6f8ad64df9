/**
  The hop-indexed relaxation of internal/graph/router.go as a pure function: the
  table of best amounts per (hops, token), the filtered Bellman equation it
  satisfies, and what its chains of predecessors guarantee.
 */
module Relaxation {
  import opened Common
  import opened Dex
  import opened Snapshots

  datatype Cell = Cell(amount: int, edge: EdgeRef)

  type Round = seq<Option<Cell>>
  type Table = seq<Round>

  /** `relaxMode`. */
  datatype Mode = SimplePaths | ClosedLoops

  const NO_EDGE := EdgeRef(0, 0, 0)

  /** A search: the graph, the starting token, the amount to sell and the mode. */
  datatype Query = Query(g: Graph, src: nat, amountIn: int, mode: Mode) {
    predicate Valid() {
      WellFormed(g) && src < |g.tokens| && amountIn > 0
    }

    function N(): nat { |g.tokens| }
  }

  // ----- the table -----

  /** Tokens on the predecessor chain of (k, token), starting token first. */
  function Chain(t: Table, k: nat, token: nat): (c: seq<nat>)
    ensures |c| > 0 && c[|c| - 1] == token
  {
    if k == 0 || k >= |t| || token >= |t[k]| || t[k][token].None? then [token]
    else Chain(t, k - 1, t[k][token].value.edge.from) + [token]
  }

  /** `mayVisit`: a token already on the chain is refused, unless it closes a loop. */
  predicate MayVisit(q: Query, t: Table, hops: nat, from: nat, next: nat) {
    if next == q.src then q.mode.ClosedLoops? else next !in Chain(t, hops, from)
  }

  /** Every edge, in the order the relaxation scans them. */
  function Scan(adj: Adjacency, n: nat): seq<EdgeRef>
    requires n <= |adj|
  {
    if n == 0 then [] else Scan(adj, n - 1) + adj[n - 1]
  }

  function EdgeQuote(g: Graph, e: EdgeRef, amount: int): Result<nat>
    requires Joins(g.tokens, g.pools, e)
  {
    Quote(g.pools[e.pool], amount, g.tokens[e.from].address)
  }

  /** What edge `e` offers for its target, given the rounds so far. */
  function Offer(q: Query, t: Table, e: EdgeRef): Option<int>
    requires |t| > 0
  {
    var prev := t[|t| - 1];
    if !Joins(q.g.tokens, q.g.pools, e) || e.from >= |prev| || prev[e.from].None? then None
    else Screen(q, t, e, EdgeQuote(q.g, e, prev[e.from].value.amount))
  }

  /** The skip tests: the quote succeeded, is positive, and the target is not yet on the chain. */
  function Screen(q: Query, t: Table, e: EdgeRef, quote: Result<nat>): Option<int>
    requires |t| > 0
  {
    match quote
    case Err(_) => None
    case Ok(out) => if out > 0 && MayVisit(q, t, |t| - 1, e.from, e.to) then Some(out) else None
  }

  /** A candidate replaces the cell only when strictly better. */
  function Improve(row: Round, e: EdgeRef, out: int): (r: Round)
    requires e.to < |row|
    ensures |r| == |row|
  {
    if row[e.to].Some? && row[e.to].value.amount >= out then row else row[e.to := Some(Cell(out, e))]
  }

  /** One candidate edge, with what it offers. */
  function Consider(row: Round, e: EdgeRef, o: Option<int>): (r: Round)
    ensures |r| == |row|
  {
    if o.Some? && e.to < |row| then Improve(row, e, o.value) else row
  }

  function BestOffers(offer: EdgeRef -> Option<int>, edges: seq<EdgeRef>, n: nat): (r: Round)
    ensures |r| == n
  {
    if edges == [] then Unseen(n)
    else
      var last := edges[|edges| - 1];
      Consider(BestOffers(offer, edges[..|edges| - 1], n), last, offer(last))
  }

  function Offers(q: Query, t: Table): EdgeRef -> Option<int>
    requires |t| > 0
  {
    e => Offer(q, t, e)
  }

  /** One round over the given edges, starting from an unseen row. */
  function RelaxEdges(q: Query, t: Table, edges: seq<EdgeRef>): (r: Round)
    requires |t| > 0
    ensures |r| == q.N()
  {
    BestOffers(Offers(q, t), edges, q.N())
  }

  function Unseen(n: nat): (r: Round)
    ensures |r| == n && forall i :: 0 <= i < n ==> r[i].None?
  {
    seq(n, i => None)
  }

  function FirstRound(q: Query): (r: Round)
    requires q.src < q.N()
    ensures |r| == q.N()
  {
    Unseen(q.N())[q.src := Some(Cell(q.amountIn, NO_EDGE))]
  }

  /** The table after `k` rounds: round r holds the best amounts after exactly r hops. */
  function Rounds(q: Query, k: nat): (t: Table)
    requires q.Valid()
    ensures |t| == k + 1 && forall r :: 0 <= r <= k ==> |t[r]| == q.N()
  {
    if k == 0 then [FirstRound(q)]
    else
      var t := Rounds(q, k - 1);
      t + [RelaxEdges(q, t, Scan(q.g.adj, |q.g.adj|))]
  }

  // ----- the filtered Bellman equation -----

  /** `cell` is the best offer for token `j`, made by the first edge in scan order to attain it. */
  predicate FirstBest(offer: EdgeRef -> Option<int>, edges: seq<EdgeRef>, j: nat, cell: Cell, i: nat) {
    && i < |edges| && edges[i] == cell.edge && edges[i].to == j
    && offer(edges[i]) == Some(cell.amount)
    && (forall m :: 0 <= m < |edges| && edges[m].to == j && offer(edges[m]).Some? ==>
          offer(edges[m]).value <= cell.amount)
    && (forall m :: 0 <= m < i && edges[m].to == j && offer(edges[m]).Some? ==>
          offer(edges[m]).value < cell.amount)
  }

  predicate NoOffer(offer: EdgeRef -> Option<int>, edges: seq<EdgeRef>, j: nat) {
    forall m :: 0 <= m < |edges| && edges[m].to == j ==> offer(edges[m]).None?
  }

  /** A cell is seen iff some edge offers; then it holds the first best offer. */
  lemma {:induction false} BestOffersSpec(offer: EdgeRef -> Option<int>, edges: seq<EdgeRef>, n: nat, j: nat)
    requires j < n
    ensures var row := BestOffers(offer, edges, n);
      && (row[j].None? <==> NoOffer(offer, edges, j))
      && (row[j].Some? ==> exists i :: FirstBest(offer, edges, j, row[j].value, i))
  {
    if edges != [] {
      var front, last := edges[..|edges| - 1], edges[|edges| - 1];
      BestOffersSpec(offer, front, n, j);
      var before := BestOffers(offer, front, n);
      var after := BestOffers(offer, edges, n);
      var o := offer(last);
      assert forall m :: 0 <= m < |front| ==> front[m] == edges[m];
      if last.to == j && o.Some? && (before[j].None? || before[j].value.amount < o.value) {
        assert FirstBest(offer, edges, j, after[j].value, |edges| - 1);
      } else if before[j].Some? {
        var i :| FirstBest(offer, front, j, before[j].value, i);
        assert FirstBest(offer, edges, j, after[j].value, i);
      }
    }
  }

  /**
    The filtered Bellman equation: in round k a token is seen iff some edge from a
    token seen one round earlier quotes a positive amount and passes the chain
    test; its amount is the maximum of those quotes, and its predecessor is the
    first edge in scan order that attains it.
   */
  lemma Bellman(q: Query, k: nat, j: nat)
    requires q.Valid() && k > 0 && j < q.N()
    ensures var offer := Offers(q, Rounds(q, k - 1));
      var edges := Scan(q.g.adj, |q.g.adj|);
      var cell := Rounds(q, k)[k][j];
      && (cell.None? <==> NoOffer(offer, edges, j))
      && (cell.Some? ==> exists i :: FirstBest(offer, edges, j, cell.value, i))
  {
    BestOffersSpec(Offers(q, Rounds(q, k - 1)), Scan(q.g.adj, |q.g.adj|), q.N(), j);
  }

  /** Round k of any longer table is round k: it depends on earlier rounds only. */
  lemma {:induction false} RoundsPrefix(q: Query, k: nat, m: nat)
    requires q.Valid() && k <= m
    ensures Rounds(q, m)[..k + 1] == Rounds(q, k)
    decreases m
  {
    if k < m {
      RoundsPrefix(q, k, m - 1);
      assert Rounds(q, m)[..m] == Rounds(q, m - 1);
      assert Rounds(q, m)[..k + 1] == Rounds(q, m)[..m][..k + 1];
    } else {
      assert Rounds(q, m)[..k + 1] == Rounds(q, m);
    }
  }

  lemma {:induction false} ChainPrefix(t: Table, u: Table, k: nat, token: nat)
    requires k < |t| && k < |u| && t[..k + 1] == u[..k + 1]
    ensures Chain(t, k, token) == Chain(u, k, token)
  {
    assert t[k] == t[..k + 1][k] == u[k];
    if k > 0 {
      assert t[..k] == t[..k + 1][..k] == u[..k];
      if token < |t[k]| && t[k][token].Some? {
        ChainPrefix(t, u, k - 1, t[k][token].value.edge.from);
      }
    }
  }

  lemma {:induction false} ScanMembers(adj: Adjacency, n: nat, e: EdgeRef)
    requires n <= |adj|
    ensures e in Scan(adj, n) <==> exists i :: 0 <= i < n && e in adj[i]
  {
    if n > 0 {
      ScanMembers(adj, n - 1, e);
    }
  }

  /** Edges scanned before those of token `i`. */
  function ScannedBefore(adj: Adjacency, i: nat): nat
    requires i <= |adj|
  {
    if i == 0 then 0 else ScannedBefore(adj, i - 1) + |adj[i - 1]|
  }

  /** Scan order: tokens in index order, each token's edges in insertion order. */
  lemma {:induction false} ScanOrder(adj: Adjacency, n: nat, i: nat, j: nat)
    requires i < n <= |adj| && j < |adj[i]|
    ensures |Scan(adj, n)| == ScannedBefore(adj, n)
    ensures ScannedBefore(adj, i) + j < |Scan(adj, n)| && Scan(adj, n)[ScannedBefore(adj, i) + j] == adj[i][j]
  {
    ScanLength(adj, n - 1);
    ScanLength(adj, n);
    if i < n - 1 {
      ScanOrder(adj, n - 1, i, j);
    }
  }

  lemma {:induction false} ScanLength(adj: Adjacency, n: nat)
    requires n <= |adj|
    ensures |Scan(adj, n)| == ScannedBefore(adj, n)
  {
    if n > 0 {
      ScanLength(adj, n - 1);
    }
  }

  predicate EdgeOf(g: Graph, e: EdgeRef) {
    e.from < |g.adj| && e in g.adj[e.from]
  }

  lemma ScanIsEdges(g: Graph, e: EdgeRef)
    requires WellFormed(g)
    ensures e in Scan(g.adj, |g.adj|) <==> EdgeOf(g, e)
    ensures EdgeOf(g, e) ==> Joins(g.tokens, g.pools, e)
  {
    ScanMembers(g.adj, |g.adj|, e);
    if e in Scan(g.adj, |g.adj|) {
      var i :| 0 <= i < |g.adj| && e in g.adj[i];
      var j :| 0 <= j < |g.adj[i]| && g.adj[i][j] == e;
      assert e.from == i;
    }
    if EdgeOf(g, e) {
      var j :| 0 <= j < |g.adj[e.from]| && g.adj[e.from][j] == e;
    }
  }

  /** How a cell of round k >= 1 was reached. */
  predicate Justified(q: Query, t: Table, k: nat, j: nat) {
    && 0 < k < |t| && j < |t[k]| && t[k][j].Some?
    && var c := t[k][j].value;
       && c.edge.to == j && EdgeOf(q.g, c.edge) && Joins(q.g.tokens, q.g.pools, c.edge)
       && c.edge.from < |t[k - 1]| && t[k - 1][c.edge.from].Some?
       && EdgeQuote(q.g, c.edge, t[k - 1][c.edge.from].value.amount) == Ok(c.amount)
       && c.amount > 0
       && (if j == q.src then q.mode.ClosedLoops? else j !in Chain(t, k - 1, c.edge.from))
  }

  lemma RoundAt(q: Query, k: nat, m: nat)
    requires q.Valid() && k <= m
    ensures Rounds(q, m)[k] == Rounds(q, k)[k]
  {
    RoundsPrefix(q, k, m);
    assert Rounds(q, m)[k] == Rounds(q, m)[..k + 1][k];
  }

  lemma ChainAt(q: Query, m: nat, k: nat, token: nat)
    requires q.Valid() && k <= m
    ensures Chain(Rounds(q, m), k, token) == Chain(Rounds(q, k), k, token)
  {
    RoundsPrefix(q, k, m);
    assert Rounds(q, k)[..k + 1] == Rounds(q, k);
    ChainPrefix(Rounds(q, m), Rounds(q, k), k, token);
  }

  /** Rounds k - 1 and k of a longer table are the last two rounds of the table of k rounds. */
  lemma LastRounds(q: Query, m: nat, k: nat, token: nat)
    requires q.Valid() && 0 < k <= m
    ensures Rounds(q, m)[k] == Rounds(q, k)[k]
    ensures Rounds(q, m)[k - 1] == Rounds(q, k - 1)[k - 1]
    ensures Chain(Rounds(q, m), k - 1, token) == Chain(Rounds(q, k - 1), k - 1, token)
  {
    var t: Table := Rounds(q, m);
    assert t[k] == Rounds(q, k)[k] by {
      RoundAt(q, k, m);
    }
    assert t[k - 1] == Rounds(q, k - 1)[k - 1] by {
      RoundAt(q, k - 1, m);
    }
    assert Chain(t, k - 1, token) == Chain(Rounds(q, k - 1), k - 1, token) by {
      ChainAt(q, m, k - 1, token);
    }
  }

  lemma CellJustified(q: Query, m: nat, k: nat, j: nat)
    requires q.Valid() && 0 < k <= m && j < q.N() && Rounds(q, m)[k][j].Some?
    ensures Justified(q, Rounds(q, m), k, j)
  {
    var u: Table := Rounds(q, k - 1);
    var c := Rounds(q, m)[k][j].value;
    LastRounds(q, m, k, c.edge.from);
    RoundMade(q, k, j);
    OfferNeeds(q, u, c.edge, c.amount);
  }

  /** What an edge must satisfy to offer `amount`. */
  lemma OfferNeeds(q: Query, u: Table, e: EdgeRef, amount: int)
    requires |u| > 0 && Offer(q, u, e) == Some(amount)
    ensures Joins(q.g.tokens, q.g.pools, e) && e.from < |u[|u| - 1]| && u[|u| - 1][e.from].Some?
    ensures EdgeQuote(q.g, e, u[|u| - 1][e.from].value.amount) == Ok(amount) && amount > 0
    ensures MayVisit(q, u, |u| - 1, e.from, e.to)
  {
  }

  lemma RoundMade(q: Query, k: nat, j: nat)
    requires q.Valid() && k > 0 && j < q.N() && Rounds(q, k)[k][j].Some?
    ensures var c := Rounds(q, k)[k][j].value;
      c.edge.to == j && EdgeOf(q.g, c.edge) && Offer(q, Rounds(q, k - 1), c.edge) == Some(c.amount)
  {
    BestMade(Offers(q, Rounds(q, k - 1)), Scan(q.g.adj, |q.g.adj|), q.N(), j);
    ScanIsEdges(q.g, Rounds(q, k)[k][j].value.edge);
  }

  lemma BestMade(offer: EdgeRef -> Option<int>, edges: seq<EdgeRef>, n: nat, j: nat)
    requires j < n && BestOffers(offer, edges, n)[j].Some?
    ensures var c := BestOffers(offer, edges, n)[j].value;
      c.edge in edges && c.edge.to == j && offer(c.edge) == Some(c.amount)
  {
    BestOffersSpec(offer, edges, n, j);
    var i :| FirstBest(offer, edges, j, BestOffers(offer, edges, n)[j].value, i);
  }

  /** Every edge out of a seen cell that quotes a positive amount and passes the chain test is matched. */
  lemma CellDominates(q: Query, m: nat, k: nat, e: EdgeRef, out: int)
    requires q.Valid() && 0 < k <= m && EdgeOf(q.g, e)
    requires Joins(q.g.tokens, q.g.pools, e)
    requires var t := Rounds(q, m);
      && t[k - 1][e.from].Some?
      && EdgeQuote(q.g, e, t[k - 1][e.from].value.amount) == Ok(out) && out > 0
      && (if e.to == q.src then q.mode.ClosedLoops? else e.to !in Chain(t, k - 1, e.from))
    ensures Rounds(q, m)[k][e.to].Some? && Rounds(q, m)[k][e.to].value.amount >= out
  {
    var u: Table := Rounds(q, k - 1);
    assert Offer(q, u, e) == Some(out) by {
      LastRounds(q, m, k, e.from);
      OfferMade(q, u, e, out);
    }
    RoundDominates(q, k, e, out);
    RoundAt(q, k, m);
  }

  lemma RoundDominates(q: Query, k: nat, e: EdgeRef, out: int)
    requires q.Valid() && k > 0 && EdgeOf(q.g, e) && e.to < q.N() && Offer(q, Rounds(q, k - 1), e) == Some(out)
    ensures Rounds(q, k)[k][e.to].Some? && Rounds(q, k)[k][e.to].value.amount >= out
  {
    ScanIsEdges(q.g, e);
    BestDominates(Offers(q, Rounds(q, k - 1)), Scan(q.g.adj, |q.g.adj|), q.N(), e, out);
  }

  lemma BestDominates(offer: EdgeRef -> Option<int>, edges: seq<EdgeRef>, n: nat, e: EdgeRef, out: int)
    requires e in edges && e.to < n && offer(e) == Some(out)
    ensures var row := BestOffers(offer, edges, n); row[e.to].Some? && row[e.to].value.amount >= out
  {
    BestOffersSpec(offer, edges, n, e.to);
    var m :| 0 <= m < |edges| && edges[m] == e;
    var cell := BestOffers(offer, edges, n)[e.to].value;
    var i :| FirstBest(offer, edges, e.to, cell, i);
  }

  /**
    A token is seen in round k exactly when some edge into it, from a token seen one
    round earlier, quotes a positive amount and the token is not on that chain yet;
    the start is refused, or on closed loops always accepted.
   */
  lemma SeenIff(q: Query, m: nat, k: nat, j: nat)
    requires q.Valid() && 0 < k <= m && j < q.N()
    ensures Rounds(q, m)[k][j].Some? <==> exists e: EdgeRef :: Reaches(q, Rounds(q, m), k, e, j)
  {
    if Rounds(q, m)[k][j].Some? {
      CellJustified(q, m, k, j);
      assert Reaches(q, Rounds(q, m), k, Rounds(q, m)[k][j].value.edge, j);
    }
    if exists e: EdgeRef :: Reaches(q, Rounds(q, m), k, e, j) {
      var e: EdgeRef :| Reaches(q, Rounds(q, m), k, e, j);
      CellDominates(q, m, k, e, EdgeQuote(q.g, e, Rounds(q, m)[k - 1][e.from].value.amount).value);
    }
  }

  predicate Reaches(q: Query, t: Table, k: nat, e: EdgeRef, j: nat) {
    && 0 < k <= |t| && e.to == j && EdgeOf(q.g, e) && Joins(q.g.tokens, q.g.pools, e)
    && e.from < |t[k - 1]| && t[k - 1][e.from].Some?
    && (match EdgeQuote(q.g, e, t[k - 1][e.from].value.amount)
        case Ok(out) => out > 0
        case Err(_) => false)
    && (if j == q.src then q.mode.ClosedLoops? else j !in Chain(t, k - 1, e.from))
  }

  lemma OfferMade(q: Query, u: Table, e: EdgeRef, out: int)
    requires |u| > 0 && Joins(q.g.tokens, q.g.pools, e) && e.from < |u[|u| - 1]| && u[|u| - 1][e.from].Some?
    requires EdgeQuote(q.g, e, u[|u| - 1][e.from].value.amount) == Ok(out) && out > 0
    requires MayVisit(q, u, |u| - 1, e.from, e.to)
    ensures Offer(q, u, e) == Some(out)
  {
  }

  // ----- chains and paths -----

  /** The edges along the predecessor chain of (k, token). */
  function Path(t: Table, k: nat, token: nat): seq<EdgeRef> {
    if k == 0 || k >= |t| || token >= |t[k]| || t[k][token].None? then []
    else
      var e := t[k][token].value.edge;
      Path(t, k - 1, e.from) + [e]
  }

  /** Selling `amount` edge after edge at this snapshot. */
  function Replay(g: Graph, amount: int, path: seq<EdgeRef>): Result<int>
    requires forall e <- path :: Joins(g.tokens, g.pools, e)
  {
    if path == [] then Ok(amount)
    else
      match Replay(g, amount, path[..|path| - 1])
      case Err(e) => Err(e)
      case Ok(x) => EdgeQuote(g, path[|path| - 1], x)
  }

  predicate Distinct<T(==)>(s: seq<T>) {
    forall i, j :: 0 <= i < j < |s| ==> s[i] != s[j]
  }

  /** `path` follows edges of the graph through `tokens`. */
  predicate Follows(g: Graph, path: seq<EdgeRef>, tokens: seq<nat>) {
    && |tokens| == |path| + 1
    && forall i :: 0 <= i < |path| ==>
         && EdgeOf(g, path[i]) && Joins(g.tokens, g.pools, path[i])
         && path[i].from == tokens[i] && path[i].to == tokens[i + 1]
  }

  lemma FirstRoundSeen(q: Query, m: nat, j: nat)
    requires q.Valid() && j < q.N()
    ensures Rounds(q, m)[0] == FirstRound(q)
    ensures Rounds(q, m)[0][j].Some? <==> j == q.src
  {
    RoundsPrefix(q, 0, m);
    assert Rounds(q, m)[0] == Rounds(q, m)[..1][0];
  }

  lemma ReplayExtends(g: Graph, amount: int, path: seq<EdgeRef>, mid: int, e: EdgeRef, out: int)
    requires (forall f <- path :: Joins(g.tokens, g.pools, f)) && Joins(g.tokens, g.pools, e)
    requires Replay(g, amount, path) == Ok(mid) && EdgeQuote(g, e, mid) == Ok(out)
    ensures Replay(g, amount, path + [e]) == Ok(out)
  {
    assert (path + [e])[..|path|] == path;
  }

  /** A seen cell's chain is a path of exactly k edges from the starting token that replays to its amount. */
  lemma {:induction false} PathFollows(q: Query, m: nat, k: nat, j: nat)
    requires q.Valid() && k <= m && j < q.N() && Rounds(q, m)[k][j].Some?
    ensures var (path, tokens) := (Path(Rounds(q, m), k, j), Chain(Rounds(q, m), k, j));
      && |path| == k && Follows(q.g, path, tokens) && tokens[0] == q.src && tokens[k] == j
      && Replay(q.g, q.amountIn, path) == Ok(Rounds(q, m)[k][j].value.amount)
    decreases k
  {
    FirstRoundSeen(q, m, j);
    if k > 0 {
      CellJustified(q, m, k, j);
      var e := Rounds(q, m)[k][j].value.edge;
      PathFollows(q, m, k - 1, e.from);
      var t: Table := Rounds(q, m);
      var (before, tokens) := (Path(t, k - 1, e.from), Chain(t, k - 1, e.from));
      assert Path(t, k, j) == before + [e] && Chain(t, k, j) == tokens + [j];
      FollowsExtends(q.g, before, tokens, e);
      ReplayExtends(q.g, q.amountIn, before, t[k - 1][e.from].value.amount, e, t[k][j].value.amount);
    }
  }

  lemma FollowsExtends(g: Graph, path: seq<EdgeRef>, tokens: seq<nat>, e: EdgeRef)
    requires Follows(g, path, tokens) && EdgeOf(g, e) && Joins(g.tokens, g.pools, e)
    requires e.from == tokens[|path|]
    ensures Follows(g, path + [e], tokens + [e.to])
  {
  }

  /** On simple paths no token is visited twice. */
  lemma {:induction false} ChainSimple(q: Query, m: nat, k: nat, j: nat)
    requires q.Valid() && q.mode.SimplePaths? && k <= m && j < q.N() && Rounds(q, m)[k][j].Some?
    ensures Distinct(Chain(Rounds(q, m), k, j))
    decreases k
  {
    if k > 0 {
      var before := Rounds(q, m)[k][j].value.edge.from;
      CellJustified(q, m, k, j);
      ChainSimple(q, m, k - 1, before);
      DistinctSnoc(Chain(Rounds(q, m), k - 1, before), j);
    }
  }

  lemma DistinctSnoc(c: seq<nat>, x: nat)
    requires Distinct(c) && x !in c
    ensures Distinct(c + [x])
  {
  }

  /** Edges of one pool join the same two tokens. */
  lemma SamePoolSameTokens(g: Graph, e: EdgeRef, f: EdgeRef)
    requires WellFormed(g) && Joins(g.tokens, g.pools, e) && Joins(g.tokens, g.pools, f) && e.pool == f.pool
    ensures (e.from == f.from && e.to == f.to) || (e.from == f.to && e.to == f.from)
         || (e.from == e.to && f.from == f.to && e.from == f.from)
  {
  }

  /** A path through distinct tokens never meets the same pool twice. */
  lemma DistinctTokensDistinctPools(g: Graph, path: seq<EdgeRef>, tokens: seq<nat>)
    requires WellFormed(g) && Follows(g, path, tokens) && Distinct(tokens)
    ensures forall i, j :: 0 <= i < j < |path| ==> path[i].pool != path[j].pool
  {
    forall i, j | 0 <= i < j < |path|
      ensures path[i].pool != path[j].pool
    {
      assert tokens[i] != tokens[j] && tokens[i] != tokens[j + 1];
      if path[i].pool == path[j].pool {
        SamePoolSameTokens(g, path[i], path[j]);
        assert false;
      }
    }
  }
}
