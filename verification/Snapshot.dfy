/** The routable token graph built from a set of pools (internal/graph/snapshot.go). */
module Snapshots {
  import opened Common
  import opened Dex
  import opened Text
  import V3 = SwapV3
  import TM = TickMath

  datatype EdgeRef = EdgeRef(pool: nat, from: nat, to: nat)

  /** What a built snapshot holds, as a value. */
  datatype Graph = Graph(tokens: seq<Token>, pools: seq<Pool>, adj: seq<seq<EdgeRef>>)

  type Adjacency = seq<seq<EdgeRef>>

  function Key(tokens: seq<Token>, i: nat): string
    requires i < |tokens|
  {
    Normalize(tokens[i].address)
  }

  /** The edge sells one of its pool's tokens for the other. */
  predicate Joins(tokens: seq<Token>, pools: seq<Pool>, e: EdgeRef) {
    && e.pool < |pools| && e.from < |tokens| && e.to < |tokens|
    && var p := pools[e.pool];
       var (k0, k1) := (Normalize(p.token0.address), Normalize(p.token1.address));
       || (Key(tokens, e.from) == k0 && Key(tokens, e.to) == k1)
       || (Key(tokens, e.from) == k1 && Key(tokens, e.to) == k0)
  }

  predicate EdgesJoin(tokens: seq<Token>, pools: seq<Pool>, adj: Adjacency) {
    && |adj| == |tokens|
    && forall i, j :: 0 <= i < |adj| && 0 <= j < |adj[i]| ==> adj[i][j].from == i && Joins(tokens, pools, adj[i][j])
  }

  predicate DistinctTokens(tokens: seq<Token>) {
    forall i, j :: 0 <= i < j < |tokens| ==> Key(tokens, i) != Key(tokens, j)
  }

  predicate CachesReady(pools: seq<Pool>) {
    forall p <- pools :: V3.CachesValid(p.ticks)
  }

  predicate WellFormed(g: Graph) {
    EdgesJoin(g.tokens, g.pools, g.adj) && DistinctTokens(g.tokens) && CachesReady(g.pools)
  }

  // ----- which pools are kept -----

  predicate Positive(n: Option<int>) {
    n.Some? && n.value > 0
  }

  predicate Usable(p: Pool) {
    && p.token0.address != "" && p.token1.address != ""
    && !EqualFold(p.token0.address, p.token1.address)
    && match p.protocol
       case SushiswapV2 => Positive(p.reserve0) && Positive(p.reserve1)
       case UniswapV3 => Positive(p.sqrtPrice) && Positive(p.liquidity)
       case OtherProtocol(_) => false
  }

  function Prepare(p: Pool): Option<Pool> {
    if !p.protocol.UniswapV3? then Some(p)
    else match V3.PrepareTicks(p.ticks)
      case Ok(ticks) => Some(p.(ticks := ticks))
      case Err(_) => None
  }

  function Kept(pools: seq<Pool>): seq<Pool> {
    if pools == [] then []
    else
      var last := pools[|pools| - 1];
      var front := Kept(pools[..|pools| - 1]);
      if Usable(last) && Prepare(last).Some? then front + [Prepare(last).value] else front
  }

  /** Which pools are kept, spelled out: named, two different tokens, and positive state for a known protocol. */
  predicate Loaded(p: Pool) {
    && |p.token0.address| > 0 && |p.token1.address| > 0
    && ToLower(p.token0.address) != ToLower(p.token1.address)
    && ((p.protocol.SushiswapV2? && p.reserve0.Some? && p.reserve0.value > 0 && p.reserve1.Some? && p.reserve1.value > 0)
        || (p.protocol.UniswapV3? && p.sqrtPrice.Some? && p.sqrtPrice.value > 0
            && p.liquidity.Some? && p.liquidity.value > 0 && forall t <- p.ticks :: TM.InRange(t.index)))
  }

  /** A list keeps, in order, what its parts keep. */
  lemma {:induction false} KeptAppends(a: seq<Pool>, b: seq<Pool>)
    ensures Kept(a + b) == Kept(a) + Kept(b)
    decreases |b|
  {
    if b == [] {
      assert a + b == a;
    } else {
      var n := |b| - 1;
      KeptAppends(a, b[..n]);
      KeptLast(a + b);
      KeptLast(b);
      assert (a + b)[..|a| + n] == a + b[..n] && (a + b)[|a| + n] == b[n];
    }
  }

  /** What the last pool adds, if anything. */
  function KeptOne(p: Pool): seq<Pool> {
    if Usable(p) && Prepare(p).Some? then [Prepare(p).value] else []
  }

  lemma KeptLast(pools: seq<Pool>)
    requires pools != []
    ensures Kept(pools) == Kept(pools[..|pools| - 1]) + KeptOne(pools[|pools| - 1])
  {
    if KeptOne(pools[|pools| - 1]) == [] {
      assert Kept(pools[..|pools| - 1]) + [] == Kept(pools[..|pools| - 1]);
    }
  }

  /** A single pool is kept exactly when loaded, unchanged but for the order and prices of its ticks. */
  lemma KeptIff(p: Pool)
    requires V3.CachesValid(p.ticks)
    ensures Kept([p]) != [] <==> Loaded(p)
    ensures Loaded(p) ==> |Kept([p])| == 1 && Kept([p])[0] == p.(ticks := Kept([p])[0].ticks)
    ensures Loaded(p) && !p.protocol.UniswapV3? ==> Kept([p]) == [p]
  {
    assert [p][..0] == [] && Kept([p][..0]) == [];
    V3.PrepareFails(p.ticks);
  }

  /** Preparing a pool at build time changes none of its quotes and keeps it sound. */
  lemma PreparedPoolQuotes(p: Pool, q: Pool, amountIn: int, tokenIn: string)
    requires V3.CachesValid(p.ticks) && Prepare(p) == Some(q)
    ensures Quote(q, amountIn, tokenIn) == Quote(p, amountIn, tokenIn)
    ensures V3.CachesValid(q.ticks)
    ensures Sound(p) ==> Sound(q)
  {
    if p.protocol.UniswapV3? {
      V3.PreparedShape(p.ticks, q.ticks);
      if p.sqrtPrice.Some? && p.liquidity.Some? {
        V3.PreparedQuote(amountIn, V3Side(p), q.ticks, true);
        V3.PreparedQuote(amountIn, V3Side(p), q.ticks, false);
        assert V3Side(q) == V3Side(p).(ticks := q.ticks);
        if V3.Consistent(V3Side(p)) {
          PreparedConsistent(V3Side(p), q.ticks);
        }
      }
    }
  }

  lemma PreparedConsistent(p: V3.V3Pool, prepared: seq<V3.Tick>)
    requires V3.CachesValid(p.ticks) && V3.PrepareTicks(p.ticks) == Ok(prepared) && V3.Consistent(p)
    ensures V3.Consistent(p.(ticks := prepared))
  {
    V3.PreparedShape(p.ticks, prepared);
    V3.SortByIndexSorts(p.ticks);
    var sorted := V3.SortByIndex(p.ticks);
    forall i | 0 <= i < |prepared|
      ensures exists t <- p.ticks :: t.index == prepared[i].index
    {
      assert sorted[i] in multiset(sorted);
      assert sorted[i] in p.ticks;
    }
  }

  // ----- the token index -----

  predicate Indexed(tokens: seq<Token>, index: map<string, nat>) {
    && (forall i :: 0 <= i < |tokens| ==> Key(tokens, i) in index && index[Key(tokens, i)] == i)
    && (forall k <- index :: index[k] < |tokens| && Key(tokens, index[k]) == k)
  }

  lemma IndexedDistinct(tokens: seq<Token>, index: map<string, nat>)
    requires Indexed(tokens, index)
    ensures DistinctTokens(tokens)
  {
  }

  lemma IndexedExtends(tokens: seq<Token>, index: map<string, nat>, t: Token)
    requires Indexed(tokens, index) && Normalize(t.address) !in index
    ensures Indexed(tokens + [t], index[Normalize(t.address) := |tokens|])
  {
    var more := tokens + [t];
    assert forall i :: 0 <= i < |tokens| ==> Key(more, i) == Key(tokens, i);
    assert Key(more, |tokens|) == Normalize(t.address);
  }

  lemma EdgesJoinExtends(tokens: seq<Token>, more: seq<Token>, pools: seq<Pool>, morePools: seq<Pool>,
                         adj: Adjacency, moreAdj: Adjacency)
    requires EdgesJoin(tokens, pools, adj) && tokens <= more && pools <= morePools
    requires adj <= moreAdj && |moreAdj| == |more|
    requires forall j :: |adj| <= j < |moreAdj| ==> moreAdj[j] == []
    ensures EdgesJoin(more, morePools, moreAdj)
  {
    forall i, j | 0 <= i < |moreAdj| && 0 <= j < |moreAdj[i]|
      ensures moreAdj[i][j].from == i && Joins(more, morePools, moreAdj[i][j])
    {
      assert moreAdj[i] == adj[i];
      var e := adj[i][j];
      assert Key(more, e.from) == Key(tokens, e.from) && Key(more, e.to) == Key(tokens, e.to);
    }
  }

  function Count(s: seq<EdgeRef>, e: EdgeRef): nat {
    multiset(s)[e]
  }

  function Append(adj: Adjacency, e: EdgeRef): Adjacency
    requires e.from < |adj|
  {
    adj[e.from := adj[e.from] + [e]]
  }

  /** Pool `k`, between tokens `a` and `b`, has one edge each way (for a self-pair, the same one twice). */
  predicate OneEach(adj: Adjacency, k: nat, a: nat, b: nat) {
    && a < |adj| && b < |adj|
    && Count(adj[a], EdgeRef(k, a, b)) == (if a == b then 2 else 1)
    && Count(adj[b], EdgeRef(k, b, a)) == (if a == b then 2 else 1)
  }

  predicate BothEdges(p: Pool, index: map<string, nat>, adj: Adjacency, k: nat) {
    var (k0, k1) := (Normalize(p.token0.address), Normalize(p.token1.address));
    k0 in index && k1 in index && OneEach(adj, k, index[k0], index[k1])
  }

  /** Every pool has exactly its two edges. */
  predicate Complete(pools: seq<Pool>, index: map<string, nat>, adj: Adjacency) {
    forall k :: 0 <= k < |pools| ==> BothEdges(pools[k], index, adj, k)
  }

  /** No edge refers to a pool with index `n` or above. */
  predicate NoEdgesFrom(adj: Adjacency, n: nat) {
    forall i, j :: 0 <= i < |adj| && 0 <= j < |adj[i]| ==> adj[i][j].pool < n
  }

  /** Growing the token list leaves every finished pool with its two edges. */
  lemma CompleteAfterIntern(pools: seq<Pool>, index: map<string, nat>, more: map<string, nat>,
                            adj: Adjacency, moreAdj: Adjacency)
    requires Complete(pools, index, adj) && adj <= moreAdj
    requires forall key <- index :: key in more && more[key] == index[key]
    ensures Complete(pools, more, moreAdj)
  {
    forall k | 0 <= k < |pools|
      ensures BothEdges(pools[k], more, moreAdj, k)
    {
      assert BothEdges(pools[k], index, adj, k);
    }
  }

  lemma OneEachAfterAppend(adj: Adjacency, k: nat, a: nat, b: nat, e: EdgeRef)
    requires OneEach(adj, k, a, b) && e.pool != k && e.from < |adj|
    ensures OneEach(Append(adj, e), k, a, b)
  {
  }

  /** So does adding an edge of another pool. */
  lemma CompleteAfterAppend(pools: seq<Pool>, index: map<string, nat>, adj: Adjacency, e: EdgeRef)
    requires Complete(pools, index, adj) && e.pool >= |pools| && e.from < |adj|
    ensures Complete(pools, index, Append(adj, e))
  {
    forall k | 0 <= k < |pools|
      ensures BothEdges(pools[k], index, Append(adj, e), k)
    {
      assert BothEdges(pools[k], index, adj, k);
      var (k0, k1) := (Normalize(pools[k].token0.address), Normalize(pools[k].token1.address));
      OneEachAfterAppend(adj, k, index[k0], index[k1], e);
    }
  }

  lemma CompleteWithLast(pools: seq<Pool>, index: map<string, nat>, adj: Adjacency)
    requires |pools| > 0 && Complete(pools[..|pools| - 1], index, adj)
    requires BothEdges(pools[|pools| - 1], index, adj, |pools| - 1)
    ensures Complete(pools, index, adj)
  {
    forall k | 0 <= k < |pools|
      ensures BothEdges(pools[k], index, adj, k)
    {
      if k < |pools| - 1 {
        assert BothEdges(pools[..|pools| - 1][k], index, adj, k);
      }
    }
  }

  lemma AbsentCount(s: seq<EdgeRef>, e: EdgeRef)
    requires forall j :: 0 <= j < |s| ==> s[j].pool < e.pool
    ensures Count(s, e) == 0
  {
    assert e !in s;
  }

  /** A new pool's two appends give it one edge each way. */
  lemma AppendBoth(adj: Adjacency, k: nat, a: nat, b: nat)
    requires NoEdgesFrom(adj, k) && a < |adj| && b < |adj|
    ensures OneEach(Append(Append(adj, EdgeRef(k, a, b)), EdgeRef(k, b, a)), k, a, b)
    ensures NoEdgesFrom(Append(Append(adj, EdgeRef(k, a, b)), EdgeRef(k, b, a)), k + 1)
  {
    AbsentCount(adj[a], EdgeRef(k, a, b));
    AbsentCount(adj[b], EdgeRef(k, b, a));
  }

  /** Linking the last pool completes the graph. */
  lemma LinkCompletes(pools: seq<Pool>, index: map<string, nat>, adj: Adjacency, a: nat, b: nat)
    requires |pools| > 0 && Complete(pools[..|pools| - 1], index, adj) && NoEdgesFrom(adj, |pools| - 1)
    requires var p := pools[|pools| - 1];
      && Normalize(p.token0.address) in index && index[Normalize(p.token0.address)] == a
      && Normalize(p.token1.address) in index && index[Normalize(p.token1.address)] == b
    requires a < |adj| && b < |adj|
    ensures var k := |pools| - 1;
      var linked := Append(Append(adj, EdgeRef(k, a, b)), EdgeRef(k, b, a));
      Complete(pools, index, linked) && NoEdgesFrom(linked, |pools|)
  {
    var k := |pools| - 1;
    var once := Append(adj, EdgeRef(k, a, b));
    CompleteAfterAppend(pools[..k], index, adj, EdgeRef(k, a, b));
    CompleteAfterAppend(pools[..k], index, once, EdgeRef(k, b, a));
    AppendBoth(adj, k, a, b);
    CompleteWithLast(pools, index, Append(once, EdgeRef(k, b, a)));
  }

  /** Every token listed is one of a kept pool's, as that pool describes it. */
  predicate TokensFrom(tokens: seq<Token>, pools: seq<Pool>) {
    forall t <- tokens :: exists p <- pools :: t == p.token0 || t == p.token1
  }

  lemma TokensExtend(tokens: seq<Token>, more: seq<Token>, pools: seq<Pool>, p: Pool)
    requires TokensFrom(tokens, pools) && forall t <- more :: t in tokens || t == p.token0 || t == p.token1
    ensures TokensFrom(more, pools + [p])
  {
    forall t <- more
      ensures exists q <- pools + [p] :: t == q.token0 || t == q.token1
    {
      if t in tokens {
        var q :| q in pools && (t == q.token0 || t == q.token1);
        assert q in pools + [p];
      } else {
        assert p in pools + [p];
      }
    }
  }

  class Snapshot {
    var tokens: seq<Token>
    var index: map<string, nat>
    var pools: seq<Pool>
    var adj: Adjacency
    var edges: nat

    function View(): Graph
      reads this
    {
      Graph(tokens, pools, adj)
    }

    ghost predicate Valid()
      reads this
    {
      EdgesJoin(tokens, pools, adj) && CachesReady(pools) && Indexed(tokens, index)
    }

    constructor ()
      ensures Valid() && tokens == [] && pools == [] && adj == [] && index == map[] && edges == 0
    {
      tokens, index, pools, adj, edges := [], map[], [], [], 0;
    }

    /** The index of a token, added at the end when new; existing tokens keep theirs. */
    method Intern(t: Token) returns (i: nat)
      requires Valid()
      modifies this`tokens, this`index, this`adj
      ensures Valid()
      ensures i < |tokens| && Key(tokens, i) == Normalize(t.address)
      ensures Normalize(t.address) in index && index[Normalize(t.address)] == i
      ensures forall k <- old(index) :: k in index && index[k] == old(index)[k]
      ensures old(tokens) <= tokens && old(adj) <= adj
      ensures forall j :: |old(adj)| <= j < |adj| ==> adj[j] == []
      ensures Normalize(t.address) in old(index) ==> tokens == old(tokens) && adj == old(adj) && index == old(index)
      ensures Normalize(t.address) !in old(index) ==> tokens == old(tokens) + [t]
    {
      var key := Normalize(t.address);
      if key in index {
        return index[key];
      }
      IndexedExtends(tokens, index, t);
      tokens := tokens + [t];
      i := |tokens| - 1;
      index := index[key := i];
      adj := adj + [[]];
      EdgesJoinExtends(old(tokens), tokens, pools, pools, old(adj), adj);
    }

    method AddEdge(e: EdgeRef)
      requires Valid() && Joins(tokens, pools, e)
      modifies this`adj, this`edges
      ensures Valid()
      ensures adj == Append(old(adj), e)
      ensures edges == old(edges) + 1
    {
      adj := adj[e.from := adj[e.from] + [e]];
      edges := edges + 1;
    }

    /** `tokenIndex`: lookup ignoring case and surrounding blanks. */
    method TokenIndex(address: string) returns (i: Option<nat>)
      requires Valid()
      ensures i.Some? ==> i.value < |tokens| && Key(tokens, i.value) == Normalize(address)
      ensures i.None? ==> forall j :: 0 <= j < |tokens| ==> Key(tokens, j) != Normalize(address)
    {
      var key := Normalize(address);
      if key in index {
        return Some(index[key]);
      }
      return None;
    }

    /** Appends a prepared pool and interns its tokens, without edges yet. */
    method AddTokens(p: Pool) returns (a: nat, b: nat)
      requires Valid() && V3.CachesValid(p.ticks)
      requires Complete(pools, index, adj) && NoEdgesFrom(adj, |pools|) && TokensFrom(tokens, pools)
      modifies this`pools, this`tokens, this`index, this`adj
      ensures Valid() && pools == old(pools) + [p]
      ensures a < |tokens| && Key(tokens, a) == Normalize(p.token0.address)
      ensures b < |tokens| && Key(tokens, b) == Normalize(p.token1.address)
      ensures Complete(old(pools), index, adj) && NoEdgesFrom(adj, |old(pools)|) && TokensFrom(tokens, pools)
    {
      pools := pools + [p];
      EdgesJoinExtends(tokens, tokens, old(pools), pools, adj, adj);
      a := Intern(p.token0);
      label first:
      b := Intern(p.token1);
      assert Key(tokens, a) == old@first(Key(tokens, a));
      CompleteAfterIntern(old(pools), old(index), index, old(adj), adj);
      TokensExtend(old(tokens), tokens, old(pools), p);
    }

    /** Adds the two opposite edges of the last pool. */
    method LinkPool(p: Pool, a: nat, b: nat)
      requires Valid() && |pools| > 0 && pools[|pools| - 1] == p
      requires a < |tokens| && Key(tokens, a) == Normalize(p.token0.address)
      requires b < |tokens| && Key(tokens, b) == Normalize(p.token1.address)
      requires Complete(pools[..|pools| - 1], index, adj) && NoEdgesFrom(adj, |pools| - 1)
      modifies this`adj, this`edges
      ensures Valid() && edges == old(edges) + 2
      ensures Complete(pools, index, adj) && NoEdgesFrom(adj, |pools|)
    {
      var k := |pools| - 1;
      ghost var linked := Append(Append(adj, EdgeRef(k, a, b)), EdgeRef(k, b, a));
      assert Complete(pools, index, linked) && NoEdgesFrom(linked, |pools|) by {
        LinkCompletes(pools, index, adj, a, b);
      }
      AddEdge(EdgeRef(k, a, b));
      AddEdge(EdgeRef(k, b, a));
      assert adj == linked;
    }

    /** Adds a prepared pool with its two edges. */
    method AddPool(p: Pool)
      requires Valid() && V3.CachesValid(p.ticks)
      requires Complete(pools, index, adj) && NoEdgesFrom(adj, |pools|) && TokensFrom(tokens, pools)
      modifies this
      ensures Valid() && pools == old(pools) + [p] && edges == old(edges) + 2
      ensures Complete(pools, index, adj) && NoEdgesFrom(adj, |pools|) && TokensFrom(tokens, pools)
    {
      var a, b := AddTokens(p);
      assert pools[..|pools| - 1] == old(pools);
      LinkPool(p, a, b);
    }
  }

  /**
    `BuildSnapshot`: keeps exactly the usable pools, in order and prepared, gives
    each its two opposite edges and nothing else, and indexes every token once.
   */
  method BuildSnapshot(pools: seq<Pool>) returns (s: Snapshot)
    requires CachesReady(pools)
    ensures fresh(s) && s.Valid() && WellFormed(s.View())
    ensures s.pools == Kept(pools)
    ensures s.edges == 2 * |s.pools|
    ensures Complete(s.pools, s.index, s.adj)
    ensures TokensFrom(s.tokens, s.pools)
  {
    s := new Snapshot();
    for i := 0 to |pools|
      invariant fresh(s) && s.Valid() && s.pools == Kept(pools[..i]) && s.edges == 2 * |s.pools|
      invariant Complete(s.pools, s.index, s.adj) && NoEdgesFrom(s.adj, |s.pools|) && TokensFrom(s.tokens, s.pools)
    {
      var p := pools[i];
      assert pools[..i + 1][..i] == pools[..i];
      if !Usable(p) {
        continue;
      }
      var ready := Prepare(p);
      if ready.None? {
        continue;
      }
      PreparedPoolQuotes(p, ready.value, 0, "");
      s.AddPool(ready.value);
    }
    assert pools[..|pools|] == pools;
    IndexedDistinct(s.tokens, s.index);
  }
}
