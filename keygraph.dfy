/**
 * The declared dependency graph of a thread: each key maps to the raw
 * dependency keys its node was added with. An edge from `k` to `d` exists
 * when `k` declares `d` and `d` is itself a key of the graph; these are
 * exactly the edges that resolution turns into node references, dangling
 * keys being dropped.
 *
 * The two closures below are what the rebuild operations extract: the keys
 * a seed transitively depends on, and the keys that transitively depend on
 * a seed. Each is characterised as the least edge-closed set containing the
 * seed, which is the reachability relation independently of how the
 * recursion is written.
 */
module KeyGraph {

  type Graph = map<string, seq<string>>

  /** `k` declares a dependency on `d`, and both are keys of `g`. */
  ghost predicate Edge(g: Graph, k: string, d: string) {
    k in g && d in g && d in g[k]
  }

  /**
   * `rank` witnesses that `g` has no dependency cycle: every edge goes to a
   * strictly smaller rank, and ranks stay below the number of keys (every
   * acyclic graph admits such a rank, its longest-path height).
   */
  ghost predicate Ranked(g: Graph, rank: map<string, nat>) {
    && (forall k | k in g :: k in rank && rank[k] < |g|)
    && (forall k, d | Edge(g, k, d) :: rank[d] < rank[k])
  }

  /** `s` holds every key that a member of `s` depends on. */
  ghost predicate DepsClosed(g: Graph, s: set<string>) {
    forall k, d | k in s && Edge(g, k, d) :: d in s
  }

  /** `s` holds every key that depends on a member of `s`. */
  ghost predicate DependentsClosed(g: Graph, s: set<string>) {
    forall c, k | k in s && Edge(g, c, k) :: c in s
  }

  /** The seed `k` and every key it transitively depends on. */
  ghost function DepsClosure(g: Graph, rank: map<string, nat>, k: string): (r: set<string>)
    requires Ranked(g, rank) && k in g
    ensures k in r && r <= g.Keys
    decreases rank[k]
  {
    {k} + (set d, j | d in g[k] && d in g && j in DepsClosure(g, rank, d) :: j)
  }

  /** The seed `k` and every key that transitively depends on it. */
  ghost function DependentsClosure(g: Graph, rank: map<string, nat>, k: string): (r: set<string>)
    requires Ranked(g, rank) && k in g
    ensures k in r && r <= g.Keys
    decreases |g| - rank[k]
  {
    {k} + (set c, j | c in g && k in g[c] && j in DependentsClosure(g, rank, c) :: j)
  }

  /** The keys `k` directly depends on. */
  ghost function DirectDeps(g: Graph, k: string): (r: set<string>)
    requires k in g
  {
    set d | d in g[k] && d in g
  }

  /** The keys that directly depend on `k`. */
  ghost function DirectDependents(g: Graph, k: string): (r: set<string>)
    requires k in g
  {
    set c | c in g && k in g[c]
  }

  /** Union of the dependency closures of several seeds. */
  ghost function DepsClosureOf(g: Graph, rank: map<string, nat>, seeds: set<string>): (r: set<string>)
    requires Ranked(g, rank) && seeds <= g.Keys
    ensures r <= g.Keys
  {
    set s, j | s in seeds && j in DepsClosure(g, rank, s) :: j
  }

  /** Union of the dependent closures of several seeds. */
  ghost function DependentsClosureOf(g: Graph, rank: map<string, nat>, seeds: set<string>): (r: set<string>)
    requires Ranked(g, rank) && seeds <= g.Keys
    ensures r <= g.Keys
  {
    set s, j | s in seeds && j in DependentsClosure(g, rank, s) :: j
  }

  /** One level of the dependency closure: the seed plus the closures of its direct dependencies. */
  lemma DepsClosureUnfold(g: Graph, rank: map<string, nat>, k: string)
    requires Ranked(g, rank) && k in g
    ensures DepsClosure(g, rank, k) == {k} + DepsClosureOf(g, rank, DirectDeps(g, k))
  {
  }

  /** One level of the dependent closure: the seed plus the closures of its direct dependents. */
  lemma DependentsClosureUnfold(g: Graph, rank: map<string, nat>, k: string)
    requires Ranked(g, rank) && k in g
    ensures DependentsClosure(g, rank, k) == {k} + DependentsClosureOf(g, rank, DirectDependents(g, k))
  {
  }

  /** One more seed adds exactly its own closure to the union. */
  lemma DepsClosureOfAdd(g: Graph, rank: map<string, nat>, seeds: set<string>, s: string)
    requires Ranked(g, rank) && seeds <= g.Keys && s in g
    ensures DepsClosureOf(g, rank, seeds + {s}) == DepsClosureOf(g, rank, seeds) + DepsClosure(g, rank, s)
  {
  }

  /** One more seed adds exactly its own dependent closure to the union. */
  lemma DependentsClosureOfAdd(g: Graph, rank: map<string, nat>, seeds: set<string>, s: string)
    requires Ranked(g, rank) && seeds <= g.Keys && s in g
    ensures DependentsClosureOf(g, rank, seeds + {s}) == DependentsClosureOf(g, rank, seeds) + DependentsClosure(g, rank, s)
  {
  }

  // ---------------------------------------------------------------------
  // Dependency closure: closed under edges, and the least such set.
  // ---------------------------------------------------------------------

  lemma {:induction false} DepsClosureTransitive(g: Graph, rank: map<string, nat>, k: string, j: string)
    requires Ranked(g, rank) && k in g && j in DepsClosure(g, rank, k)
    ensures DepsClosure(g, rank, j) <= DepsClosure(g, rank, k)
    decreases rank[k]
  {
    if j != k {
      var d :| d in g[k] && d in g && j in DepsClosure(g, rank, d);
      DepsClosureTransitive(g, rank, d, j);
    }
  }

  /** Every key a member of the closure depends on is in the closure. */
  lemma DepsClosureIsClosed(g: Graph, rank: map<string, nat>, k: string)
    requires Ranked(g, rank) && k in g
    ensures DepsClosed(g, DepsClosure(g, rank, k))
  {
    forall j, d | j in DepsClosure(g, rank, k) && Edge(g, j, d)
      ensures d in DepsClosure(g, rank, k)
    {
      assert d in DepsClosure(g, rank, d);
      assert d in DepsClosure(g, rank, j);
      DepsClosureTransitive(g, rank, k, j);
    }
  }

  /** A union of dependency closures is itself closed under dependencies. */
  lemma DepsClosureOfIsClosed(g: Graph, rank: map<string, nat>, seeds: set<string>)
    requires Ranked(g, rank) && seeds <= g.Keys
    ensures DepsClosed(g, DepsClosureOf(g, rank, seeds))
  {
    forall j, d | j in DepsClosureOf(g, rank, seeds) && Edge(g, j, d)
      ensures d in DepsClosureOf(g, rank, seeds)
    {
      var s :| s in seeds && j in DepsClosure(g, rank, s);
      DepsClosureIsClosed(g, rank, s);
    }
  }

  /** Any dependency-closed set containing the seed contains the closure. */
  lemma {:induction false} DepsClosureIsLeast(g: Graph, rank: map<string, nat>, k: string, s: set<string>)
    requires Ranked(g, rank) && k in s && k in g && DepsClosed(g, s)
    ensures DepsClosure(g, rank, k) <= s
    decreases rank[k]
  {
    forall d | d in g[k] && d in g
      ensures DepsClosure(g, rank, d) <= s
    {
      assert Edge(g, k, d);
      DepsClosureIsLeast(g, rank, d, s);
    }
  }

  /** The closure is a property of the graph alone, not of the rank chosen. */
  lemma DepsClosureRankFree(g: Graph, r1: map<string, nat>, r2: map<string, nat>, k: string)
    requires Ranked(g, r1) && Ranked(g, r2) && k in g
    ensures DepsClosure(g, r1, k) == DepsClosure(g, r2, k)
  {
    DepsClosureIsClosed(g, r1, k);
    DepsClosureIsClosed(g, r2, k);
    DepsClosureIsLeast(g, r1, k, DepsClosure(g, r2, k));
    DepsClosureIsLeast(g, r2, k, DepsClosure(g, r1, k));
  }

  // ---------------------------------------------------------------------
  // Dependent closure: closed under reversed edges, and the least such set.
  // ---------------------------------------------------------------------

  lemma {:induction false} DependentsClosureTransitive(g: Graph, rank: map<string, nat>, k: string, j: string)
    requires Ranked(g, rank) && k in g && j in DependentsClosure(g, rank, k)
    ensures DependentsClosure(g, rank, j) <= DependentsClosure(g, rank, k)
    decreases |g| - rank[k]
  {
    if j != k {
      var c :| c in g && k in g[c] && j in DependentsClosure(g, rank, c);
      DependentsClosureTransitive(g, rank, c, j);
    }
  }

  /** Every key that depends on a member of the closure is in the closure. */
  lemma DependentsClosureIsClosed(g: Graph, rank: map<string, nat>, k: string)
    requires Ranked(g, rank) && k in g
    ensures DependentsClosed(g, DependentsClosure(g, rank, k))
  {
    forall c, j | j in DependentsClosure(g, rank, k) && Edge(g, c, j)
      ensures c in DependentsClosure(g, rank, k)
    {
      assert c in DependentsClosure(g, rank, c);
      assert c in DependentsClosure(g, rank, j);
      DependentsClosureTransitive(g, rank, k, j);
    }
  }

  /** A union of dependent closures is itself closed under dependents. */
  lemma DependentsClosureOfIsClosed(g: Graph, rank: map<string, nat>, seeds: set<string>)
    requires Ranked(g, rank) && seeds <= g.Keys
    ensures DependentsClosed(g, DependentsClosureOf(g, rank, seeds))
  {
    forall c, j | j in DependentsClosureOf(g, rank, seeds) && Edge(g, c, j)
      ensures c in DependentsClosureOf(g, rank, seeds)
    {
      var s :| s in seeds && j in DependentsClosure(g, rank, s);
      DependentsClosureIsClosed(g, rank, s);
    }
  }

  /** Any dependents-closed set containing the seed contains the closure. */
  lemma {:induction false} DependentsClosureIsLeast(g: Graph, rank: map<string, nat>, k: string, s: set<string>)
    requires Ranked(g, rank) && k in s && k in g && DependentsClosed(g, s)
    ensures DependentsClosure(g, rank, k) <= s
    decreases |g| - rank[k]
  {
    forall c | c in g && k in g[c]
      ensures DependentsClosure(g, rank, c) <= s
    {
      assert Edge(g, c, k);
      DependentsClosureIsLeast(g, rank, c, s);
    }
  }

  lemma DependentsClosureRankFree(g: Graph, r1: map<string, nat>, r2: map<string, nat>, k: string)
    requires Ranked(g, r1) && Ranked(g, r2) && k in g
    ensures DependentsClosure(g, r1, k) == DependentsClosure(g, r2, k)
  {
    DependentsClosureIsClosed(g, r1, k);
    DependentsClosureIsClosed(g, r2, k);
    DependentsClosureIsLeast(g, r1, k, DependentsClosure(g, r2, k));
    DependentsClosureIsLeast(g, r2, k, DependentsClosure(g, r1, k));
  }

  /**
   * The two closures are mirror images: `j` transitively depends on `k`
   * exactly when `k` is among the transitive dependencies of `j`.
   */
  lemma ClosureDuality(g: Graph, rank: map<string, nat>, k: string, j: string)
    requires Ranked(g, rank) && k in g && j in g
    ensures j in DependentsClosure(g, rank, k) <==> k in DepsClosure(g, rank, j)
  {
    var above := set x | x in g && k in DepsClosure(g, rank, x);
    forall c, x | x in above && Edge(g, c, x)
      ensures c in above
    {
      assert x in DepsClosure(g, rank, c);
      DepsClosureTransitive(g, rank, c, x);
    }
    DependentsClosureIsLeast(g, rank, k, above);

    var below := set x | x in g && j in DependentsClosure(g, rank, x);
    forall x, d | x in below && Edge(g, x, d)
      ensures d in below
    {
      assert x in DependentsClosure(g, rank, d);
      DependentsClosureTransitive(g, rank, d, x);
    }
    DepsClosureIsLeast(g, rank, j, below);
  }
}
