/**
 * The dependency-graph bookkeeping of a parathread `Thread`: named nodes are
 * added to an open thread, `Prepare` freezes the thread and resolves every
 * node's raw dependency keys into references to the thread's own nodes, and
 * the rebuild operations derive fresh threads holding the part of the graph
 * upstream or downstream of some seed keys. The concurrent executor is not
 * modelled.
 *
 * Go's map iteration order is unspecified; every `range` over a map becomes
 * a loop that picks an arbitrary remaining key with `:|`, so the proofs hold
 * for every iteration order. A regular expression is an uninterpreted
 * predicate `matches` on keys.
 */
module Parathread {
  import opened KeyGraph

  /** The opaque work item of a node (a Go `func() error`). */
  type Work

  /** The remote logging client a thread forwards to; only its identity matters here. */
  class Sink {}

  class Node {
    const Key: string
    /** The dependency keys as declared: may repeat and may name absent keys. */
    const KeyDeps: seq<string>
    const Function: Work
    /** The resolved dependencies, written by `Thread.Prepare`. */
    var Deps: seq<Node>

    /** `newNode`: a node with no resolved dependencies yet. */
    constructor (k: string, ks: seq<string>, f: Work)
      ensures Key == k && KeyDeps == ks && Function == f && Deps == []
    {
      Key := k;
      KeyDeps := ks;
      Function := f;
      Deps := [];
    }

    /** Whether some resolved dependency carries the key of `m`. */
    method HasDep(m: Node) returns (b: bool)
      ensures b <==> exists i | 0 <= i < |Deps| :: Deps[i].Key == m.Key
    {
      for i := 0 to |Deps|
        invariant forall j | 0 <= j < i :: Deps[j].Key != m.Key
      {
        if Deps[i].Key == m.Key {
          return true;
        }
      }
      return false;
    }
  }

  /** The keys of a node's resolved dependencies. */
  ghost function DepKeys(n: Node): (r: set<string>)
    reads n
  {
    set d | d in n.Deps :: d.Key
  }

  /** The declared dependency graph of a node map. */
  ghost function Declared(m: map<string, Node>): (g: Graph) {
    map k | k in m :: m[k].KeyDeps
  }

  /** Every entry is stored under its node's own key (so distinct keys hold distinct nodes). */
  ghost predicate KeysMatch(m: map<string, Node>) {
    forall k | k in m :: m[k].Key == k
  }

  ghost predicate Distinct<T>(s: seq<T>) {
    forall i, j | 0 <= i < j < |s| :: s[i] != s[j]
  }

  /**
   * `deps` is a resolution of the declared keys `ks` against `m`: one
   * reference per distinct declared key present in `m`, and nothing else.
   */
  ghost predicate ResolvesTo(m: map<string, Node>, ks: seq<string>, deps: seq<Node>) {
    && Distinct(deps)
    && (forall d | d in deps :: d.Key in ks && d.Key in m && m[d.Key] == d)
    && (forall key | key in ks && key in m :: m[key] in deps)
  }

  /** The node stored under `k` holds a resolution of its declared keys against `m`. */
  ghost predicate NodeResolved(m: map<string, Node>, k: string)
    requires k in m
    reads m[k]
  {
    ResolvesTo(m, m[k].KeyDeps, m[k].Deps)
  }

  /**
   * Every node of `m` holds a resolution of its declared keys against `m`.
   * The trigger keeps the solver from chasing dependencies on its own: a
   * proof states `NodeResolved(m, k)` for the keys it needs.
   */
  ghost predicate ResolvedIn(m: map<string, Node>)
    reads m.Values
  {
    forall k {:trigger NodeResolved(m, k)} | k in m :: NodeResolved(m, k)
  }

  /** `x` was built from `y`'s key, declared keys and work item. */
  ghost predicate CopyOf(x: Node, y: Node) {
    x.Key == y.Key && x.KeyDeps == y.KeyDeps && x.Function == y.Function
  }

  /** Every node of `a` is a copy of the node of `m` under the same key. */
  ghost predicate CopiesFrom(a: map<string, Node>, m: map<string, Node>) {
    forall key | key in a :: key in m && CopyOf(a[key], m[key])
  }

  class Thread {
    var Closed: bool
    var Map: map<string, Node>
    var logger: Sink?

    ghost predicate Valid()
      reads this
    {
      KeysMatch(Map)
    }

    /** Frozen, with every node's dependencies resolved against this thread. */
    ghost predicate Prepared()
      reads this, Map.Values
    {
      Closed && ResolvedIn(Map)
    }

    /** `NewThread`. */
    constructor ()
      ensures Valid() && !Closed && Map == map[] && logger == null
    {
      Closed := false;
      Map := map[];
      logger := null;
    }

    /** `AddLogger`: the client is built and started outside the model and passed in. */
    method AddLogger(s: Sink)
      modifies this
      ensures logger == s && Closed == old(Closed) && Map == old(Map)
    {
      logger := s;
    }

    /** Inserts a fresh node under `k`, replacing any node already there. */
    method Add(k: string, ks: seq<string>, f: Work)
      requires Valid() && !Closed
      modifies this
      ensures Valid() && Closed == old(Closed) && logger == old(logger)
      ensures k in Map && Map == old(Map)[k := Map[k]]
      ensures fresh(Map[k]) && Map[k].Key == k && Map[k].KeyDeps == ks && Map[k].Function == f && Map[k].Deps == []
    {
      var n := new Node(k, ks, f);
      Map := Map[k := n];
    }

    /** Inserts the given node object under its own key, replacing any node already there. */
    method AddNode(n: Node)
      requires Valid() && !Closed
      modifies this
      ensures Valid() && Closed == old(Closed) && logger == old(logger)
      ensures Map == old(Map)[n.Key := n]
    {
      Map := Map[n.Key := n];
    }

    method Close()
      modifies this
      ensures Closed && Map == old(Map) && logger == old(logger)
    {
      Closed := true;
    }

    /**
     * Closes the thread and resolves each node's declared keys: duplicates
     * are removed and keys absent from the thread are skipped (the Go code
     * logs them with `log.Printf`).
     */
    method Prepare()
      requires Valid()
      modifies this, Map.Values
      ensures Valid() && Prepared()
      ensures Map == old(Map) && logger == old(logger)
    {
      Close();
      var keys := Map.Keys;
      while keys != {}
        invariant keys <= Map.Keys
        invariant Closed && Valid() && Map == old(Map) && logger == old(logger)
        invariant forall k | k in Map && k !in keys :: ResolvesTo(Map, Map[k].KeyDeps, Map[k].Deps)
        decreases keys
      {
        var k :| k in keys;
        var v := Map[k];
        var kd := RemoveDuplicate(v.KeyDeps);
        v.Deps := [];
        for i := 0 to |kd|
          modifies v
          invariant forall d | d in v.Deps :: d.Key in kd[..i] && d.Key in Map && Map[d.Key] == d
          invariant forall key | key in kd[..i] && key in Map :: Map[key] in v.Deps
          invariant Distinct(v.Deps)
        {
          var key := kd[i];
          if key in Map {
            v.Deps := v.Deps + [Map[key]];
          }
        }
        assert kd[..|kd|] == kd;
        keys := keys - {k};
      }
    }

    /** The guard every rebuild starts with: an open thread is prepared, a closed one is left alone. */
    method PrepareIfOpen()
      requires Valid()
      modifies this, Map.Values
      ensures Valid() && Map == old(Map) && logger == old(logger)
      ensures !old(Closed) ==> Prepared()
      ensures old(Closed) ==> unchanged(this) && unchanged(Map.Values)
    {
      if !Closed {
        Prepare();
      }
    }

    /**
     * Adds a copy of `n` and, recursively, of everything `n` depends on.
     * `m` is the prepared map `n` belongs to, `g` its declared graph and
     * `rank` a witness that `g` is acyclic; `built` holds the nodes added.
     */
    method RecBuildToNode(ghost m: map<string, Node>, ghost g: Graph, ghost rank: map<string, nat>, n: Node)
      returns (ghost built: map<string, Node>)
      requires Valid() && !Closed
      requires KeysMatch(m) && ResolvedIn(m) && g == Declared(m) && Ranked(g, rank)
      requires n.Key in m && m[n.Key] == n
      modifies this
      ensures Valid() && !Closed && logger == old(logger)
      ensures Map == old(Map) + built && built.Keys == DepsClosure(g, rank, n.Key)
      ensures CopiesFrom(built, m) && fresh(built.Values)
      decreases rank[n.Key]
    {
      Add(n.Key, n.KeyDeps, n.Function);
      built := map[n.Key := Map[n.Key]];
      var deps := n.Deps;
      ghost var hits: set<string> := {};
      for i := 0 to |deps|
        invariant forall j | 0 <= j < i :: deps[j].Key in hits
        invariant hits <= DirectDeps(g, n.Key)
        invariant built.Keys == {n.Key} + DepsClosureOf(g, rank, hits)
        invariant Valid() && !Closed && logger == old(logger)
        invariant Map == old(Map) + built
        invariant CopiesFrom(built, m) && fresh(built.Values)
      {
        var c := deps[i];
        ResolvedDepAt(m, n.Key, i);
        ghost var prev := hits;
        hits := hits + {c.Key};
        assert forall j | 0 <= j < i + 1 :: deps[j].Key in hits;
        assert Valid() && !Closed && ResolvedIn(m);
        ghost var more := RecBuildToNode(m, g, rank, c);
        DepsStep(g, rank, {n.Key}, prev, c.Key, built, more);
        BuiltStep(old(Map), built, more, m);
        FreshValues(built, more);
        built := built + more;
      }
      ToDone(m, g, rank, n.Key, hits);
    }

    /**
     * Adds a copy of `n` and, recursively, of every node of `m` that
     * depends on it, as `HasDep` judges; `built` holds the nodes added.
     */
    method RecBuildFromNode(m: map<string, Node>, ghost g: Graph, ghost rank: map<string, nat>, n: Node)
      returns (ghost built: map<string, Node>)
      requires Valid() && !Closed
      requires KeysMatch(m) && ResolvedIn(m) && g == Declared(m) && Ranked(g, rank)
      requires n.Key in m && m[n.Key] == n
      modifies this
      ensures Valid() && !Closed && logger == old(logger)
      ensures Map == old(Map) + built && built.Keys == DependentsClosure(g, rank, n.Key)
      ensures CopiesFrom(built, m) && fresh(built.Values)
      decreases |g| - rank[n.Key]
    {
      Add(n.Key, n.KeyDeps, n.Function);
      built := map[n.Key := Map[n.Key]];
      ghost var hits: set<string> := {};
      var keys := m.Keys;
      while keys != {}
        invariant keys <= m.Keys
        invariant hits == DirectDependents(g, n.Key) - keys
        invariant built.Keys == {n.Key} + DependentsClosureOf(g, rank, hits)
        invariant Valid() && !Closed && logger == old(logger)
        invariant Map == old(Map) + built
        invariant CopiesFrom(built, m) && fresh(built.Values)
        decreases keys
      {
        var ck :| ck in keys;
        assert ResolvedIn(m);
        var c := m[ck];
        HasDepResolved(m, ck, n.Key);
        ScanStep(DirectDependents(g, n.Key), hits, keys, ck);
        var b := c.HasDep(n);
        if b {
          ghost var prev := hits;
          hits := hits + {ck};
          assert Valid() && !Closed && ResolvedIn(m) && c.Key in m && m[c.Key] == c;
          ghost var more := RecBuildFromNode(m, g, rank, c);
          DependentsStep(g, rank, {n.Key}, prev, ck, built, more);
          BuiltStep(old(Map), built, more, m);
          FreshValues(built, more);
          built := built + more;
        }
        keys := keys - {ck};
      }
      DependentsClosureUnfold(g, rank, n.Key);
    }

    /**
     * A new thread with a copy of the node under `k` and of everything it
     * transitively depends on, prepared; this thread is prepared first if
     * it is still open.
     */
    method RebuildToKey(k: string, ghost rank: map<string, nat>) returns (nt: Thread)
      requires Valid() && (!Closed || Prepared())
      requires k in Map && Ranked(Declared(Map), rank)
      modifies this, Map.Values
      ensures Valid() && Prepared() && Map == old(Map) && logger == old(logger)
      ensures old(Closed) ==> unchanged(Map.Values)
      ensures fresh(nt) && nt.Valid() && nt.Prepared() && nt.logger == logger
      ensures nt.Map.Keys == DepsClosure(Declared(Map), rank, k)
      ensures CopiesFrom(nt.Map, Map) && fresh(nt.Map.Values)
      ensures forall key | key in nt.Map :: DepKeys(nt.Map[key]) == DepKeys(Map[key])
    {
      PrepareIfOpen();
      nt := new Thread.BuiltTo(Map, logger, rank, k);
      DepsClosureIsClosed(Declared(Map), rank, k);
      ClosedCopyDeps(Map, nt.Map);
    }

    /**
     * The thread `RebuildToKey` returns: a new thread sharing the logger
     * `lg`, filled by `RecBuildToNode` from the node of `m` under `k`, then
     * prepared.
     */
    constructor BuiltTo(m: map<string, Node>, lg: Sink?, ghost rank: map<string, nat>, k: string)
      requires KeysMatch(m) && ResolvedIn(m) && Ranked(Declared(m), rank) && k in m
      ensures Valid() && Prepared() && logger == lg
      ensures Map.Keys == DepsClosure(Declared(m), rank, k)
      ensures CopiesFrom(Map, m) && fresh(Map.Values)
    {
      Closed := false;
      Map := map[];
      logger := lg;
      new;
      ghost var built := RecBuildToNode(m, Declared(m), rank, m[k]);
      EmptyUnion(built);
      Prepare();
    }

    /** `RebuildToKey` for every key that `matches` accepts, into one new thread. */
    method RebuildToRegexp(matches: string -> bool, ghost rank: map<string, nat>) returns (nt: Thread)
      requires Valid() && (!Closed || Prepared())
      requires Ranked(Declared(Map), rank)
      modifies this, Map.Values
      ensures Valid() && Prepared() && Map == old(Map) && logger == old(logger)
      ensures old(Closed) ==> unchanged(Map.Values)
      ensures fresh(nt) && nt.Valid() && nt.Prepared() && nt.logger == logger
      ensures nt.Map.Keys == DepsClosureOf(Declared(Map), rank, set k | k in Map && matches(k))
      ensures CopiesFrom(nt.Map, Map) && fresh(nt.Map.Values)
      ensures forall key | key in nt.Map :: DepKeys(nt.Map[key]) == DepKeys(Map[key])
    {
      PrepareIfOpen();
      nt := new Thread.BuiltToMatching(Map, logger, rank, matches);
      DepsClosureOfIsClosed(Declared(Map), rank, set k | k in Map && matches(k));
      ClosedCopyDeps(Map, nt.Map);
    }

    /**
     * The thread `RebuildToRegexp` returns: a new thread sharing the logger
     * `lg`, filled by `FillTo`, then prepared.
     */
    constructor BuiltToMatching(m: map<string, Node>, lg: Sink?, ghost rank: map<string, nat>, matches: string -> bool)
      requires KeysMatch(m) && ResolvedIn(m) && Ranked(Declared(m), rank)
      ensures Valid() && Prepared() && logger == lg
      ensures Map.Keys == DepsClosureOf(Declared(m), rank, set k | k in m && matches(k))
      ensures CopiesFrom(Map, m) && fresh(Map.Values)
    {
      Closed := false;
      Map := map[];
      logger := lg;
      new;
      FillTo(m, rank, matches);
      Prepare();
    }

    /** The loop of `RebuildToRegexp`: `RecBuildToNode` from every node of `m` whose key `matches` accepts. */
    method FillTo(m: map<string, Node>, ghost rank: map<string, nat>, matches: string -> bool)
      requires Valid() && !Closed && Map == map[]
      requires KeysMatch(m) && ResolvedIn(m) && Ranked(Declared(m), rank)
      modifies this
      ensures Valid() && !Closed && logger == old(logger)
      ensures Map.Keys == DepsClosureOf(Declared(m), rank, set k | k in m && matches(k))
      ensures CopiesFrom(Map, m) && fresh(Map.Values)
    {
      ghost var g := Declared(m);
      ghost var seeds := set k | k in m && matches(k);
      ghost var done: set<string> := {};
      var keys := m.Keys;
      while keys != {}
        invariant keys <= m.Keys && done == seeds - keys
        invariant Valid() && !Closed && logger == old(logger)
        invariant Map.Keys == DepsClosureOf(g, rank, done)
        invariant CopiesFrom(Map, m) && fresh(Map.Values)
        decreases keys
      {
        var k :| k in keys;
        ScanStep(seeds, done, keys, k);
        if matches(k) {
          ghost var before := Map;
          ghost var more := RecBuildToNode(m, g, rank, m[k]);
          DepsSeedStep(g, rank, done, k, before, more, m);
          FreshValues(before, more);
          done := done + {k};
        }
        keys := keys - {k};
      }
    }

    /**
     * A new thread with a copy of the node under `k` and of every node that
     * transitively depends on it, prepared; this thread is prepared first if
     * it is still open.
     */
    method RebuildFromKey(k: string, ghost rank: map<string, nat>) returns (nt: Thread)
      requires Valid() && (!Closed || Prepared())
      requires k in Map && Ranked(Declared(Map), rank)
      modifies this, Map.Values
      ensures Valid() && Prepared() && Map == old(Map) && logger == old(logger)
      ensures old(Closed) ==> unchanged(Map.Values)
      ensures fresh(nt) && nt.Valid() && nt.Prepared() && nt.logger == logger
      ensures nt.Map.Keys == DependentsClosure(Declared(Map), rank, k)
      ensures CopiesFrom(nt.Map, Map) && fresh(nt.Map.Values)
      ensures forall key | key in nt.Map :: DepKeys(nt.Map[key]) == DepKeys(Map[key]) * nt.Map.Keys
    {
      PrepareIfOpen();
      nt := new Thread.BuiltFrom(Map, logger, rank, k);
      CopyDeps(Map, nt.Map);
    }

    /**
     * The thread `RebuildFromKey` returns: a new thread sharing the logger
     * `lg`, filled by `RecBuildFromNode` from the node of `m` under `k`,
     * then prepared.
     */
    constructor BuiltFrom(m: map<string, Node>, lg: Sink?, ghost rank: map<string, nat>, k: string)
      requires KeysMatch(m) && ResolvedIn(m) && Ranked(Declared(m), rank) && k in m
      ensures Valid() && Prepared() && logger == lg
      ensures Map.Keys == DependentsClosure(Declared(m), rank, k)
      ensures CopiesFrom(Map, m) && fresh(Map.Values)
    {
      Closed := false;
      Map := map[];
      logger := lg;
      new;
      ghost var built := RecBuildFromNode(m, Declared(m), rank, m[k]);
      EmptyUnion(built);
      Prepare();
    }

    /** `RebuildFromKey` for every key that `matches` accepts, into one new thread. */
    method RebuildFromRegexp(matches: string -> bool, ghost rank: map<string, nat>) returns (nt: Thread)
      requires Valid() && (!Closed || Prepared())
      requires Ranked(Declared(Map), rank)
      modifies this, Map.Values
      ensures Valid() && Prepared() && Map == old(Map) && logger == old(logger)
      ensures old(Closed) ==> unchanged(Map.Values)
      ensures fresh(nt) && nt.Valid() && nt.Prepared() && nt.logger == logger
      ensures nt.Map.Keys == DependentsClosureOf(Declared(Map), rank, set k | k in Map && matches(k))
      ensures CopiesFrom(nt.Map, Map) && fresh(nt.Map.Values)
      ensures forall key | key in nt.Map :: DepKeys(nt.Map[key]) == DepKeys(Map[key]) * nt.Map.Keys
    {
      PrepareIfOpen();
      nt := new Thread.BuiltFromMatching(Map, logger, rank, matches);
      CopyDeps(Map, nt.Map);
    }

    /**
     * The thread `RebuildFromRegexp` returns: a new thread sharing the
     * logger `lg`, filled by `FillFrom`, then prepared.
     */
    constructor BuiltFromMatching(m: map<string, Node>, lg: Sink?, ghost rank: map<string, nat>, matches: string -> bool)
      requires KeysMatch(m) && ResolvedIn(m) && Ranked(Declared(m), rank)
      ensures Valid() && Prepared() && logger == lg
      ensures Map.Keys == DependentsClosureOf(Declared(m), rank, set k | k in m && matches(k))
      ensures CopiesFrom(Map, m) && fresh(Map.Values)
    {
      Closed := false;
      Map := map[];
      logger := lg;
      new;
      FillFrom(m, rank, matches);
      Prepare();
    }

    /** The loop of `RebuildFromRegexp`: `RecBuildFromNode` from every node of `m` whose key `matches` accepts. */
    method FillFrom(m: map<string, Node>, ghost rank: map<string, nat>, matches: string -> bool)
      requires Valid() && !Closed && Map == map[]
      requires KeysMatch(m) && ResolvedIn(m) && Ranked(Declared(m), rank)
      modifies this
      ensures Valid() && !Closed && logger == old(logger)
      ensures Map.Keys == DependentsClosureOf(Declared(m), rank, set k | k in m && matches(k))
      ensures CopiesFrom(Map, m) && fresh(Map.Values)
    {
      ghost var g := Declared(m);
      ghost var seeds := set k | k in m && matches(k);
      ghost var done: set<string> := {};
      var keys := m.Keys;
      while keys != {}
        invariant keys <= m.Keys && done == seeds - keys
        invariant Valid() && !Closed && logger == old(logger)
        invariant Map.Keys == DependentsClosureOf(g, rank, done)
        invariant CopiesFrom(Map, m) && fresh(Map.Values)
        decreases keys
      {
        var k :| k in keys;
        ScanStep(seeds, done, keys, k);
        if matches(k) {
          ghost var before := Map;
          ghost var more := RecBuildFromNode(m, g, rank, m[k]);
          DependentsSeedStep(g, rank, done, k, before, more, m);
          FreshValues(before, more);
          done := done + {k};
        }
        keys := keys - {k};
      }
    }

    /**
     * A new open thread holding, by reference, the nodes whose keys
     * `matches` rejects; nothing is copied or re-resolved.
     */
    method ExcludeKeys(matches: string -> bool) returns (nt: Thread)
      requires Valid()
      ensures fresh(nt) && nt.Valid() && !nt.Closed && nt.logger == logger
      ensures nt.Map == map k | k in Map && !matches(k) :: Map[k]
    {
      nt := new Thread();
      nt.logger := logger;
      var keys := Map.Keys;
      while keys != {}
        modifies nt
        invariant keys <= Map.Keys
        invariant nt.Valid() && !nt.Closed && nt.logger == logger
        invariant nt.Map == map k | k in Map && k !in keys && !matches(k) :: Map[k]
        decreases keys
      {
        var key :| key in keys;
        var node := Map[key];
        if !matches(key) {
          nt.AddNode(node);
        }
        keys := keys - {key};
      }
    }
  }

  // -----------------------------------------------------------------------
  // Resolution facts
  // -----------------------------------------------------------------------

  /** Nodes with pairwise distinct keys: as many keys as nodes. */
  lemma {:induction false} KeyedCard(deps: seq<Node>)
    requires forall i, j | 0 <= i < j < |deps| :: deps[i].Key != deps[j].Key
    ensures |set d | d in deps :: d.Key| == |deps|
    decreases |deps|
  {
    if deps != [] {
      var init, last := deps[..|deps| - 1], deps[|deps| - 1];
      KeyedCard(init);
      assert (set d | d in deps :: d.Key) == (set d | d in init :: d.Key) + {last.Key};
    }
  }

  /**
   * What a resolution holds: exactly the nodes of `m` under the distinct
   * declared keys present in `m`, one per key.
   */
  lemma ResolutionContent(m: map<string, Node>, ks: seq<string>, deps: seq<Node>)
    requires KeysMatch(m) && ResolvesTo(m, ks, deps)
    ensures (set d | d in deps) == (set key | key in ks && key in m :: m[key])
    ensures (set d | d in deps :: d.Key) == (set key | key in ks && key in m)
    ensures |deps| == |set key | key in ks && key in m|
  {
    forall i, j | 0 <= i < j < |deps| ensures deps[i].Key != deps[j].Key {
      assert deps[i] in deps && deps[j] in deps;
    }
    KeyedCard(deps);
    forall key | key in ks && key in m ensures key in (set d | d in deps :: d.Key) {
      assert m[key] in deps;
    }
  }

  /**
   * Resolution is determined by the map and the declared keys: two
   * resolutions (say, by two calls of `Prepare`) hold the same nodes and
   * have the same length, in whatever order the keys were visited.
   */
  lemma ResolutionUnique(m: map<string, Node>, ks: seq<string>, a: seq<Node>, b: seq<Node>)
    requires KeysMatch(m) && ResolvesTo(m, ks, a) && ResolvesTo(m, ks, b)
    ensures forall x :: x in a <==> x in b
    ensures |a| == |b|
  {
    ResolutionContent(m, ks, a);
    ResolutionContent(m, ks, b);
    forall x ensures x in a <==> x in b {
      assert x in a <==> x in (set d | d in a);
      assert x in b <==> x in (set d | d in b);
    }
  }

  /**
   * A node of a resolved copy `t` of part of `m` depends on the keys its
   * original depends on that made it into `t`.
   */
  lemma RestrictedDeps(m: map<string, Node>, t: map<string, Node>, k: string)
    requires KeysMatch(m) && KeysMatch(t) && CopiesFrom(t, m) && k in t
    requires NodeResolved(m, k) && NodeResolved(t, k)
    ensures DepKeys(t[k]) == DepKeys(m[k]) * t.Keys
  {
  }

  /** Every node of a resolved copy `t` of part of `m` keeps the dependency keys that made it into `t`. */
  lemma CopyDeps(m: map<string, Node>, t: map<string, Node>)
    requires KeysMatch(m) && KeysMatch(t) && CopiesFrom(t, m) && ResolvedIn(m) && ResolvedIn(t)
    ensures forall k | k in t :: DepKeys(t[k]) == DepKeys(m[k]) * t.Keys
  {
    forall k | k in t ensures DepKeys(t[k]) == DepKeys(m[k]) * t.Keys {
      assert NodeResolved(m, k) && NodeResolved(t, k);
      RestrictedDeps(m, t, k);
    }
  }

  /**
   * A resolved copy of part of `m` whose keys are closed under dependencies
   * keeps every node's dependency keys.
   */
  lemma ClosedCopyDeps(m: map<string, Node>, t: map<string, Node>)
    requires KeysMatch(m) && KeysMatch(t) && CopiesFrom(t, m)
    requires ResolvedIn(m) && ResolvedIn(t) && DepsClosed(Declared(m), t.Keys)
    ensures forall k | k in t :: DepKeys(t[k]) == DepKeys(m[k])
  {
    forall k | k in t ensures DepKeys(t[k]) == DepKeys(m[k]) {
      assert NodeResolved(m, k) && NodeResolved(t, k);
      RestrictedDeps(m, t, k);
      ResolvedKeys(m, k);
    }
  }

  /** The keys of a resolved node's dependencies are its declared keys present in `m`. */
  lemma ResolvedKeys(m: map<string, Node>, k: string)
    requires KeysMatch(m) && k in m && NodeResolved(m, k)
    ensures DepKeys(m[k]) == DirectDeps(Declared(m), k)
  {
  }

  /** A resolved dependency of the node under `k` is an edge of the declared graph, stored under its own key. */
  lemma ResolvedDepAt(m: map<string, Node>, k: string, i: int)
    requires KeysMatch(m) && ResolvedIn(m) && k in m && 0 <= i < |m[k].Deps|
    ensures m[k].Deps[i].Key in m && m[m[k].Deps[i].Key] == m[k].Deps[i]
    ensures Edge(Declared(m), k, m[k].Deps[i].Key)
  {
    assert NodeResolved(m, k);
    assert m[k].Deps[i] in m[k].Deps;
  }

  /** On a resolved thread, `HasDep` answers whether the node under `c` has an edge to `key`. */
  lemma HasDepResolved(m: map<string, Node>, c: string, key: string)
    requires KeysMatch(m) && ResolvedIn(m) && c in m && key in m
    ensures (exists i | 0 <= i < |m[c].Deps| :: m[c].Deps[i].Key == key) <==> Edge(Declared(m), c, key)
  {
    assert NodeResolved(m, c);
    if key in m[c].KeyDeps {
      assert m[key] in m[c].Deps;
    }
  }

  /** Once the loop of `RecBuildToNode` has seen every resolved dependency, it has built the whole closure. */
  lemma ToDone(m: map<string, Node>, g: Graph, rank: map<string, nat>, k: string, hits: set<string>)
    requires KeysMatch(m) && ResolvedIn(m) && g == Declared(m) && Ranked(g, rank) && k in m
    requires hits <= DirectDeps(g, k)
    requires forall j | 0 <= j < |m[k].Deps| :: m[k].Deps[j].Key in hits
    ensures {k} + DepsClosureOf(g, rank, hits) == DepsClosure(g, rank, k)
  {
    assert NodeResolved(m, k);
    forall d | d in DirectDeps(g, k)
      ensures d in hits
    {
      assert m[d] in m[k].Deps;
    }
    DepsClosureUnfold(g, rank, k);
  }

  // -----------------------------------------------------------------------
  // Bookkeeping of the maps built by the rebuilds
  // -----------------------------------------------------------------------

  /** Adding the closure of one more seed `c` to a map holding the closures of `hits`. */
  lemma DepsStep(g: Graph, rank: map<string, nat>, base: set<string>, hits: set<string>, c: string,
                 b: map<string, Node>, more: map<string, Node>)
    requires Ranked(g, rank) && hits <= g.Keys && c in g
    requires b.Keys == base + DepsClosureOf(g, rank, hits) && more.Keys == DepsClosure(g, rank, c)
    ensures (b + more).Keys == base + DepsClosureOf(g, rank, hits + {c})
  {
    DepsClosureOfAdd(g, rank, hits, c);
  }

  /** Adding the dependent closure of one more seed `c` to a map holding those of `hits`. */
  lemma DependentsStep(g: Graph, rank: map<string, nat>, base: set<string>, hits: set<string>, c: string,
                       b: map<string, Node>, more: map<string, Node>)
    requires Ranked(g, rank) && hits <= g.Keys && c in g
    requires b.Keys == base + DependentsClosureOf(g, rank, hits) && more.Keys == DependentsClosure(g, rank, c)
    ensures (b + more).Keys == base + DependentsClosureOf(g, rank, hits + {c})
  {
    DependentsClosureOfAdd(g, rank, hits, c);
  }

  /** One matching seed of `RebuildToRegexp`: its closure joins those of the seeds done so far. */
  lemma DepsSeedStep(g: Graph, rank: map<string, nat>, done: set<string>, k: string,
                     b: map<string, Node>, more: map<string, Node>, m: map<string, Node>)
    requires Ranked(g, rank) && done <= g.Keys && k in g
    requires b.Keys == DepsClosureOf(g, rank, done) && more.Keys == DepsClosure(g, rank, k)
    requires CopiesFrom(b, m) && CopiesFrom(more, m)
    ensures (b + more).Keys == DepsClosureOf(g, rank, done + {k}) && CopiesFrom(b + more, m)
  {
    DepsClosureOfAdd(g, rank, done, k);
    assert (b + more).Keys == b.Keys + more.Keys;
    CopiesUnion(b, more, m);
  }

  /** One matching seed of `RebuildFromRegexp`: its closure joins those of the seeds done so far. */
  lemma DependentsSeedStep(g: Graph, rank: map<string, nat>, done: set<string>, k: string,
                           b: map<string, Node>, more: map<string, Node>, m: map<string, Node>)
    requires Ranked(g, rank) && done <= g.Keys && k in g
    requires b.Keys == DependentsClosureOf(g, rank, done) && more.Keys == DependentsClosure(g, rank, k)
    requires CopiesFrom(b, m) && CopiesFrom(more, m)
    ensures (b + more).Keys == DependentsClosureOf(g, rank, done + {k}) && CopiesFrom(b + more, m)
  {
    DependentsClosureOfAdd(g, rank, done, k);
    assert (b + more).Keys == b.Keys + more.Keys;
    CopiesUnion(b, more, m);
  }

  /** Two maps of copies of nodes of `m` join into one. */
  lemma CopiesUnion(b: map<string, Node>, c: map<string, Node>, m: map<string, Node>)
    requires CopiesFrom(b, m) && CopiesFrom(c, m)
    ensures CopiesFrom(b + c, m)
  {
  }

  /** Extending the nodes built so far by those of a recursive call. */
  lemma BuiltStep(a: map<string, Node>, b: map<string, Node>, c: map<string, Node>, m: map<string, Node>)
    requires CopiesFrom(b, m) && CopiesFrom(c, m)
    ensures (a + b) + c == a + (b + c)
    ensures CopiesFrom(b + c, m)
  {
  }

  /** One step of a scan that moves `x` out of `rest`, recording it in `done` when it belongs to `all`. */
  lemma ScanStep<T>(all: set<T>, done: set<T>, rest: set<T>, x: T)
    requires done == all - rest && x in rest
    ensures x in all ==> done + {x} == all - (rest - {x})
    ensures x !in all ==> done == all - (rest - {x})
  {
  }

  /** A thread built from scratch holds exactly what was built into it. */
  lemma EmptyUnion(b: map<string, Node>)
    ensures map[] + b == b
  {
  }

  /** Nodes allocated during the call, in either map, stay so in their union. */
  twostate lemma FreshValues(new a: map<string, Node>, new b: map<string, Node>)
    requires fresh(a.Values) && fresh(b.Values)
    ensures fresh((a + b).Values)
  {
    forall x | x in (a + b).Values
      ensures x in a.Values || x in b.Values
    {
      var k :| k in a + b && (a + b)[k] == x;
    }
  }

  /**
   * `removeDuplicate`: counts the occurrences of each key in a map, then
   * lists the map's keys in its (unspecified) iteration order.
   */
  method RemoveDuplicate(a: seq<string>) returns (r: seq<string>)
    ensures Distinct(r)
    ensures forall x :: x in r <==> x in a
    ensures |r| == |set x | x in a|
  {
    var mem: map<string, nat> := map[];
    for i := 0 to |a|
      invariant mem.Keys == set x | x in a[..i]
    {
      assert a[..i + 1] == a[..i] + [a[i]];
      mem := mem[a[i] := if a[i] in mem then mem[a[i]] + 1 else 1];
    }
    assert a[..|a|] == a;
    var newArray := new string[|mem|];
    var i := 0;
    var rest := mem.Keys;
    while rest != {}
      invariant rest <= mem.Keys
      invariant i + |rest| == |mem|
      invariant forall x :: x in newArray[..i] <==> x in mem && x !in rest
      invariant Distinct(newArray[..i])
      decreases |rest|
    {
      var k :| k in rest;
      newArray[i] := k;
      assert newArray[..i + 1] == newArray[..i] + [k];
      i := i + 1;
      rest := rest - {k};
    }
    assert newArray[..] == newArray[..i];
    r := newArray[..];
  }
}
