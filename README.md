# parathread dependency graphs in Dafny

This project models the graph bookkeeping of the `parathread` package (Go). A
`Thread` holds a map from string keys to `Node`s. Each node carries its key,
the dependency keys it was declared with, and an opaque work function.

- `Add` and `AddNode` fill an open thread.
- `Prepare` closes the thread and resolves each node's declared keys into
  references to the thread's own nodes. It drops duplicates and keys that
  are not in the thread.
- The rebuild operations derive a fresh, prepared thread from a prepared one:
  - `RebuildToKey` and `RebuildToRegexp` take the seed nodes and everything
    they transitively depend on. They follow `Deps`.
  - `RebuildFromKey` and `RebuildFromRegexp` take the seed nodes and
    everything that transitively depends on them. They scan the whole
    source map with `HasDep`.
- `ExcludeKeys` derives an open thread that shares the node objects whose
  keys a pattern rejects.

The names read backwards: `To*` walks dependencies and `From*` walks
dependents. `ExcludeKeys` shares node objects with its source.

Files:

- `keygraph.dfy` (module `KeyGraph`) is the pure side. It defines the
  declared key graph (a node's declared keys that are present in the map)
  and a ghost `rank` that witnesses acyclicity. It also defines the
  dependency closure (`DepsClosure`) and the dependent closure
  (`DependentsClosure`) of a key, and their unions over several seeds. It
  proves that each closure is closed under edges, that it is the least such
  set, that it does not depend on the rank chosen, and that the two closures
  mirror each other.
- `parathread.dfy` (module `Parathread`) is the imperative side, as classes:
  - `Node` has `const` key, declared keys and work item, and a mutable `Deps`.
  - `Thread` has mutable `Closed`, `Map` and `logger`.
  - The methods follow the Go code statement by statement.
  - Go's map iteration order is unspecified, so every `range` over a map
    becomes a loop that picks an arbitrary remaining key.
  - A regular expression is an uninterpreted predicate `matches` on keys.

The recursive rebuild methods return a ghost map `built` of the nodes they
added. Their contracts state that the thread's map grew by exactly `built`,
and that the keys of `built` are the closure of the start node's key in the
source's declared graph. Every node of `built` is a freshly allocated copy
(key, declared keys and work item) of the source node under the same key.

Each `Rebuild*` method does the same steps as the Go code:

1. Prepare `this` if it is open (`PrepareIfOpen`).
2. Create a new thread sharing the logger.
3. Run the recursive build from each seed.
4. Prepare the new thread.

Steps 2–4 are written as a constructor of the new thread (`BuiltTo`,
`BuiltToMatching`, `BuiltFrom`, `BuiltFromMatching`). For the Regexp
variants, the loop over the source keys is the method `FillTo`/`FillFrom`
on the new thread.

## Model

| member | source | states |
|---|---|---|
| Parathread.Node.constructor | parathread/parathread.go:25-33 | `newNode`: the node has the given key, declared keys and work item, and no resolved dependencies |
| Parathread.Node.HasDep | parathread/parathread.go:65-72 | true exactly when some resolved dependency has the other node's key; changes nothing |
| Parathread.HasDepResolved | parathread/parathread.go:65-72 | on a prepared map, `HasDep` of the node under `c` for the node under `key` holds exactly when `c` declares `key` (an edge of the declared graph) |
| Parathread.Thread.constructor | parathread/parathread.go:95-101 | `NewThread`: open, empty map, no logger |
| Parathread.Thread.AddLogger | parathread/parathread.go:103-106 | sets the logger; map and `Closed` unchanged |
| Parathread.Thread.Add | parathread/parathread.go:127-133 | on an open thread, `Map[k]` becomes a fresh node with key `k`, the given declared keys and work item and empty `Deps`; an existing `k` is overwritten and every other entry is unchanged |
| Parathread.Thread.AddNode | parathread/parathread.go:135-141 | on an open thread, `Map` becomes the old map with the given node object under its own key |
| Parathread.Thread.Close | parathread/parathread.go:143-145 | sets `Closed`; nothing else changes |
| Parathread.Thread.Prepare | parathread/parathread.go:147-160 | the thread is closed, its map is unchanged, and every node's `Deps` is a resolution of its declared keys: pairwise distinct nodes of the map, each under a declared key, and one for every declared key present in the map |
| Parathread.ResolutionContent | parathread/parathread.go:147-160 | a resolution holds exactly the map's nodes under the declared keys present in the map, and its length is the number of distinct such keys |
| Parathread.ResolutionUnique | parathread/parathread.go:147-160 | two resolutions of the same declared keys hold the same nodes and have the same length, so preparing again gives the same `Deps` as a set |
| Parathread.KeyedCard | parathread/parathread.go:150-158 | nodes with pairwise distinct keys are as many as their keys |
| Parathread.ResolvedKeys | parathread/parathread.go:150-158 | the keys of a resolved node's dependencies are its declared keys present in the map (its edges in the declared graph) |
| Parathread.RemoveDuplicate | parathread/parathread.go:298-310 | the result has no repeated element, holds exactly the input's elements, and its length is the number of distinct inputs |
| Parathread.Thread.PrepareIfOpen | parathread/parathread.go:211-213 | map and logger are unchanged; a thread that was open ends prepared, and a thread that was already closed (prepared or not) is left untouched, node `Deps` included |
| Parathread.Thread.RecBuildToNode | parathread/parathread.go:240-245 | the map grows by exactly `built`, whose keys are the start key plus every key it transitively depends on; each added node is a fresh copy of the source node under that key |
| Parathread.Thread.RecBuildFromNode | parathread/parathread.go:277-284 | the map grows by exactly `built`, whose keys are the start key plus every key that transitively depends on it (found by `HasDep` over the whole source map); each added node is a fresh copy of the source node |
| Parathread.Thread.RebuildToKey | parathread/parathread.go:229-238 | this thread ends prepared with its map unchanged; the result is fresh and prepared, shares the logger, holds fresh copies of exactly `{k}` plus the keys `k` transitively depends on, and each node has the same dependency keys as in the source |
| Parathread.Thread.BuiltTo | parathread/parathread.go:233-237 | the new thread of `RebuildToKey`: prepared, logger copied, keys the dependency closure of `k`, fresh copies of the source nodes |
| Parathread.Thread.RebuildToRegexp | parathread/parathread.go:210-227 | as `RebuildToKey`, with the keys being the union of the dependency closures of every key `matches` accepts |
| Parathread.Thread.BuiltToMatching | parathread/parathread.go:214-226 | the new thread of `RebuildToRegexp`: prepared, logger copied, keys the union of the dependency closures of the matching keys |
| Parathread.Thread.FillTo | parathread/parathread.go:216-225 | the loop over the source keys fills an empty open thread with fresh copies of exactly the union of the dependency closures of the matching keys |
| Parathread.Thread.RebuildFromKey | parathread/parathread.go:266-275 | this thread ends prepared with its map unchanged; the result is fresh and prepared, shares the logger, and holds fresh copies of exactly `{k}` plus every key that transitively depends on `k`; each node keeps those of its source dependency keys that are in the result |
| Parathread.Thread.BuiltFrom | parathread/parathread.go:270-274 | the new thread of `RebuildFromKey`: prepared, logger copied, keys the dependent closure of `k`, fresh copies of the source nodes |
| Parathread.Thread.RebuildFromRegexp | parathread/parathread.go:247-264 | as `RebuildFromKey`, with the keys being the union of the dependent closures of every key `matches` accepts |
| Parathread.Thread.BuiltFromMatching | parathread/parathread.go:251-263 | the new thread of `RebuildFromRegexp`: prepared, logger copied, keys the union of the dependent closures of the matching keys |
| Parathread.Thread.FillFrom | parathread/parathread.go:253-262 | the loop over the source keys fills an empty open thread with fresh copies of exactly the union of the dependent closures of the matching keys |
| Parathread.RestrictedDeps | parathread/parathread.go:270-273 | in a prepared copy of part of a prepared map, a node depends on exactly those of its original's dependency keys that were copied |
| Parathread.CopyDeps | parathread/parathread.go:270-273 | the same, for every node of the copy |
| Parathread.ClosedCopyDeps | parathread/parathread.go:233-236 | when the copied keys are closed under dependencies, every node keeps all of its original's dependency keys |
| Parathread.Thread.ExcludeKeys | parathread/parathread.go:286-296 | the result is a fresh open thread sharing the logger, whose map is exactly the source entries whose key `matches` rejects (the same node objects); the source is not modified |
| KeyGraph.DepsClosure | parathread/parathread.go:240-245 | the seed and every key reached by recursing into resolved dependencies; contains the seed and only keys of the graph |
| KeyGraph.DependentsClosure | parathread/parathread.go:277-284 | the seed and every key reached by recursing into dependents; contains the seed and only keys of the graph |
| KeyGraph.DepsClosureOf | parathread/parathread.go:216-225 | union of the dependency closures of the matching seeds; only keys of the graph |
| KeyGraph.DependentsClosureOf | parathread/parathread.go:253-262 | union of the dependent closures of the matching seeds; only keys of the graph |
| KeyGraph.DepsClosureUnfold | parathread/parathread.go:240-245 | the closure of `k` is `k` plus the closures of its direct dependencies |
| KeyGraph.DependentsClosureUnfold | parathread/parathread.go:277-284 | the dependent closure of `k` is `k` plus the dependent closures of its direct dependents |
| KeyGraph.DepsClosureOfAdd | parathread/parathread.go:216-225 | adding one seed adds exactly its closure to the union |
| KeyGraph.DependentsClosureOfAdd | parathread/parathread.go:253-262 | adding one seed adds exactly its dependent closure to the union |
| KeyGraph.DepsClosureTransitive | parathread/parathread.go:240-245 | the closure of any member of the closure of `k` lies inside the closure of `k` |
| KeyGraph.DepsClosureIsClosed | parathread/parathread.go:240-245 | every dependency of a member of the closure is in the closure |
| KeyGraph.DepsClosureOfIsClosed | parathread/parathread.go:216-225 | every dependency of a member of a union of closures is in the union |
| KeyGraph.DepsClosureIsLeast | parathread/parathread.go:240-245 | every dependency-closed set holding `k` contains the closure of `k` (so the closure is exactly reachability) |
| KeyGraph.DepsClosureRankFree | parathread/parathread.go:240-245 | the closure is the same for every acyclicity witness |
| KeyGraph.DependentsClosureTransitive | parathread/parathread.go:277-284 | the dependent closure of any member of the dependent closure of `k` lies inside it |
| KeyGraph.DependentsClosureIsClosed | parathread/parathread.go:277-284 | every key depending on a member of the dependent closure is in it |
| KeyGraph.DependentsClosureOfIsClosed | parathread/parathread.go:253-262 | every key depending on a member of a union of dependent closures is in the union |
| KeyGraph.DependentsClosureIsLeast | parathread/parathread.go:277-284 | every dependents-closed set holding `k` contains the dependent closure of `k` |
| KeyGraph.DependentsClosureRankFree | parathread/parathread.go:277-284 | the dependent closure is the same for every acyclicity witness |
| KeyGraph.ClosureDuality | parathread/parathread.go:240-284 | `j` is in the dependent closure of `k` exactly when `k` is in the dependency closure of `j` |

## Left out

- Concurrent execution is not modelled: `Node.Run`, `Node.DryRun`, `Thread.Run` and `Thread.DryRun`, with the `Executed` wait group of each node and the thread's `wg`. These are goroutines, channels and timers.
- Logging is not modelled. `Log` forwards to the external Firebase client when a logger is set (parathread/parathread.go:108-112). `DryLog` only prints with `log.Printf` (parathread/parathread.go:114-116). `AddLogger` takes the client as an already-built `Sink` instead of building and starting it from an endpoint. The "Ignore dep" log line in `Prepare` has no effect in the model.
- `MapNodes.String` and `Thread.String` are not modelled, because they only render text with `fmt`.
- Regular expressions are an uninterpreted predicate on keys. The `log.Fatal` and `MustCompile` failure paths on malformed patterns are not modelled.
- Parathread.Thread.Add: the Go panic on a closed thread is the precondition `!Closed` rather than an error outcome. The same holds for `AddNode`.
- Parathread.Thread.RebuildToKey: requires `k in Map` (Go dereferences a nil node otherwise). The same holds for `RebuildFromKey`.
- Parathread.Thread.RebuildToKey: requires the whole declared graph to be acyclic, witnessed by a ghost `rank`. This is stronger than Go needs. `RecBuildToNode` only recurses into `Deps`, so Go terminates whenever no cycle is reachable from the seeds. `RecBuildFromNode` terminates whenever no cycle lies among the seeds' transitive dependents. A graph with a cycle unrelated to the seeds, such as `{a: [], x: [y], y: [x]}` rebuilt from `a`, is not covered. The same holds for `RebuildToRegexp`, `RebuildFromKey`, `RebuildFromRegexp` and the two recursive builds.
- Parathread.Thread.RebuildToRegexp: requires the thread to be open or prepared. A thread closed by a bare `Close` without `Prepare` keeps stale `Deps`, and the rebuilds skip `Prepare` for it. `ExcludeKeys` gives a second way: the derived thread shares node objects with its source (parathread/parathread.go:290-293), so a `Prepare` of the derived thread re-resolves those nodes against its smaller map and leaves the closed source no longer prepared. Neither case is covered. The same holds for the other three rebuilds.
- Parathread.Thread.RecBuildToNode: states nothing about the `Deps` of the copies it adds. `Add` leaves them empty, and the `Prepare` that the rebuilds run next overwrites them. The same holds for `RecBuildFromNode`.
- Parathread.Thread.BuiltTo: the sequence "`NewThread`, copy the logger, recursive build, `Prepare`" of each rebuild is one constructor of the new thread, not four statements in the caller. The same holds for `BuiltToMatching`, `BuiltFrom` and `BuiltFromMatching`.
- The `AsyncPush` call of the logger and the `firelog` package are not part of this model.
