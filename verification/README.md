# Unity helper functions: deep child search and wait cache

This project models the two engine-independent pieces of the `Helpers` static class
(`Helpers.cs`) of a Unity utility script and proves properties about them:

- `FindDeepChild(aParent, aName)`: a breadth-first search over a scene-graph `Transform`
  hierarchy. It starts from a queue holding only `aParent` and dequeues one node at a time.
  If the node's name equals `aName`, the search returns it. Otherwise it enqueues the node's
  children in sibling order. When the queue runs empty it returns `null`.
- `GetWaitForSeconds(time)` with its static `WaitCache` dictionary from durations to
  `WaitForSeconds` descriptors.

Files:

- `wrappers.dfy`: `Option`. `None` stands for the `null` the helpers return.
- `scene_tree.dfy`: a `Transform` as `Node(name, children)`, plus tree vocabulary: sizes, the
  next generation of a forest, descendants (`Contains`), generations by depth, level order and
  pre-order enumeration.
- `deep_child.dfy`: the search. `Search` is the loop (one recursive call per iteration, with
  the queue as a sequence), and `FindDeepChild` starts it from `[aParent]`. `Visits` is the
  order in which the loop dequeues nodes when nothing matches, and `Dequeued` is the trace of
  one actual search.
- `wait_cache.dfy`: the cache as an explicit `map<K, D>` passed in and out of each call.
  The duration key `K` is opaque and compared by equality. The descriptor `D` that
  `new WaitForSeconds(time)` would allocate is a parameter (`created`). `Run` folds a
  sequence of calls starting from a given cache. `GetWaitForSecondsMemo` and `RunMemo` are
  the memoising behaviour the cache is evidently meant to have (see Findings).

## Model

| member | source | states |
|---|---|---|
| DeepChild.Search | Helpers.cs:73-85 | The loop terminates on every finite queue (its measure is the number of nodes in the queued trees). A found node has the requested name and lies in one of the queued trees. The loop returns `null` exactly when no node of the queued trees has that name. |
| DeepChild.FindDeepChild | Helpers.cs:69-86 | If `aParent` itself has the name, it is returned. A found node has the name and is `aParent` or one of its descendants. The result is `null` exactly when no node of the subtree has the name. |
| DeepChild.Visits | Helpers.cs:73-84 | The order in which the loop dequeues nodes when no name matches. It has one entry per node of the queued trees, and it starts with the queue's head. `SearchIsFirstVisit` and `VisitsAreLevelOrder` characterise it. |
| DeepChild.Dequeued | Helpers.cs:73-84 | The nodes an actual search dequeues. It starts with the queue's head, never exceeds the number of queued nodes, and only its last node may carry the name. `DequeuedIsPrefix` relates it to `Visits`. |
| DeepChild.FirstMatch | Helpers.cs:76-79 | The first element of a sequence carrying the name. It returns `None` exactly when no element matches; otherwise every earlier element has a different name. |
| DeepChild.SearchIsFirstVisit | Helpers.cs:73-85 | The loop's result is the first matching node of its dequeue order. |
| DeepChild.VisitsByGeneration | Helpers.cs:73-84 | Draining a queue that holds the rest of one generation followed by the children of the nodes of that generation already dequeued yields the rest of the generation, then every deeper generation in order. |
| DeepChild.VisitsAreLevelOrder | Helpers.cs:72-84 | The dequeue order of the loop is exactly the level order of the queued forest. |
| DeepChild.VisitsEachNodeOnce | Helpers.cs:73-84 | When nothing matches, the loop dequeues every node of the forest exactly once: its dequeue order is a permutation of the pre-order enumeration, and its length is the number of nodes. |
| DeepChild.VisitsCoverForest | Helpers.cs:73-84 | A node appears in the dequeue order if and only if it lies in one of the queued trees. |
| DeepChild.DequeuedIsPrefix | Helpers.cs:73-85 | An actual search dequeues a prefix of the level order. A found node is the last node dequeued, and no earlier dequeued node has the name. A `null` result means every node was dequeued. |
| DeepChild.DequeueCount | Helpers.cs:71-85 | A search from `aParent` dequeues at most as many nodes as the subtree has, and exactly that many when the result is `null`. |
| DeepChild.FindDeepChildIsFirstInLevelOrder | Helpers.cs:71-85 | `FindDeepChild` returns the first node of the subtree's level order that carries the name. |
| DeepChild.FirstInLevelOrderIsShallowest | Helpers.cs:73-83 | The first match in level order is the first match of some generation `d`, and no generation shallower than `d` holds a match. |
| DeepChild.FindDeepChildIsShallowest | Helpers.cs:69-86 | A found node sits at the smallest depth where the name occurs. Among the nodes at that depth, no earlier one in sibling order has the name. |
| DeepChild.ExampleFindsDepthTwo | Helpers.cs:69-86 | In the tree A -> [B -> [D, E], C -> [F]], a search for F returns the depth-2 node F. |
| DeepChild.ExampleAbsentName | Helpers.cs:73-85 | In the same tree, a search for an absent name returns `null` after dequeuing all six nodes. |
| DeepChild.ExampleShallowestFirst | Helpers.cs:73-83 | With X at depths 1 and 2, and twice at depth 1, the earlier depth-1 sibling is returned. |
| WaitCache.GetWaitForSeconds | Helpers.cs:31-37 | As written. A miss returns `null` and leaves the cache unchanged. A hit replaces the entry with the newly created descriptor and returns it. The key set never changes, and no other entry changes. |
| WaitCache.Run | Helpers.cs:30-37 | Repeated calls against the static dictionary, as written. There is one result per call, and any descriptor returned is the one created by that call. `RunKeepsKeys` gives its invariant. |
| WaitCache.RunKeepsKeys | Helpers.cs:30-37 | Over any sequence of calls, the key set never changes. Each call returns a descriptor exactly when its duration was a key of the starting cache. |
| WaitCache.FromEmptyNeverCaches | Helpers.cs:30-37 | Starting from the empty dictionary the field is initialised with, the cache stays empty and every call returns `null`. |
| WaitCache.GetWaitForSecondsMemo | Helpers.cs:31-37 | Corrected. A hit returns the stored descriptor and leaves the cache unchanged. A miss stores the newly created descriptor and returns it. Existing entries never change. |
| WaitCache.RunMemo | Helpers.cs:30-37 | Corrected cache over repeated calls. There is one result per call, and the final key set is the starting keys plus every requested duration. |
| WaitCache.RunMemoConsistent | Helpers.cs:30-37 | Corrected cache over any sequence of calls: stored entries are never changed, and each call's result is the final entry for its duration. |
| WaitCache.RunMemoFirstRequest | Helpers.cs:33-36 | Corrected cache: the first request for a duration the cache does not hold returns the descriptor created for that request. |
| WaitCache.RunMemoIdempotent | Helpers.cs:30-37 | Corrected cache: all calls for the same duration return the same descriptor. When the cache did not hold that duration, this is the descriptor created by the first request. |
| WaitCache.SecondRequestDiffers | Helpers.cs:33 | Two requests for one duration on the empty cache: as written, both return `null`; the corrected cache returns the first request's descriptor twice. |

## Left out

- `WaitAndExecute` (Helpers.cs:9-13): a coroutine that yields to the engine's scheduler and then invokes an arbitrary delegate. There is no logic to model beyond the engine.
- `FadeCanvasGroup` (Helpers.cs:15-28): a floating-point interpolation driven by the per-frame `Time.deltaTime` and by engine UI state.
- `GetWorldPositionOfCanvasElement` (Helpers.cs:54-62): a thin wrapper over `RectTransformUtility` and `Camera.main`. Those engine calls are not part of this model.
- `DeleteChildren` (Helpers.cs:64-67): its only effect is engine object destruction.
- `IsPointerOverUI` (Helpers.cs:39-51): commented out in the source, and dependent on the engine's event system.
- Float keys of `WaitCache`: NaN, negative zero and rounding are not modelled. The key is an opaque type with equality.
- `WaitForSeconds` internals: a descriptor is an opaque value. A newly allocated descriptor is passed in as `created` rather than allocated.
- The static field: the dictionary is threaded through calls explicitly. Thread safety is not modelled; the engine calls these helpers from its single main thread.
- A `null` `aParent`: in the source, `c.name` throws on the first iteration. In the model, the root is always a node.
- Node identity: engine `Transform`s are references, while `Node` values are compared structurally. Two structurally identical subtrees are therefore indistinguishable in the model. Results are stated as node values, and positions in level order stand in for identity.
- The hierarchy is assumed to be a finite tree, which is what the engine guarantees for `Transform` parents. Mutation of the hierarchy during the search is not modelled.

## Findings

| source | as written | input that shows it | evidently intended | confidence | as-written member | corrected member |
|---|---|---|---|---|---|---|
| Helpers.cs:33 | `if (!WaitCache.TryGetValue(time, out var wait)) return wait;` returns the `null` default on a miss and inserts nothing; only a hit (which never happens from the empty cache) stores a new descriptor | any first call, e.g. `GetWaitForSeconds(1f)` on the empty cache, returns `null`; so does every later call | on a miss, store `new WaitForSeconds(time)` and return it; on a hit, return the stored descriptor | high (not executed) | WaitCache.FromEmptyNeverCaches | WaitCache.RunMemoIdempotent |
