# Neural graph engine: a Dafny model

This project models the neural-network core of the simulation engine
(`engine/src/nn/`). A net is a layered graph. Layer 0 holds the inputs and
the last layer holds the outputs. Each node owns its outgoing edges, and
every edge carries a weight and an enabled flag. The model covers:

- the graph store `NeuralGraph` (`mod.rs`): nodes and edges are added and
  removed, layers are inserted with edge renumbering, placeholders are padded
  and pruned, and `has_cycle` runs its depth-first search;
- `Net::tick`: one forward pass over the worklist of pending inputs, keyed
  by layer;
- the mutation operators `AddEdge`, `RemoveEdge`, `AddNeuron` and
  `RemoveNeuron` (`mutate.rs`), and the `Net::mutate` driver;
- the alignment `intersection`, `AlignedItem` and `connection_pair_exists`
  (`util.rs`);
- `Crossover`, `DefaultIterator` and `ReproduceError` (`reproduce.rs`), and
  the `Net::reproduce` driver;
- `Net::from_preserving_basic` and `Net::gen`.

Every operation that edits state in place is a method:

- on the class `Graph.NeuralGraph` (field `layers`), or
- on a `Nets.Net` (fields `graph`, `inputLayer` and `outputLayer`).

Each such method is proved to leave `layers` equal to a function of the old
storage. These functions live in value-level modules:

| module | defines |
|---|---|
| `GraphSpec` | the store's lookups and single edits |
| `GraphLayers` | layer insertion, placeholder padding and pruning |
| `Sampling` | the random samplers |
| `Reach` and `CycleSearch` | what `has_cycle` decides |
| `MutateSpec` and `MutateRun` | the operators and the mutation driver |
| `GenSpec` | generation |
| `Align` | `intersection` |
| `ReproduceSpec` | crossover and the reproduction driver |
| `TickSpec` | the tick |

The properties are proved about those functions. The main ones:

- the structural invariant `WellFormed` is kept by appending a node,
  `add_edge`, `remove_edge`, `add_layer` and the mutation operators `AddEdge`,
  `RemoveEdge` and `AddNeuron`, and by whole mutation runs that never pick
  `RemoveNeuron`. Two operations are exceptions:
  - `removed_node`, and so `RemoveNeuron`, can leave an edge dangling
    (`NodeRemoval.RemovedNodeDangles`); they keep only the forward order and
    the unique pairs;
  - `prune` as written has no such lemma, because it can delete a real node
    or panic.

  The corrected `removed_node` and the corrected `prune` in the Findings
  table both keep `WellFormed`;
- `WellFormed` means every edge goes forward, targets an existing node, and
  at most one edge joins any ordered (from, to) pair;
- adding an edge and then removing it restores the graph;
- `has_cycle` answers exactly whether the part reachable from the start is a
  tree;
- generation never fails once its random draws are in range;
- the items `intersection` reports are characterised exactly;
- the graph that `tick` leaves is given by a recursive definition with no
  worklist: what each node receives from all the layers below it.

Random draws, the generator's answers and the neurons' activation functions
are explicit parameters. A Rust panic (an index out of range, an `unwrap` of
`None`, an empty `gen_range`) becomes a precondition. A `?` error becomes a
`Result` that the contracts follow.

## Model

| member | source | states |
|---|---|---|
| GraphSpec.GetNode | engine/src/nn/mod.rs:189-194 | none exactly when the layer or the node index is out of range, otherwise the stored node |
| GraphSpec.FindEdgeIndex | engine/src/nn/mod.rs:196-201 | the first position whose target is `to`: no earlier connection targets it, and none is found exactly when no connection targets it |
| GraphSpec.GetEdge | engine/src/nn/mod.rs:196-201 | none exactly when `from` has no edge to `to`; otherwise an edge of `from` aimed at `to` |
| GraphSpec.AddNode | engine/src/nn/mod.rs:158-180 | `LayerNotFound(len)` exactly when the layer is past the end; otherwise only that layer changes, the node is appended to it, and the location of the new last node is returned |
| GraphSpec.AddNodeThenGet | engine/src/nn/mod.rs:158-194 | the location `add_node` returns holds the node it was given |
| GraphSpec.AddEdge | engine/src/nn/mod.rs:214-239 | `to` is checked before `from`, and a missing endpoint is `NodeNotFound` of that endpoint; `ConnectionExists` exactly when `from` already has an edge to `to`; otherwise exactly one edge is appended to `from`, and nothing else changes |
| GraphSpec.AddEdgeKeepsUnique | engine/src/nn/mod.rs:227-237 | a successful `add_edge` keeps at most one edge per (from, to) pair |
| GraphSpec.AddEdgeKeepsForward | engine/src/nn/mod.rs:214-239 | a successful `add_edge` of a forward edge keeps every edge forward |
| GraphSpec.AddEdgeKeepsInRange | engine/src/nn/mod.rs:220-222 | a successful `add_edge` leaves no edge dangling, because `to` was checked to exist |
| GraphSpec.RetainNot | engine/src/nn/mod.rs:244 | exactly the connections not aimed at `to` are kept, and the list is shorter exactly when one was aimed at it |
| GraphSpec.RetainNotNoTarget | engine/src/nn/mod.rs:244 | `retain` on a list with no edge to `to` changes nothing |
| GraphSpec.RemoveEdge | engine/src/nn/mod.rs:241-246 | the flag is true exactly when nothing was removed; only `from`'s connections change, losing those aimed at `to` |
| GraphSpec.AddThenRemoveEdge | engine/src/nn/mutate.rs:74-80 | adding a new edge and then removing it gives back the original graph, with flag false: the roll-back of `AddEdge` is exact |
| GraphSpec.DropTargetLayer | engine/src/nn/mod.rs:251-255 | each node of a layer keeps its value and loses exactly its edges aimed at the removed location |
| GraphSpec.RemovedNode | engine/src/nn/mod.rs:248-256 | the layer count stays the same and the removed node's layer is one shorter |
| GraphSpec.RemovedNodeDropsTarget | engine/src/nn/mod.rs:248-256 | after `removed_node`, no edge targets the removed location, and every node is the node that sat at its old index, minus those edges |
| GraphInvariants.RetainNotDistinct | engine/src/nn/mod.rs:244 | dropping the edges to one target keeps the remaining targets distinct |
| GraphInvariants.RemoveEdgeKeepsWellFormed | engine/src/nn/mod.rs:241-246 | `remove_edge` keeps `WellFormed` |
| GraphInvariants.PushNodeKeepsWellFormed | engine/src/nn/mod.rs:275-278 | appending an unconnected node keeps `WellFormed` |
| GraphInvariants.AddLayerKeepsWellFormed | engine/src/nn/mod.rs:258-273 | `add_layer` keeps `WellFormed` |
| GraphInvariants.AddEdgeKeepsWellFormed | engine/src/nn/mod.rs:214-239 | a successful `add_edge` of a forward edge keeps `WellFormed` |
| GraphLayers.MapLayerEdges | engine/src/nn/mod.rs:263-271 | a renumbering pass keeps every node value and every edge's position and payload, and changes only targets |
| GraphLayers.InsertLayers | engine/src/nn/mod.rs:262-271 | `d` empty layers sit at `idx`; earlier layers stay in place and later ones move down by `d`; every target at or past `idx` shifts by `d` |
| GraphLayers.InsertTwice | engine/src/nn/mod.rs:260-272 | two rounds of the loop that each insert one layer equal one insertion of two |
| GraphLayers.ShiftTwice | engine/src/nn/mod.rs:265-269 | shifting targets by one twice is shifting them by two |
| GraphLayers.AddLayer | engine/src/nn/mod.rs:258-273 | `add_layer(idx)` inserts one layer, or two exactly when `idx` equals the layer count (the `first` flag and the `len - 2` guard) |
| GraphLayers.InsertLayersAt | engine/src/nn/mod.rs:263-271 | each node after the insertion is the same node of its source layer, with every connection shifted |
| GraphLayers.ShiftedTargetValid | engine/src/nn/mod.rs:266-268 | a target that existed before the insertion exists at its shifted place |
| GraphLayers.InsertLayersKeepsWellFormed | engine/src/nn/mod.rs:258-273 | inserting layers keeps `WellFormed` |
| GraphLayers.InsertLayersInRange | engine/src/nn/mod.rs:262-271 | inserting layers keeps every edge in range |
| GraphLayers.InsertLayersForward | engine/src/nn/mod.rs:262-271 | inserting layers keeps every edge forward |
| GraphLayers.InsertLayersUnique | engine/src/nn/mod.rs:262-271 | inserting layers keeps the (from, to) pairs unique |
| GraphLayers.Pad | engine/src/nn/mod.rs:282-284 | the layer keeps its prefix and is padded with placeholders up to length `n` |
| GraphLayers.CreateNodeAt | engine/src/nn/mod.rs:280-286 | the new node sits exactly at `loc`, behind `loc.node` placeholders, in a freshly inserted layer; every other layer is as `add_layer` leaves it |
| GraphLayers.BlankIndicesUpTo | engine/src/nn/mod.rs:291-298 | exactly the placeholders of the layer prefix are recorded, in increasing index order |
| GraphLayers.BlankLocsUpTo | engine/src/nn/mod.rs:290-299 | exactly the placeholder locations of the first `l` layers are recorded |
| GraphLayers.RemoveAndRenumber | engine/src/nn/mod.rs:302-323 | one removal deletes the slot, and every edge target past it in the same layer moves up by one |
| GraphLayers.RemoveSingle | engine/src/nn/mod.rs:301-324 | a removal list holding one location removes exactly that slot |
| GraphLayers.PruneOneBlank | engine/src/nn/mod.rs:288-325 | with a single placeholder in the graph, `prune` records exactly it, never panics, and leaves no placeholder |
| GraphLayers.RemovedOnlyBlank | engine/src/nn/mod.rs:302-323 | removing the only placeholder leaves none |
| GraphLayers.OneBlankLocs | engine/src/nn/mod.rs:289-299 | with a single placeholder, the scan records exactly its location |
| GraphLayers.OneBlankIndices | engine/src/nn/mod.rs:291-298 | the scan of a layer prefix records the single placeholder exactly when the placeholder lies in it |
| GraphLayers.BlanksBelow | engine/src/nn/mod.rs:288-325 | the number of placeholders below index `n`, at most `n`; what it means for renumbering is stated by `GraphLayers.KeepNonBlankAt`: a real node at `n` moves to `n - BlanksBelow(n)` |
| GraphLayers.KeepNonBlank | engine/src/nn/mod.rs:288-325 | the compacted layer has no placeholder, and its length is the old length minus the placeholders |
| GraphLayers.PruneIntended | engine/src/nn/mod.rs:288-325 | corrected `prune`: no placeholder is left, and each layer loses exactly its placeholders |
| GraphLayers.CompactEdgesMeaning | engine/src/nn/mod.rs:302-323 | corrected renumbering of one node's connections: every kept connection is the renumbered form of one not aimed at a placeholder, every such connection is kept, and those aimed at a placeholder are dropped |
| GraphLayers.KeepNonBlankFrom | engine/src/nn/mod.rs:288-325 | every node of the compacted layer comes from the layer |
| GraphLayers.BlanksBelowGrowth | engine/src/nn/mod.rs:309-314 | between two indices the placeholder count grows by at most their distance |
| GraphLayers.RenumberedDistinct | engine/src/nn/mod.rs:309-314 | two different real-node targets stay different after renumbering |
| GraphLayers.CompactEdgesDistinct | engine/src/nn/mod.rs:302-323 | a connection list with distinct existing targets keeps them distinct after compaction |
| GraphLayers.PruneIntendedKeepsWellFormed | engine/src/nn/mod.rs:288-325 | corrected `prune` keeps `WellFormed` and leaves no placeholder |
| GraphLayers.KeepNonBlankAt | engine/src/nn/mod.rs:288-325 | a real node at `n` moves to `n` minus the placeholders below it |
| GraphLayers.PruneIntendedPlacement | engine/src/nn/mod.rs:288-325 | corrected `prune` keeps every real node, with its value, at the index its renumbered in-edges now name; its own connections are `CompactEdges` of the old ones |
| PruneFinding.LeadingScan | engine/src/nn/mod.rs:289-299 | the scan of [[input], [blank, blank, neuron], [output]] records (1, 0) and (1, 1) |
| PruneFinding.LeadingFirstRemoval | engine/src/nn/mod.rs:302-323 | the first removal deletes (1, 0) |
| PruneFinding.LeadingSecondRemoval | engine/src/nn/mod.rs:302-323 | the stale second index (1, 1) now names the neuron and deletes it |
| PruneFinding.StaleIndexDropsRealNode | engine/src/nn/mod.rs:301-324 | as written, `prune` of that graph deletes the neuron and keeps a placeholder |
| PruneFinding.IntendedKeepsRealNode | engine/src/nn/mod.rs:288-325 | corrected `prune` of the same graph keeps the neuron alone in layer 1 and leaves no placeholder |
| PruneFinding.TrailingScan | engine/src/nn/mod.rs:289-299 | the scan of [[input], [neuron, blank, blank], [output]] records (1, 1) and (1, 2) |
| PruneFinding.StaleIndexOutOfRange | engine/src/nn/mod.rs:301-302 | on that graph the second recorded index is past the end when its turn comes, so `Vec::remove` panics |
| Graph.NeuralGraph.constructor | engine/src/nn/mod.rs:149-151 | a new graph has no layers |
| Graph.NeuralGraph.AddLayerToEnd | engine/src/nn/mod.rs:153-156 | one empty layer is appended, and its index is returned |
| Graph.NeuralGraph.AddNode | engine/src/nn/mod.rs:158-180 | result and new storage are exactly `GraphSpec.AddNode`'s; on error nothing changes |
| Graph.NeuralGraph.AddEdge | engine/src/nn/mod.rs:214-239 | result and new storage are exactly `GraphSpec.AddEdge`'s; on error nothing changes |
| Graph.NeuralGraph.RemoveEdge | engine/src/nn/mod.rs:241-246 | new storage and flag are exactly `GraphSpec.RemoveEdge`'s |
| Graph.NeuralGraph.RemovedNode | engine/src/nn/mod.rs:248-256 | the per-layer filtering loop leaves exactly `GraphSpec.RemovedNode` |
| Graph.NeuralGraph.InsertEmptyLayer | engine/src/nn/mod.rs:261-271 | one round of `add_layer`'s loop (the insert and the renumbering sweep) leaves `InsertLayers(old, idx, 1)` |
| Graph.NeuralGraph.AddLayer | engine/src/nn/mod.rs:258-273 | the do-while loop leaves exactly `GraphLayers.AddLayer` |
| Graph.NeuralGraph.PushNodeAt | engine/src/nn/mod.rs:275-278 | the node is appended to the layer and its location returned, the same effect as a successful `add_node` |
| Graph.NeuralGraph.CreateNodeAt | engine/src/nn/mod.rs:280-286 | the padding loop and the insert leave exactly `GraphLayers.CreateNodeAt` |
| Graph.NeuralGraph.ScanBlanks | engine/src/nn/mod.rs:289-299 | the nested scan returns every placeholder location, layer by layer, in index order |
| Graph.NeuralGraph.RemoveAndRenumber | engine/src/nn/mod.rs:302-323 | one removal with its renumbering sweep leaves exactly `GraphLayers.RemoveAndRenumber` |
| Graph.NeuralGraph.Prune | engine/src/nn/mod.rs:288-325 | `prune` as written: the recorded indices are removed in order, without being adjusted |
| NetTypes.Targets | engine/src/nn/mod.rs:400-402 | the connections' targets, in order: what `has_cycle` pushes and what `intersection` collects per node (util.rs:57-61) |
| Graph.PushTargets | engine/src/nn/mod.rs:400-402 | the stack gains the targets of the connections, in order |
| Graph.NeuralGraph.HasCycle | engine/src/nn/mod.rs:383-405 | true exactly when the graph is non-empty and the part reachable from the start (default (0, 0)) is not a tree: some location is the target of two connection entries, or of one entry and the start |
| Reach.ReachableStep | engine/src/nn/mod.rs:400-402 | following a connection of a reachable node stays reachable |
| Reach.RepeatBreaksUniqueness | engine/src/nn/mod.rs:394-398 | a walk from the start that visits a location twice means the reachable part is not a tree |
| Reach.UniqueOnClosed | engine/src/nn/mod.rs:394-404 | a closed set around the start, with distinct targets and none back to the start, makes the reachable part a tree |
| Reach.ChainIsTree | engine/src/nn/mod.rs:383-405 | from the head of a chain, everything reachable exists and is reached once |
| Reach.ListedInRange | engine/src/nn/mod.rs:400 | if a list of existing nodes is closed under connections, everything reachable from its head exists |
| Reach.InRangeFromValid | engine/src/nn/mod.rs:400 | when no edge dangles, everything reachable from an existing node exists, so the search never indexes out of range |
| CycleSearch.SearchInit | engine/src/nn/mod.rs:390-392 | the empty visited set and the stack holding the start satisfy the loop invariant |
| CycleSearch.TwoSlotsOneTarget | engine/src/nn/mod.rs:394-402 | two distinct pushes of one location by reachable nodes (or the root push) break uniqueness |
| CycleSearch.SearchPopVisited | engine/src/nn/mod.rs:395-397 | popping an already visited location means the reachable part is not a tree, so returning `true` is right |
| CycleSearch.SearchPopNew | engine/src/nn/mod.rs:398-402 | popping a new location: it exists, and marking it visited and pushing its targets keeps the invariant |
| CycleSearch.SearchDone | engine/src/nn/mod.rs:394-404 | an empty stack means every reachable location was reached once, so returning `false` is right |
| CycleExample.DefaultStartIsTree | engine/src/nn/mod.rs:807-808 | on the unit-test graph, `has_cycle(None)` is false |
| CycleExample.ChainFromSecondInput | engine/src/nn/mod.rs:809 | on the unit-test graph, `has_cycle(Some((0, 1)))` is false |
| CycleExample.BackEdgeInRange | engine/src/nn/mod.rs:811-813 | after the back edge is added, the search from (0, 1) stays in range |
| CycleExample.BackEdgeFromSecondInput | engine/src/nn/mod.rs:811-813 | after the back edge (3, 0) -> (1, 0) is added, `has_cycle(Some((0, 1)))` is true |
| NodeRemoval.RemovedNodeAt | engine/src/nn/mod.rs:248-256 | each node after `removed_node` is the node from its old index, with its edges to the removed location dropped |
| NodeRemoval.RemovedNodeKeepsOrder | engine/src/nn/mod.rs:248-256 | as written, `removed_node` keeps every edge forward and keeps the pairs unique |
| NodeRemoval.RemovedNodeDangles | engine/src/nn/mod.rs:248-256 | as written, `removed_node` of (1, 0) on a well-formed graph leaves an edge to (1, 1), which no longer exists |
| NodeRemoval.DropTarget | engine/src/nn/mod.rs:251-255 | every layer loses exactly its edges to the removed location |
| NodeRemoval.DropTargetKeepsWellFormed | engine/src/nn/mod.rs:251-255 | dropping those edges keeps `WellFormed`, and no edge to the location is left |
| NodeRemoval.RemovedNodeRenumbered | engine/src/nn/mod.rs:248-256 | corrected `removed_node`: same layer count, and the removed node's layer is one shorter |
| NodeRemoval.RenumberAt | engine/src/nn/mod.rs:302-323 | each connection after a removal is the renumbered connection of the same node before it |
| NodeRemoval.DecrementPastInjective | engine/src/nn/mod.rs:309-314 | the renumbering is one-to-one on targets other than the removed one |
| NodeRemoval.RenumberKeepsWellFormed | engine/src/nn/mod.rs:302-323 | deleting a slot that no edge targets, with the renumbering, keeps `WellFormed` |
| NodeRemoval.RemovedNodeRenumberedKeepsWellFormed | engine/src/nn/mod.rs:248-256 | corrected `removed_node` keeps `WellFormed` |
| Sampling.RandomFrom | engine/src/nn/mod.rs:327-348 | `None` exactly on an empty graph or an empty drawn layer; otherwise an existing location within `[from, len - sub)` and `[0, layer.len - sub)` |
| Sampling.RandomInputOrHidden | engine/src/nn/mod.rs:350-352 | `None` exactly on an empty graph or layer; otherwise an existing node of any layer |
| Sampling.RandomOutputOrHidden | engine/src/nn/mod.rs:354-359 | an existing node in a layer past `greater_than`, and never layer 0 |
| Sampling.RandomHidden | engine/src/nn/mod.rs:361-363 | an existing node strictly between the first and last layers, and never the last node of its layer |
| Sampling.Sourced | engine/src/nn/mod.rs:372 | exactly the node's connections, each paired with the node's location |
| Sampling.EdgesOfNodes | engine/src/nn/mod.rs:370-378 | exactly the edges leaving the first `n` nodes of the layer |
| Sampling.EdgesUpTo | engine/src/nn/mod.rs:366-379 | exactly the edges leaving the first `l` layers |
| Sampling.AllEdges | engine/src/nn/mod.rs:365-379 | exactly the edges of the graph, each with the location it leaves |
| Sampling.NoEdgesIffEmpty | engine/src/nn/mod.rs:365-381 | the edge iteration is empty exactly when no node has an outgoing edge |
| Sampling.RandomEdge | engine/src/nn/mod.rs:365-381 | `None` exactly when the graph has no edge; otherwise an existing edge and the location it leaves |
| MutateSpec.SameTargetsKeepWellFormed | engine/src/nn/mutate.rs:69-72 | changing only edge payloads keeps `WellFormed` |
| MutateSpec.EnableEdge | engine/src/nn/mutate.rs:69-72 | `get_edge_mut` then `enabled = true`: the found edge becomes enabled with its weight kept, and no other node or target changes |
| MutateSpec.AddEdgeMut | engine/src/nn/mutate.rs:59-83 | never an error; `Ok(false)` leaves the graph unchanged; an existing edge is re-enabled with `Ok(true)`; a new edge is kept exactly when the search from the source reaches every location once |
| MutateSpec.AddEdgeMutKeepsWellFormed | engine/src/nn/mutate.rs:59-83 | `AddEdge` keeps `WellFormed` |
| MutateSpec.RemoveEdgeMut | engine/src/nn/mutate.rs:90-96 | always `Ok(false)`, because `remove_edge` reports whether nothing was removed; the sampled edge is gone afterwards |
| MutateSpec.RemoveEdgeMutKeepsWellFormed | engine/src/nn/mutate.rs:90-96 | `RemoveEdge` keeps `WellFormed` |
| MutateSpec.SplitPrepared | engine/src/nn/mutate.rs:110-116 | after the edge removal and the optional layer insertion, `from` exists and layer `from.layer + 1` exists |
| MutateSpec.LayerInserted | engine/src/nn/mutate.rs:112-116 | after the optional `add_layer`, layer `from.layer + 1` exists and `from` has not moved |
| MutateSpec.SplitRemovedFacts | engine/src/nn/mutate.rs:110 | removing the split edge keeps `WellFormed`, and `from` no longer reaches the destination directly |
| MutateSpec.SplitShiftedFacts | engine/src/nn/mutate.rs:113-116 | after the inserted layer, the destination's shifted location has no edge from `from` either |
| MutateSpec.SplitPreparedFacts | engine/src/nn/mutate.rs:110-116 | the first steps of `run` keep `WellFormed`, and the destination lies past the new node's layer with no edge from `from` |
| MutateSpec.FirstHop | engine/src/nn/mutate.rs:118-121 | the pushed neuron exists, and `from -> new` with the old payload is added without error and keeps `WellFormed` |
| MutateSpec.SecondHop | engine/src/nn/mutate.rs:122-128 | `new -> destination` with the default payload is added without error, keeps `WellFormed`, and is the new node's only edge |
| MutateSpec.RunSplitOnWellFormed | engine/src/nn/mutate.rs:103-130 | on a well-formed graph, splitting an existing edge succeeds and keeps `WellFormed`; the route `from -> new -> destination` replaces the direct edge, with the old payload on the first hop and the default payload on the second |
| MutateSpec.AddNeuronMut | engine/src/nn/mutate.rs:134-153 | no edge gives `Ok(false)` with no change; an out-of-range selector answer gives `NeuronSelectorOutOfRange(len)` with no change; otherwise `run`'s graph, with `Ok(true)` exactly when `run` succeeds |
| MutateSpec.WellFormedRunDefined | engine/src/nn/mutate.rs:140-150 | in a well-formed graph with two or more layers, every sampled edge can be split without a panic |
| MutateSpec.AddNeuronMutKeepsWellFormed | engine/src/nn/mutate.rs:134-153 | on a well-formed graph, `AddNeuron` fails only through the selector, and it keeps `WellFormed` and at least two layers |
| MutateSpec.RemoveNeuronMut | engine/src/nn/mutate.rs:160-177 | `Ok(true)` exactly when the graph has more than two layers and the drawn layer is non-empty, and then `removed_node` of the drawn hidden location; otherwise no change |
| MutateSpec.RemoveNeuronMutKeepsOrder | engine/src/nn/mutate.rs:160-177 | `RemoveNeuron` keeps every edge forward and the pairs unique |
| MutateRun.RoundKeepsWellFormed | engine/src/nn/mod.rs:655-662 | one round other than `RemoveNeuron` keeps `WellFormed` and at least two layers |
| MutateRun.RunMutationsStep | engine/src/nn/mod.rs:654-667 | the run is its first round, followed by a stop (error or `done`) or by the rest of the run |
| MutateRun.RunKeepsWellFormed | engine/src/nn/mod.rs:646-669 | a whole `Net::mutate` run that never picks `RemoveNeuron` keeps `WellFormed`, wherever it stops |
| Mutate.AddEdge | engine/src/nn/mutate.rs:59-83 | new graph and result are exactly `MutateSpec.AddEdgeMut`'s |
| Mutate.RemoveEdge | engine/src/nn/mutate.rs:90-96 | new graph and result are exactly `MutateSpec.RemoveEdgeMut`'s |
| Mutate.InsertSplitLayer | engine/src/nn/mutate.rs:112-116 | new graph is exactly `MutateSpec.LayerInserted` |
| Mutate.PrepareSplit | engine/src/nn/mutate.rs:110-116 | new graph is `MutateSpec.SplitPrepared`, and the returned destination is the shifted one |
| Mutate.Run | engine/src/nn/mutate.rs:103-130 | new graph and result are exactly `MutateSpec.RunSplit`'s |
| Mutate.AddNeuron | engine/src/nn/mutate.rs:134-153 | new graph and result are exactly `MutateSpec.AddNeuronMut`'s |
| Mutate.RemoveNeuron | engine/src/nn/mutate.rs:160-177 | new graph and result are exactly `MutateSpec.RemoveNeuronMut`'s |
| Mutate.ApplyRound | engine/src/nn/mod.rs:655-662 | the chosen link or neuron mutator's effect, as `MutateRun.RoundStep` |
| Mutate.MutateNet | engine/src/nn/mod.rs:646-669 | new graph and result are exactly `MutateRun.RunMutations`'s: the first error, or `Ok` after the round marked `done` |
| MutateExample.PreparedIsInserted | engine/src/nn/mutate.rs:110-116 | on the unit-test graph, the split edge's removal and the layer insertion at 1 give the expected intermediate graph |
| MutateExample.SplitMatchesTest | engine/src/nn/mutate.rs:194-259 | `AddNeuron::run` on the unit-test graph succeeds and gives exactly the graph the test builds by hand |
| GenSpec.Stripped | engine/src/nn/mod.rs:436-441 | every node of the layer is kept with its value, and loses its connections |
| GenSpec.PreservedBasicIsBare | engine/src/nn/mod.rs:433-448 | the copy has two layers, with the source net's input and output node values, no edges, and is well formed |
| GenSpec.Kept | engine/src/nn/mod.rs:459-476 | the kept hidden-layer count (`num_internal_layers - remove_layers`), at most the number of size draws; that it counts one layer per non-zero draw is stated by `GenSpec.Hidden` and `Nets.AddHidden` |
| GenSpec.Hidden | engine/src/nn/mod.rs:458-476 | one non-empty layer per non-zero size draw, each node an unconnected basic neuron with an id below the total drawn |
| GenSpec.HiddenIdsDistinct | engine/src/nn/mod.rs:460-474 | no two hidden nodes share an id |
| GenSpec.Skeleton | engine/src/nn/mod.rs:452-482 | before wiring, the graph has the kept hidden layers plus two, and no edges |
| GenSpec.PairsOf | engine/src/nn/mod.rs:523 | the recorded pairs are the accepted tries' (from, to), in order |
| GenSpec.ConnectingAccepts | engine/src/nn/mod.rs:519-525 | an accepted try that wires keeps the connection loop's invariant, with one more accepted try |
| GenSpec.ConnectingSkips | engine/src/nn/mod.rs:490-521 | a skipped try keeps the invariant |
| GenSpec.ConnectingFails | engine/src/nn/mod.rs:524 | an accepted try that fails to wire decides the outcome of the whole wiring |
| GenSpec.ConnectingDone | engine/src/nn/mod.rs:487 | once enough tries are accepted, the accepted ones are exactly the chosen ones, wired |
| GenSpec.ChosenMeaning | engine/src/nn/mod.rs:484-526 | exactly `need` tries are accepted, each forward between existing nodes, and no two recorded pairs join the same two locations in either direction |
| GenSpec.WireStops | engine/src/nn/mod.rs:524 | after the first failing `add_edge(..)?`, later tries change nothing |
| GenSpec.WireMeaning | engine/src/nn/mod.rs:519-525 | wiring such tries into an edgeless graph never fails and keeps the layer shapes; the result is well formed, and each of its edges is a recorded pair |
| GenSpec.WireContents | engine/src/nn/mod.rs:519-525 | wiring keeps every node value in place, and every accepted try becomes an edge of its source |
| GenSpec.ValuesOfFresh | engine/src/nn/mod.rs:454-456 | a layer of fresh nodes holds exactly the given values, in order |
| GenSpec.SkeletonPlacement | engine/src/nn/mod.rs:452-482 | a graph with the skeleton's node values has the inputs in layer 0, the outputs in the last layer and the hidden layers between |
| GenSpec.WiredExactly | engine/src/nn/mod.rs:484-526 | wiring distinct placed tries into an edgeless graph succeeds, and its edges are exactly the recorded pairs |
| GenSpec.GenNeverFails | engine/src/nn/mod.rs:450-533 | once its draws are in range, `gen` never hits an error: exactly `num_connections` tries are accepted, the inputs sit in layer 0, the outputs in the last layer and the hidden neurons between, the edges are exactly the accepted pairs, and the net is well formed |
| GenSpec.OnlyPairTaken | engine/src/nn/mod.rs:486-521 | on a graph of one input above one output, once the only forward pair is recorded no further try is accepted |
| GenSpec.AtMostOnePair | engine/src/nn/mod.rs:486-526 | on such a graph the connection loop accepts at most one try, whatever is drawn |
| GenSpec.TooFewPairsNeverEnough | engine/src/nn/mod.rs:482-526 | as written, one input, one output and no kept hidden layer allow a draw of 2 or 3 connections that no sequence of tries completes |
| GenSpec.DistinctTriesSuffice | engine/src/nn/mod.rs:486-526 | the loop ends once the draws offer `need` forward tries on pairwise distinct new location pairs, and accepts exactly those |
| Nets.Net.constructor | engine/src/nn/mod.rs:408-413 | a net holds its graph and the input and output layer indices |
| Nets.AddFresh | engine/src/nn/mod.rs:454-456 | the add loop never errors on an existing layer, and appends a fresh node per value, in order |
| Nets.FromPreservingBasic | engine/src/nn/mod.rs:433-448 | a fresh net whose graph is `PreservedBasic`, with input layer 0 and output layer 1; never an error |
| Nets.AddNeuronLayer | engine/src/nn/mod.rs:467-474 | one new last layer of `n` basic neurons, with ids numbered on from `first` |
| Nets.AddHidden | engine/src/nn/mod.rs:458-476 | the hidden-layer loop appends exactly `Hidden(sizes)` and returns the kept layer count |
| Nets.WireTry | engine/src/nn/mod.rs:523-525 | one `add_edge` extends the wiring by one try, or returns its error |
| Nets.Connect | engine/src/nn/mod.rs:484-526 | the draw-until-enough loop leaves the skeleton wired with exactly the chosen tries, or returns the first error |
| Nets.Gen | engine/src/nn/mod.rs:450-533 | a fresh net: the skeleton wired with the chosen tries, input layer 0 and output layer `k + 1`, or the wiring's error |
| Align.ConnectionPairExists | engine/src/nn/util.rs:96-105 | true exactly when some recorded pair is (from, to) or (to, from) |
| Align.ConnectionPairSymmetric | engine/src/nn/util.rs:103 | the answer does not depend on the pair's direction |
| Align.LayerTargets | engine/src/nn/util.rs:27 | exactly the targets of the edges leaving the layer prefix |
| Align.FirstLayerTargets | engine/src/nn/util.rs:20-33 | exactly the targets of the edges leaving layer 0 (`a_connections`) |
| Align.Difference | engine/src/nn/util.rs:68-69 | set difference: the elements of `s` not in `t`, each once |
| Align.IncomingAt | engine/src/nn/util.rs:48-51 | the incoming set is the elements of the layer-0 targets equal to the node's own location |
| Align.OutgoingItems | engine/src/nn/util.rs:78-80 | one edge item (node, target) per outgoing difference element |
| Align.IncomingItems | engine/src/nn/util.rs:75-77 | one edge item (element, node) per incoming difference element |
| Align.PairItems | engine/src/nn/util.rs:70-80 | a node item exactly when a difference is non-empty, then the edge items of both differences, with the node item first |
| Align.Compare | engine/src/nn/util.rs:43-80 | the items of one compared pair put each node item before its edge items |
| Align.CompareMeaning | engine/src/nn/util.rs:43-80 | a compared pair reports a's location exactly when the names match and a difference is non-empty; it reports exactly the incoming self pair and the outgoing targets of a's node that b's node lacks |
| Align.NodeAgainst | engine/src/nn/util.rs:42-81 | the inner loop over b's nodes keeps node items first |
| Align.NodeAgainstMembers | engine/src/nn/util.rs:42-81 | the inner loop's items are exactly those of its compared pairs |
| Align.LayerAgainst | engine/src/nn/util.rs:41-82 | the loop over a's nodes keeps node items first |
| Align.LayerAgainstMembers | engine/src/nn/util.rs:41-82 | one layer's items are exactly those of its compared pairs |
| Align.LayersAgainst | engine/src/nn/util.rs:35-83 | the loop over paired layers keeps node items first |
| Align.LayersAgainstMembers | engine/src/nn/util.rs:35-83 | the items are exactly those of the compared pairs in layers 1 up to the shorter net's end |
| Align.TwoLayersAlignNothing | engine/src/nn/util.rs:13-15 | either net having exactly two layers gives no items |
| Align.IntersectionNodeFirst | engine/src/nn/util.rs:71-80 | every edge item comes after a node item for its `from` location |
| Align.NodeItemMeaning | engine/src/nn/util.rs:10-86 | a node item is reported exactly for a's locations that match a same-layer node of b by name, and whose incoming or outgoing difference is non-empty |
| Align.EdgeItemMeaning | engine/src/nn/util.rs:10-86 | an edge item (f, t) is reported exactly when f matches a node of b and either t = f with a non-empty incoming difference, or t is a target of f in a and not of the matched node in b |
| ReproduceSpec.ItemStep | engine/src/nn/reproduce.rs:63-85 | a node item puts a fresh copy of the picked parent's node exactly at its location; an edge item fails exactly when `add_edge` does, with `ChildNetError`, and otherwise `get_edge` in the child finds the picked parent's payload |
| ReproduceSpec.AddedEdgeFound | engine/src/nn/mod.rs:196-239 | after a successful `add_edge`, `get_edge` finds the new edge with its payload |
| ReproduceSpec.PlaceItemsStep | engine/src/nn/reproduce.rs:62-87 | the item loop is its first item, then a stop on error or the rest of the loop |
| ReproduceSpec.PlaceItemsErrors | engine/src/nn/reproduce.rs:62-87 | the item loop fails only with `ChildNetError` |
| ReproduceSpec.SelfPairUndefined | engine/src/nn/reproduce.rs:75-82 | in a parent whose edges all go forward, an incoming item (x, x) has no edge, so the `get_edge(..).unwrap()` panics whichever parent the coin picks |
| ReproduceSpec.IncomingSources | engine/src/nn/util.rs:20-33 | corrected incoming set: exactly the layer-0 locations with an edge to the node |
| ReproduceSpec.IncomingSourcesDefined | engine/src/nn/reproduce.rs:75-82 | every corrected incoming item (source, node) of the picked parent is defined: `get_edge` finds its edge, so the unwrap cannot panic |
| ReproduceSpec.RunReproduceErrors | engine/src/nn/mod.rs:627-644 | every error of `Net::reproduce` is a `ChildNetError` |
| Reproduce.PlaceItem | engine/src/nn/reproduce.rs:63-86 | new child and result are exactly `ItemStep`'s; on error nothing changes |
| Reproduce.PlaceAll | engine/src/nn/reproduce.rs:62-87 | the item loop leaves exactly `PlaceItems`: the items in order, stopping at the first error |
| Reproduce.Crossover | engine/src/nn/reproduce.rs:59-91 | new child and result are exactly `CrossoverResult`: the items placed, then `prune` once; an error returns before `prune` |
| Reproduce.DefaultIterator.constructor | engine/src/nn/reproduce.rs:98-100 | the counter starts at 0 |
| Reproduce.DefaultIterator.Generate | engine/src/nn/reproduce.rs:104-112 | the counter goes up by one; the old count is answered, with `done` exactly when the new count reaches the number of reproducers |
| Reproduce.DefaultAnswers | engine/src/nn/reproduce.rs:104-112 | one answer per call; what each answer is, is stated by `Reproduce.DefaultRunsEachOnce` and `Reproduce.GenerateFromFresh` |
| Reproduce.DefaultRunsEachOnce | engine/src/nn/reproduce.rs:95-112 | with `n` reproducers, call `k` selects index `k`, and only call `n - 1` says `done`: each reproducer runs once, in order |
| Reproduce.GenerateFromFresh | engine/src/nn/reproduce.rs:98-112 | calling `generate` on a fresh iterator gives exactly `DefaultAnswers` |
| Reproduce.RunRounds | engine/src/nn/mod.rs:634-642 | the loop leaves exactly `RunReproduce`: the first error, or `Ok` after the round marked `done` |
| Reproduce.ReproduceNets | engine/src/nn/mod.rs:627-644 | the child starts as `from_preserving_basic(a)`; the result is the rounds' error, or a fresh net holding `RunReproduce`'s child with layers 0 and 1 |
| TickSpec.Plus | engine/src/nn/mod.rs:582-591 | a sum of signals is absent exactly when both are absent |
| TickSpec.Carried | engine/src/nn/mod.rs:606-611 | a connection carries a value to `y` exactly when it is enabled and aimed at `y` |
| TickSpec.Saved | engine/src/nn/mod.rs:601-603 | an output saves the squashed partial; any other node is unchanged, and connections never change |
| TickSpec.Ticked | engine/src/nn/mod.rs:553-625 | the tick keeps every layer, node and connection; only outputs change, keeping their identity |
| TickSpec.SentOnlyIfMay | engine/src/nn/mod.rs:556-571 | only inputs of layer 0 and neurons send |
| TickSpec.DisabledCarryNothing | engine/src/nn/mod.rs:558-560 | disabled edges carry nothing |
| TickSpec.NoEnabledEdgeNoSignal | engine/src/nn/mod.rs:553-625 | a node with no enabled edge into it from below receives nothing |
| TickSpec.Quiet | engine/src/nn/mod.rs:574-578 | layers that receive nothing send nothing, so skipping them changes no sum |
| TickSpec.FoldAnyOrder | engine/src/nn/mod.rs:579-594 | partial sums do not depend on the order in which entries arrive |
| Tick.PushDelivers | engine/src/nn/mod.rs:611-617 | appending an entry delivers what its edge carries to its target, and nothing elsewhere |
| Tick.Enqueue | engine/src/nn/mod.rs:564-569 | `get_mut` or `insert`: the entry is appended to its target layer's list |
| Tick.PushEdges | engine/src/nn/mod.rs:606-618 | each enabled edge adds its carried value to the worklist; lower keys are untouched |
| Tick.InputSends | engine/src/nn/mod.rs:556-571 | layer 0 sends exactly its inputs' values, along their connections |
| Tick.Seed | engine/src/nn/mod.rs:554-572 | after seeding, what is pending for every node past layer 0 is exactly what layer 0 sends it |
| Tick.Position | engine/src/nn/mod.rs:582 | the first index holding the location, or none exactly when no index does |
| Tick.AddPartial | engine/src/nn/mod.rs:582-593 | adding a step to the found or appended partial adds it to that location's sum only |
| Tick.Accumulate | engine/src/nn/mod.rs:576-596 | the partials hold each location once, there are no more of them than entries, and their sums are exactly what the layer's entries deliver |
| Tick.SavedLayer | engine/src/nn/mod.rs:598-603 | the layer keeps its length and every node's connections, and only outputs change; `Tick.SavedNext` states that each partial saves exactly its own node |
| Tick.SendsOfPartial | engine/src/nn/mod.rs:604-618 | a node past layer 0 that received `p` sends what its partial sends |
| Tick.PartialsCoverLayer | engine/src/nn/mod.rs:598-622 | partials that hold every node's sum send what the layer sends, in whatever order they were met |
| Tick.SaveFinished | engine/src/nn/mod.rs:601-603 | `finish_and_save` replaces only that output |
| Tick.SendFinished | engine/src/nn/mod.rs:604-619 | a neuron's `finish` is enqueued along its enabled edges into later layers |
| Tick.OutputSendsNothing | engine/src/nn/mod.rs:601-603 | an output's partial is saved and not sent |
| Tick.NeuronSends | engine/src/nn/mod.rs:604-618 | a neuron sends its partial plus its bias along its connections |
| Tick.PropagateOne | engine/src/nn/mod.rs:598-622 | one partial: an output is saved, a neuron sends on |
| Tick.Propagate | engine/src/nn/mod.rs:598-622 | the partials loop saves the layer's outputs and adds every neuron's sends to the later layers |
| Tick.LeastKey | engine/src/nn/mod.rs:575-578 | `sort_keys` then `first`: the least pending layer |
| Tick.SkipQuiet | engine/src/nn/mod.rs:574-578 | the layers below the least pending one are already final |
| Tick.AllQuiet | engine/src/nn/mod.rs:574 | with nothing pending, the graph is the ticked one |
| Tick.LayerSums | engine/src/nn/mod.rs:574-624 | after layer `m` runs, what is pending from `m + 1` on is what those nodes receive from every layer below |
| Tick.LayerSaved | engine/src/nn/mod.rs:598-622 | after layer `m` runs, its outputs are final |
| Tick.InputLayerUnchanged | engine/src/nn/mod.rs:555-572 | a tick leaves layer 0 as it is |
| Tick.DropLeast | engine/src/nn/mod.rs:623 | `shift_remove` of the least key leaves only later keys, still well keyed |
| Tick.RunLayer | engine/src/nn/mod.rs:575-623 | one loop turn moves the sums and the saved outputs past one more layer |
| Tick.Tick | engine/src/nn/mod.rs:553-625 | the graph after the worklist loop is exactly `TickSpec.Ticked` of the graph before |

## Left out

- Floating point: `f32` weights, biases and signals are reals, so rounding and
  the order of additions do not matter in the model.
- `GraphSize` is `u16` in the source; locations are unbounded naturals. No
  overflow of the casts or of `c.to.layer += 1` is modelled.
- Randomness: every `gen_range`, `random()` and coin flip is a parameter. Its
  range is a precondition. An empty range, on which `gen_range` panics, is
  excluded the same way. The generators of `Net::mutate` and `Net::reproduce`
  are given as a finite sequence of answers, and `done` must come before the
  sequence ends.
- Neuron implementations are trait objects in the source. `step` is modelled
  as `weight * input` for every receiving node. A neuron's `finish` is
  `partial + parameter`, as `BasicNeuron` does. An output's `finish_and_save`
  is a parameter `squash`. Each input's `as_standard` is its stored value.
- `GeneratorError` has no variants in the source, so it is never built.
- Debug logging, `print_graph`, `println!` and serde derivations are left out.
- `get_node_mut`, `get_edge_mut` and `Crossover::new` are not separate
  members: their effect is inside the operations that use them.
- `Crossover::reproduce` calls `add_node_at`, which is not defined in these
  files; it is modelled as `create_node_at`, the graph's placement operation.
- `intersection` collects hash sets. Their iteration order is unspecified, so
  the model takes first-occurrence order. The contracts state membership and
  the order of each node item before its edge items, never the exact order.
- Graph.NeuralGraph.HasCycle: requires every location reachable from the start
  to exist. The source can return `true` before it reaches a dangling target,
  but the model does not cover graphs with such targets.
- Mutate.AddEdge and MutateSpec.AddEdgeMut: require that no edge of the graph dangles (`EdgesInRange`),
  so that the `has_cycle` run after the add stays in range. Draws on which
  `random_output_or_hidden` panics are excluded as well; this happens when the
  input was drawn from the last layer.
- Tick.Tick: requires `TickReady`. Every node that may send must use enabled
  edges aimed at existing outputs or neurons of strictly later layers. The
  source panics only on a missing node or on a target of another kind. A
  backward edge is excluded even where the source would still terminate.
- Reproduce.Crossover: requires every aligned item to be defined. An incoming
  item of `intersection` is the self pair (x, x), on which the source's
  `get_edge(..).unwrap()` panics in a forward graph
  (`ReproduceSpec.SelfPairUndefined`). So the contract covers only aligned
  nets whose incoming differences are empty.
- Nets.Gen and Nets.Connect: require `Enough`, a run of draws that completes
  the connection loop. As written, `gen` can draw more connections than there
  are distinct forward pairs, and then the loop never ends (see Findings);
  such draws are excluded.
- MutateRun.RunKeepsWellFormed: holds only for runs that never pick
  `RemoveNeuron`, because `removed_node` can leave dangling edges (see
  Findings).
- Graph.NeuralGraph.Prune and Graph.NeuralGraph.RemovedNode model the code as
  written. The corrected definitions in the Findings table are proved
  alongside them, and are not used by the operations that call them.

## Findings

| source | as written | input that shows it | evidently intended | confidence | as-written member | corrected member |
|---|---|---|---|---|---|---|
| engine/src/nn/mod.rs:288-325 | `prune` records every placeholder's index first, then removes them one by one with the recorded indices, never adjusting them | [[input], [blank, blank, neuron], [output]]: after (1, 0) goes, the recorded (1, 1) names the neuron, so the neuron is deleted and a placeholder stays. With [[input], [neuron, blank, blank], [output]] the recorded (1, 2) is past the end and `Vec::remove` panics | every placeholder is removed, edges aimed at a placeholder are dropped, and every other edge target is renumbered to its node's new index, keeping `WellFormed` (`GraphLayers.PruneIntendedKeepsWellFormed`) | high, not executed | PruneFinding.StaleIndexDropsRealNode | GraphLayers.PruneIntendedPlacement |
| engine/src/nn/mod.rs:248-256 | `removed_node` deletes the slot and drops the edges aimed at it, but leaves edges aimed at the later nodes of that layer unchanged, though those nodes all moved up by one | [[input -> (1, 1)], [hidden, hidden -> (2, 0)], [output]] with (1, 0) removed, a location `random_hidden` can draw: the input's edge still names (1, 1), which no longer exists | targets of later nodes in that layer move up by one, as `prune`'s own renumbering does | high, not executed | NodeRemoval.RemovedNodeDangles | NodeRemoval.RemovedNodeRenumberedKeepsWellFormed |
| engine/src/nn/mod.rs:482-526 | `num_connections` is drawn from `0..4 * (k + 1)` without regard to how many distinct forward pairs the layers offer, and the loop runs until that many are accepted | one input, one output, every hidden size drawn 0: the draw may be 2 or 3, but only (0, 0) -> (1, 0) exists, so the loop never ends | the draw is capped at the number of distinct forward pairs, and the loop ends once that many distinct pairs are drawn | high, not executed | GenSpec.TooFewPairsNeverEnough | GenSpec.DistinctTriesSuffice |
| engine/src/nn/util.rs:20-33, 48-55, 75-77 | `a_connections` keeps only the edges' targets, so a node's incoming set is its own location, and each incoming item is the self pair (x, x) | [[input -> (1, 0)], [neuron -> (2, 0)], [output]] against a net whose input has no edge: the item ((1, 0), (1, 0)) reaches `get_edge(..).unwrap()` in `Crossover::reproduce`, which panics because no edge goes from a node to itself | the incoming set holds the layer-0 sources with an edge to the node, so the item names a real edge | medium, not executed | ReproduceSpec.SelfPairUndefined | ReproduceSpec.IncomingSourcesDefined |
