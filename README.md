# MERA network and boundary min-cut, modelled in Dafny

This project models a small MERA (multi-scale entanglement renormalisation
ansatz) demonstrator and the two operations at its core:

- `buildMeraNetwork` (services/meraService.ts:4-61) builds the network.
  It takes a boundary of `b` spins. On top of them sit `log2(b)` coarser
  layers, each half as wide as the one below. Every parent has a bond to its
  two children. On every layer below the children of the top node, each pair
  of siblings also has a horizontal "disentangler" bond.
- `calculateMinCut` (services/meraService.ts:63-110) takes a region of
  boundary indices and expands its causal cone. The expansion is a queue
  traversal that moves from a node to any bonded neighbour on the same or a
  higher layer. The result is the set of bonds with exactly one endpoint in
  the cone, and its size is reported as the entanglement entropy.

The records of types.ts:2-26 become the datatypes `MeraNode`, `MeraBond`,
`MeraNetwork` and `MinCutResult` (module `MeraTypes`). The drawing
coordinates `x` and `y` are dropped. Node ids (`l{layer}-n{index}`) and bond
ids (`{source}-{target}`) are kept as strings, exactly as the code builds
them.

Modules, in dependency order:

- `PowersOfTwo` (pow2.dfy): `Pow2`, `IsPowerOfTwo` and an integer `Log2`.
- `MeraTypes` (types.dfy): the records and the `filter` views of the node list.
- `NodeIds` (ids.dfy): decimal rendering and the id formats. The decimal
  rendering is proved to round-trip, so distinct positions get distinct ids.
- `MeraTopology` (topology.dfy): the network in index space. A node is a
  position `Pos(layer, index)` and a bond is a `Link` between two positions.
  Layer `l` holds `2^(K-l)` positions, where `K = log2(b)`.
- `MeraBuilder` (builder.dfy): `BuildMeraNetwork` as an imperative method
  with loops. It is proved to return `BuiltNetwork(b)`, the index-space
  network rendered to ids.
- `MeraStructure` (structure.dfy): what the built network is. This covers
  layer sizes, node and bond membership, the boundary, id uniqueness and
  the node and bond counts.
- `MinCut` (mincut.dfy): `CalculateMinCut` as an imperative method. It
  builds the adjacency lists, drains the queue and collects the cut. It is
  proved equal to `MinCutOf`, which states the result through the least
  closed set holding the region's boundary nodes.
- `BuiltCut` (builtcut.dfy): `MinCutOf` on a built network in closed form.
  On each layer, the cone holds the ancestors of the region plus their
  horizontally bonded siblings. The cut consists of the vertical bonds of
  children outside the cone whose parent is inside.
- `Region` (region.dfy): the region as the interface produces it, a slider
  pair `[start, end]` with start <= end, expanded to an index list.
- `Scenarios` (scenarios.dfy): concrete results, among them the
  application's default region `[2, 5]` on 8 boundary nodes.

For a pure state one would expect a region and its complement to have the
same cut. The code does not do this, because the cone only grows upward:
the cone of a one-node region stops below the top node's other child, while
the cone of its complement reaches everything. On 4 boundary nodes, region
`[0]` has entropy 1 and `[1, 2, 3]` has entropy 0. The model follows the
code, and `Scenarios.ComplementAsymmetry` proves the difference.

## Model

| member | source | states |
|---|---|---|
| PowersOfTwo.Log2 | services/meraService.ts:7 | the integer base-2 logarithm is exact on a power of two, so `layers - 1` is the k with 2^k = b |
| MeraTypes.NodesInLayerMember | services/meraService.ts:29 | filtering nodes by layer keeps exactly the nodes of that layer |
| MeraTypes.BoundaryNodesMember | services/meraService.ts:76 | filtering by `isBoundary` keeps exactly the boundary nodes |
| NodeIds.ParseNatToString | services/meraService.ts:16 | the decimal rendering used in ids reads back as the same number |
| NodeIds.NodeIdInjective | services/meraService.ts:16-32 | two node ids `l{l}-n{i}` are equal only for the same layer and index |
| NodeIds.BondIdInjective | services/meraService.ts:45-53 | two bond ids between node ids are equal only for the same four numbers |
| MeraTopology.PositionsMember | services/meraService.ts:14-31 | the positions laid out are exactly those with layer <= K and index < 2^(K-layer) |
| MeraTopology.PositionsLength | services/meraService.ts:14-31 | there are 2^(K+1) - 1 positions |
| MeraTopology.PositionsDistinct | services/meraService.ts:14-31 | no position is laid out twice |
| MeraTopology.LinksMember | services/meraService.ts:45-55 | a link is laid out exactly when it is a child-to-parent link or a sibling link below layer K-1 |
| MeraTopology.LinkEndpointsValid | services/meraService.ts:33-53 | both ends of every link are laid-out positions |
| MeraTopology.LinksDistinct | services/meraService.ts:45-55 | no link is laid out twice |
| MeraTopology.LinksCounts | services/meraService.ts:45-55 | there are 2(2^K - 1) vertical and 2^K - 2 horizontal links, 3*2^K - 4 in all, and none for K = 0 |
| MeraBuilder.AddBoundaryLayer | services/meraService.ts:13-22 | the loop pushes the boundary nodes `l0-n0` .. `l0-n{b-1}` in order |
| MeraBuilder.AddParentLayer | services/meraService.ts:31-56 | the loop appends the layer's nodes in index order, and for each parent its two child bonds and, unless l is the top layer, its children's horizontal bond |
| MeraBuilder.BuildMeraNetwork | services/meraService.ts:4-61 | the method returns exactly `BuiltNetwork(b)`: all layers' nodes bottom-up, each layer's bonds in build order, the boundary size and the layer count |
| MeraStructure.BuiltLayers | services/meraService.ts:7 | the network has log2(b) + 1 layers and records boundary size b |
| MeraStructure.BuiltLayerContents | services/meraService.ts:14-42 | layer l holds the nodes `l{l}-n0` .. in order, 2^(K-l) of them, and no layer above K holds any |
| MeraStructure.BuiltLayerSize | services/meraService.ts:25-57 | layer l holds b / 2^l nodes, each `l{l}-n{i}`, a boundary node exactly on layer 0 |
| MeraStructure.BuiltTopLayer | services/meraService.ts:26-27 | the top layer holds the single node `l{K}-n0` |
| MeraStructure.BuiltNodeCount | services/meraService.ts:14-42 | the network has 2b - 1 nodes |
| MeraStructure.BuiltNodeMember | services/meraService.ts:14-42 | node `l{l}-n{i}` is present exactly when l < layers and i < 2^(layers-1-l) |
| MeraStructure.BuiltNodeShape | services/meraService.ts:14-42 | every node is the rendering of a laid-out position |
| MeraStructure.BuiltBoundary | services/meraService.ts:14-41 | a node is a boundary node exactly when it is on layer 0; there are b of them, the i-th being `l0-n{i}` |
| MeraStructure.BuiltNodeIdsDistinct | services/meraService.ts:16-32 | no two nodes share an id |
| MeraStructure.BuiltNodesLayerOrder | services/meraService.ts:14-36 | nodes are listed layer by layer, bottom-up |
| MeraStructure.BuiltBondMember | services/meraService.ts:44-55 | a bond is present exactly when its link is vertical or horizontal |
| MeraStructure.BuiltVerticalBonds | services/meraService.ts:33-46 | child `l{l-1}-n{j}` is bonded to parent `l{l}-n{i}` exactly when j is 2i or 2i+1 |
| MeraStructure.BuiltHorizontalBonds | services/meraService.ts:49-54 | `l{l}-n{j}` has a horizontal bond to `l{l}-n{j'}` exactly when l + 2 < layers, j is even, j' = j+1 and j' is on layer l |
| MeraStructure.BuiltBondEndpoints | services/meraService.ts:45-53 | every bond joins two node ids of the network |
| MeraStructure.BuiltBondIdsDistinct | services/meraService.ts:45-53 | no two bonds share an id |
| MeraStructure.BuiltBondCount | services/meraService.ts:45-55 | for b >= 2 there are 3b - 4 bonds, 2(b-1) vertical and b-2 horizontal; for b = 1 there are none |
| MinCut.NodeMapKeys | services/meraService.ts:68 | the node map's keys are the node ids, each mapped to a node with that id |
| MinCut.NodeMapLookup | services/meraService.ts:68 | with distinct ids, each node is found under its own id |
| MinCut.NeighborsMember | services/meraService.ts:71-74 | v is in u's list exactly when some bond joins u and v in either direction |
| MinCut.BuildAdjacency | services/meraService.ts:69-74 | the loops give every node id a list, then push each bond's target to its source's list and its source to its target's list |
| MinCut.ConeIsLeast | services/meraService.ts:79-97 | the cone holds the seeds, is closed under upward-or-level steps, and is contained in every such set |
| MinCut.ConeUnique | services/meraService.ts:79-97 | any least closed set holding the seeds is the cone |
| MinCut.QueuedMember | services/meraService.ts:91-96 | a neighbour is queued exactly when it is a node on the same or a higher layer and not yet in the cone |
| MinCut.QueueNeighbors | services/meraService.ts:91-96 | the loop appends the qualifying neighbours in list order |
| MinCut.ExpandCausalCone | services/meraService.ts:80-97 | draining the queue yields exactly the cone of the seeds, each node joining once |
| MinCut.CollectCutBonds | services/meraService.ts:99-107 | the source's two-branch test collects exactly the ids of bonds with one endpoint in the cone |
| MinCut.CutSetMember | services/meraService.ts:99-107 | an id is in the cut exactly when some bond with that id crosses the cone |
| MinCut.CutSetSize | services/meraService.ts:109 | with distinct bond ids, the entropy is the number of crossing bonds |
| MinCut.DedupDistinct | services/meraService.ts:77-81 | spreading the region's id set queues each boundary id once |
| MinCut.CalculateMinCut | services/meraService.ts:63-110 | the result is empty for an empty or full-length region; otherwise it is the cut of the cone of the region's boundary nodes, with entropy its size |
| BuiltCut.BuiltNeighbors | services/meraService.ts:69-74 | in the built network, a node's list holds exactly the ids it shares a link with |
| BuiltCut.BuiltStep | services/meraService.ts:91-94 | an expansion step goes from a node to its parent or, below layer K-1, to its sibling, and nowhere else |
| BuiltCut.BuiltCone | services/meraService.ts:79-97 | in the built network, the cone of a region is the set of positions covered by one of its indices |
| BuiltCut.BuiltConeMember | services/meraService.ts:79-97 | a node is in the cone exactly when it is an ancestor of a region index, or that ancestor's sibling on a layer below K-1 |
| BuiltCut.LinkCrosses | services/meraService.ts:99-107 | a link crosses the cone exactly when it is vertical with its child outside and its parent inside |
| BuiltCut.BuiltCutSet | services/meraService.ts:99-107 | the cut of the built network is the set of vertical bond ids of children outside the cone with parent inside |
| BuiltCut.ChildBondIdsSize | services/meraService.ts:109 | distinct cut children give distinct bond ids, so the entropy counts cut children |
| BuiltCut.BuiltValidRegion | services/meraService.ts:64-77 | the calculation accepts a region on the built network exactly when it is empty, has length b, or all its indices are in 0 .. b-1 |
| BuiltCut.BuiltRegionSeeds | services/meraService.ts:76-77 | the region's seed ids are `l0-n{i}` for the region's indices |
| BuiltCut.BuiltMinCut | services/meraService.ts:63-110 | on the built network, the result is empty for the early exits and otherwise the cut children's bond ids with their number as entropy |
| BuiltCut.BuiltTopInCone | services/meraService.ts:79-97 | the cone of any non-empty region reaches the top node |
| BuiltCut.FullRegionNoCutChildren | services/meraService.ts:79-107 | when every boundary index is in the region, no child lies outside the cone and no bond is cut |
| BuiltCut.FullRegionEmptyCut | services/meraService.ts:63-110 | a region that covers every boundary index, with repeats allowed, has an empty cut |
| Region.RegionIndices | App.tsx:24 | the expansion of `[start, end]` lists start, start+1, .., end, and is empty when end < start |
| Region.MoveStart | components/Controls.tsx:33-38 | a slider move of the start keeps 0 <= start <= end < b and the end; the new start is taken exactly when it does not pass the end, otherwise nothing changes |
| Region.MoveEnd | components/Controls.tsx:40-45 | a slider move of the end keeps 0 <= start <= end < b and the start; the new end is taken exactly when it does not pass the start, otherwise nothing changes |
| Region.MovesKeepSliderRegion | components/Controls.tsx:33-78 | a slider move to a value in 0 .. b-1 keeps 0 <= start <= end < b |
| Region.SliderRegionValid | App.tsx:24-25 | a slider region is accepted by the calculation, is non-empty, and takes the early exit exactly when it is the whole boundary |
| Scenarios.DefaultInCone | App.tsx:10-13 | for region `[2, 5]` of 8 nodes, the cone is every node above the boundary plus boundary nodes 2 .. 5 |
| Scenarios.DefaultCutChildren | App.tsx:10-13 | the cut children of the default region are boundary nodes 0, 1, 6 and 7 |
| Scenarios.DefaultRegionCut | App.tsx:10-25 | the default region has entropy 4, cutting `l0-n0-l1-n0`, `l0-n1-l1-n0`, `l0-n6-l1-n3` and `l0-n7-l1-n3` |
| Scenarios.DefaultScenario | App.tsx:10-25 | building the 8-node network and running the default region returns that result |
| Scenarios.FirstNodeCut | services/meraService.ts:79-109 | on 4 nodes, region `[0]` cuts only `l1-n1-l2-n0` |
| Scenarios.OtherNodesCut | services/meraService.ts:79-109 | on 4 nodes, region `[1, 2, 3]` has an empty cut |
| Scenarios.ComplementAsymmetry | services/meraService.ts:79-109 | a region and its complement can have different entropies |
| Scenarios.RepeatedIndexEarlyExit | services/meraService.ts:64-66 | `[0, 0, 0, 0]` on 4 nodes takes the full-length exit and differs from the result for `[0]` |

## Left out

- The drawing data is left out: `x`, `y`, `width`, `height` and the unused `nodeCounter` (services/meraService.ts:8-11, 18-19, 28, 39-40). None of it affects ids, layers or bonds.
- MeraBuilder.BuildMeraNetwork: requires a power-of-two boundary size and uses an integer `Log2` in place of the floating-point `Math.log2`. Other sizes are not modelled. For b = 0 the code returns an empty network whose `layers` is `-Infinity`. For every other b that is not a power of two, b = m * 2^k with m odd and m >= 3, layer k holds an odd number m of nodes; building layer k + 1 reads `prevLayerNodes[m]`, which is undefined, so `child2.x` (services/meraService.ts:39) throws a TypeError. The default argument of 8 is not modelled either; `Scenarios.DefaultScenario` passes 8 explicitly.
- The guard `l > 0` (services/meraService.ts:49) always holds in the loop, so it is not modelled. The same goes for the defined-children test (services/meraService.ts:52), which always holds on a power-of-two boundary.
- MinCut.CalculateMinCut: requires `ValidRegion`, meaning every index is within the boundary unless an early exit is taken. Outside it, the code reads `.id` of `undefined` and throws; that error path is not modelled.
- The JavaScript `Map`, `Set` and arrays are modelled as Dafny `map`, `set` and `seq`. The iteration order of the spread set (services/meraService.ts:81) is modelled as first-occurrence order.
- `nodeMap.get(currId)` is modelled; the branch where a queued id is not a node is kept. The optional chaining on `adj.get(...)` is modelled as "no list, nothing pushed".
- The React components, the rendering (components/MeraVisualization.tsx) and the highlighted boundary ids (App.tsx:27-28) are user interface and are not part of this model.
- `parseInt` of the slider value is modelled as the integer the slider holds.
- Region.MoveStart, Region.MoveEnd: require the offered value to be in 0 .. b-1, as the range inputs give it (components/Controls.tsx:57-78), and the current region to satisfy 0 <= start <= end < b, which the sliders keep. A value from outside the slider is not modelled.
