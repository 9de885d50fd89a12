/** `calculateMinCut` (services/meraService.ts:63-110): the cut separating
    the causal cone of a boundary region from the rest of the network.

    The cone is the least set of node ids that holds the region's boundary
    nodes and is closed under a step to a bonded neighbour on the same or a
    higher layer; a bond is cut when exactly one of its endpoints is in the
    cone. */
module MinCut {
  import opened MeraTypes

  // ---------------------------------------------------------------------
  // The lookup tables the calculation builds.

  /** `new Map(network.nodes.map(n => [n.id, n]))`: when two nodes share an
      id, the later one wins. */
  function NodeMap(nodes: seq<MeraNode>): map<string, MeraNode>
  {
    if nodes == [] then map[]
    else NodeMap(nodes[..|nodes| - 1])[nodes[|nodes| - 1].id := nodes[|nodes| - 1]]
  }

  /** The map has one key per node id, and maps it to a node with that id. */
  lemma {:induction false} NodeMapKeys(nodes: seq<MeraNode>)
    ensures NodeMap(nodes).Keys == NodeIdSet(nodes)
    ensures forall id :: id in NodeMap(nodes) ==> NodeMap(nodes)[id] in nodes && NodeMap(nodes)[id].id == id
  {
    if nodes != [] {
      var init := nodes[..|nodes| - 1];
      NodeMapKeys(init);
      forall id | id in NodeIdSet(nodes) ensures id in NodeIdSet(init) || id == nodes[|nodes| - 1].id {
        var k :| 0 <= k < |nodes| && nodes[k].id == id;
        if k < |nodes| - 1 {
          assert init[k] == nodes[k];
        }
      }
      forall x | x in init ensures x in nodes {
      }
    }
  }

  /** With distinct ids, each node is found under its own id. */
  lemma {:induction false} NodeMapLookup(nodes: seq<MeraNode>, k: nat)
    requires forall i, j :: 0 <= i < j < |nodes| ==> nodes[i].id != nodes[j].id
    requires k < |nodes|
    ensures nodes[k].id in NodeMap(nodes) && NodeMap(nodes)[nodes[k].id] == nodes[k]
  {
    var init := nodes[..|nodes| - 1];
    if k < |nodes| - 1 {
      NodeMapLookup(init, k);
    }
  }

  /** The neighbour list `adj` holds for `id` once every bond is added: per
      bond in order, the target when `id` is the source, then the source
      when `id` is the target. */
  function Neighbors(bonds: seq<MeraBond>, id: string): seq<string>
  {
    if bonds == [] then []
    else
      var last := bonds[|bonds| - 1];
      Neighbors(bonds[..|bonds| - 1], id)
      + (if last.source == id then [last.target] else [])
      + (if last.target == id then [last.source] else [])
  }

  /** Some bond joins u and v, in either direction. */
  ghost predicate Bonded(bonds: seq<MeraBond>, u: string, v: string)
  {
    exists k :: 0 <= k < |bonds| && ((bonds[k].source == u && bonds[k].target == v)
                                    || (bonds[k].target == u && bonds[k].source == v))
  }

  /** v is listed as a neighbour of u exactly when a bond joins them. */
  lemma {:induction false} NeighborsMember(bonds: seq<MeraBond>, u: string, v: string)
    ensures v in Neighbors(bonds, u) <==> Bonded(bonds, u, v)
  {
    if bonds != [] {
      var init, last := bonds[..|bonds| - 1], bonds[|bonds| - 1];
      NeighborsMember(init, u, v);
      if Bonded(bonds, u, v) {
        var k :| 0 <= k < |bonds| && ((bonds[k].source == u && bonds[k].target == v)
                                     || (bonds[k].target == u && bonds[k].source == v));
        if k < |bonds| - 1 {
          assert init[k] == bonds[k];
        }
      }
      if Bonded(init, u, v) {
        var k :| 0 <= k < |init| && ((init[k].source == u && init[k].target == v)
                                    || (init[k].target == u && init[k].source == v));
        assert bonds[k] == init[k];
      }
      if (last.source == u && last.target == v) || (last.target == u && last.source == v) {
        assert bonds[|bonds| - 1] == last;
      }
    }
  }

  /** The adjacency list the calculation builds: an entry per node id, even
      for a node without bonds. */
  function Adjacency(network: MeraNetwork): map<string, seq<string>>
  {
    map id | id in NodeIdSet(network.nodes) :: Neighbors(network.bonds, id)
  }

  /** The lists after the first j bonds. */
  function AdjacencyUpTo(network: MeraNetwork, j: nat): map<string, seq<string>>
    requires j <= |network.bonds|
  {
    map id | id in NodeIdSet(network.nodes) :: Neighbors(network.bonds[..j], id)
  }

  /** An empty list for each of the first i node ids. */
  function EmptyLists(nodes: seq<MeraNode>, i: nat): map<string, seq<string>>
    requires i <= |nodes|
  {
    map id | id in NodeIdSet(nodes[..i]) :: []
  }

  lemma EmptyListsStep(nodes: seq<MeraNode>, i: nat)
    requires i < |nodes|
    ensures EmptyLists(nodes, i)[nodes[i].id := []] == EmptyLists(nodes, i + 1)
  {
    assert nodes[..i + 1] == nodes[..i] + [nodes[i]];
    NodeIdSetSnoc(nodes[..i], nodes[i]);
  }

  lemma EmptyListsDone(network: MeraNetwork)
    ensures EmptyLists(network.nodes, |network.nodes|) == AdjacencyUpTo(network, 0)
  {
    assert network.nodes[..|network.nodes|] == network.nodes;
  }

  /** The lists after the first j bonds and the source-side push of bond j. */
  function HalfwayAdjacency(network: MeraNetwork, j: nat): map<string, seq<string>>
    requires j < |network.bonds|
  {
    var bond := network.bonds[j];
    map id | id in NodeIdSet(network.nodes)
      :: Neighbors(network.bonds[..j], id) + (if bond.source == id then [bond.target] else [])
  }

  /** The push onto the source's list of bond j. */
  lemma PushSource(network: MeraNetwork, j: nat, adj0: map<string, seq<string>>, adj1: map<string, seq<string>>)
    requires j < |network.bonds|
    requires adj0 == AdjacencyUpTo(network, j)
    requires var bond := network.bonds[j];
             adj1 == if bond.source in adj0 then adj0[bond.source := adj0[bond.source] + [bond.target]] else adj0
    ensures adj1 == HalfwayAdjacency(network, j)
  {
    var half := HalfwayAdjacency(network, j);
    assert adj1.Keys == half.Keys;
    forall id | id in half ensures adj1[id] == half[id] {
      if id == network.bonds[j].source {
      } else {
        assert half[id] == Neighbors(network.bonds[..j], id) + [];
      }
    }
  }

  /** The push onto the target's list of bond j completes the lists after j + 1 bonds. */
  lemma PushTarget(network: MeraNetwork, j: nat, adj1: map<string, seq<string>>, adj2: map<string, seq<string>>)
    requires j < |network.bonds|
    requires adj1 == HalfwayAdjacency(network, j)
    requires var bond := network.bonds[j];
             adj2 == if bond.target in adj1 then adj1[bond.target := adj1[bond.target] + [bond.source]] else adj1
    ensures adj2 == AdjacencyUpTo(network, j + 1)
  {
    var bonds, bond := network.bonds, network.bonds[j];
    var prefix := bonds[..j + 1];
    assert prefix[..j] == bonds[..j];
    assert prefix[j] == bond;
    var next := AdjacencyUpTo(network, j + 1);
    assert adj2.Keys == next.Keys;
    forall id | id in next ensures adj2[id] == next[id] {
      assert next[id] == adj1[id] + (if bond.target == id then [bond.source] else []);
    }
  }

  lemma AdjacencyDone(network: MeraNetwork)
    ensures AdjacencyUpTo(network, |network.bonds|) == Adjacency(network)
  {
    assert network.bonds[..|network.bonds|] == network.bonds;
  }

  /** services/meraService.ts:69-74: an empty list per node id, then per
      bond a push onto the source's list and a push onto the target's list;
      an endpoint that is not a node id gets nothing. */
  method BuildAdjacency(network: MeraNetwork) returns (adj: map<string, seq<string>>)
    ensures adj == Adjacency(network)
  {
    adj := map[];
    var i := 0;
    while i < |network.nodes|
      invariant 0 <= i <= |network.nodes|
      invariant adj == EmptyLists(network.nodes, i)
    {
      EmptyListsStep(network.nodes, i);
      adj := adj[network.nodes[i].id := []];
      i := i + 1;
    }
    EmptyListsDone(network);
    var j := 0;
    while j < |network.bonds|
      invariant 0 <= j <= |network.bonds|
      invariant adj == AdjacencyUpTo(network, j)
    {
      var bond := network.bonds[j];
      ghost var adj0 := adj;
      if bond.source in adj {
        adj := adj[bond.source := adj[bond.source] + [bond.target]];
      }
      PushSource(network, j, adj0, adj);
      ghost var adj1 := adj;
      if bond.target in adj {
        adj := adj[bond.target := adj[bond.target] + [bond.source]];
      }
      PushTarget(network, j, adj1, adj);
      j := j + 1;
    }
    AdjacencyDone(network);
  }

  // ---------------------------------------------------------------------
  // The causal cone.

  /** One step of the expansion: from a node to a listed neighbour that is a
      node on the same or a higher layer. */
  predicate Step(nodeMap: map<string, MeraNode>, adj: map<string, seq<string>>, u: string, v: string)
  {
    u in nodeMap && u in adj && v in adj[u] && v in nodeMap && nodeMap[v].layer >= nodeMap[u].layer
  }

  /** No step leaves S. */
  ghost predicate Closed(nodeMap: map<string, MeraNode>, adj: map<string, seq<string>>, S: set<string>)
  {
    forall u, v :: u in S && Step(nodeMap, adj, u, v) ==> v in S
  }

  /** C is the least closed set that holds the seeds. */
  ghost predicate IsCone(nodeMap: map<string, MeraNode>, adj: map<string, seq<string>>,
                         seeds: set<string>, C: set<string>)
  {
    seeds <= C && Closed(nodeMap, adj, C)
    && forall S :: seeds <= S && Closed(nodeMap, adj, S) ==> C <= S
  }

  /** The causal cone of the seeds: what every closed superset of the seeds
      holds. */
  ghost function Cone(nodeMap: map<string, MeraNode>, adj: map<string, seq<string>>,
                      seeds: set<string>): set<string>
  {
    set x | x in nodeMap.Keys + seeds && forall S :: seeds <= S && Closed(nodeMap, adj, S) ==> x in S
  }

  /** The cone is itself closed and holds the seeds, so it is the least such set. */
  lemma ConeIsLeast(nodeMap: map<string, MeraNode>, adj: map<string, seq<string>>, seeds: set<string>)
    ensures IsCone(nodeMap, adj, seeds, Cone(nodeMap, adj, seeds))
  {
    var C := Cone(nodeMap, adj, seeds);
    forall u, v | u in C && Step(nodeMap, adj, u, v) ensures v in C {
      forall S | seeds <= S && Closed(nodeMap, adj, S) ensures v in S {
        assert u in S;
      }
    }
  }

  /** Only the cone is the least closed superset of the seeds. */
  lemma ConeUnique(nodeMap: map<string, MeraNode>, adj: map<string, seq<string>>,
                   seeds: set<string>, C: set<string>)
    requires IsCone(nodeMap, adj, seeds, C)
    ensures C == Cone(nodeMap, adj, seeds)
  {
    var all := nodeMap.Keys + seeds;
    assert Closed(nodeMap, adj, all);
    assert C <= all;
    ConeIsLeast(nodeMap, adj, seeds);
  }

  /** The neighbours the expansion queues from a node on `layer`: those
      that are nodes on the same or a higher layer and not yet in the cone,
      in list order. */
  function Queued(nodeMap: map<string, MeraNode>, neighbors: seq<string>, layer: nat, bulk: set<string>): seq<string>
  {
    if neighbors == [] then []
    else
      var last := neighbors[|neighbors| - 1];
      Queued(nodeMap, neighbors[..|neighbors| - 1], layer, bulk)
      + (if last in nodeMap && nodeMap[last].layer >= layer && last !in bulk then [last] else [])
  }

  lemma {:induction false} QueuedMember(nodeMap: map<string, MeraNode>, neighbors: seq<string>, layer: nat,
                                        bulk: set<string>, x: string)
    ensures x in Queued(nodeMap, neighbors, layer, bulk)
            <==> x in neighbors && x in nodeMap && nodeMap[x].layer >= layer && x !in bulk
  {
    if neighbors != [] {
      var init := neighbors[..|neighbors| - 1];
      QueuedMember(nodeMap, init, layer, bulk, x);
      assert neighbors == init + [neighbors[|neighbors| - 1]];
    }
  }

  /** services/meraService.ts:91-96: `adj.get(currId)?.forEach(...)`, which
      appends the qualifying neighbours to the queue. */
  method QueueNeighbors(nodeMap: map<string, MeraNode>, neighbors: seq<string>, layer: nat,
                        bulk: set<string>, q0: seq<string>) returns (q: seq<string>)
    ensures q == q0 + Queued(nodeMap, neighbors, layer, bulk)
  {
    q := q0;
    var j := 0;
    while j < |neighbors|
      invariant 0 <= j <= |neighbors|
      invariant q == q0 + Queued(nodeMap, neighbors[..j], layer, bulk)
    {
      var neighborId := neighbors[j];
      assert neighbors[..j + 1][..j] == neighbors[..j];
      assert neighbors[..j + 1][j] == neighborId;
      if neighborId in nodeMap && nodeMap[neighborId].layer >= layer && neighborId !in bulk {
        q := q + [neighborId];
      }
      j := j + 1;
    }
    assert neighbors[..j] == neighbors;
  }

  // What holds between the cone found so far and the queue, in four parts.

  /** Both lie in `all`. */
  ghost predicate WithinAll(all: set<string>, bulk: set<string>, q: seq<string>)
  {
    bulk <= all && forall x :: x in q ==> x in all
  }

  /** Every seed is in one of them. */
  ghost predicate SeedsCovered(seeds: set<string>, bulk: set<string>, q: seq<string>)
  {
    forall x :: x in seeds ==> x in bulk || x in q
  }

  /** A step out of the cone lands in one of them. */
  ghost predicate Frontier(nodeMap: map<string, MeraNode>, adj: map<string, seq<string>>,
                           bulk: set<string>, q: seq<string>)
  {
    forall u, v :: u in bulk && Step(nodeMap, adj, u, v) ==> v in bulk || v in q
  }

  /** Every closed superset of the seeds holds both. */
  ghost predicate BelowClosed(nodeMap: map<string, MeraNode>, adj: map<string, seq<string>>,
                              seeds: set<string>, bulk: set<string>, q: seq<string>)
  {
    forall S :: seeds <= S && Closed(nodeMap, adj, S) ==> bulk <= S && forall x :: x in q ==> x in S
  }

  /** The queue after popping its head `currId` and, when that node is new
      and listed, appending its qualifying neighbours. */
  function NextQueue(nodeMap: map<string, MeraNode>, adj: map<string, seq<string>>,
                     bulk: set<string>, q: seq<string>): seq<string>
    requires |q| > 0
  {
    var currId := q[0];
    if currId !in bulk && currId in nodeMap && currId in adj
    then q[1..] + Queued(nodeMap, adj[currId], nodeMap[currId].layer, bulk + {currId})
    else q[1..]
  }

  /** The next queue holds the rest of the queue and, when the head is new,
      the steps from it that are not yet in the cone, and nothing else. */
  lemma NextQueueMember(nodeMap: map<string, MeraNode>, adj: map<string, seq<string>>,
                        bulk: set<string>, q: seq<string>, x: string)
    requires |q| > 0
    ensures x in NextQueue(nodeMap, adj, bulk, q)
            <==> x in q[1..] || (q[0] !in bulk && Step(nodeMap, adj, q[0], x) && x !in bulk + {q[0]})
  {
    var currId := q[0];
    if currId !in bulk && currId in nodeMap && currId in adj {
      QueuedMember(nodeMap, adj[currId], nodeMap[currId].layer, bulk + {currId}, x);
    }
  }

  /** An iteration stays within `all`, and either the cone grows or the queue shrinks. */
  lemma StepWithinAll(nodeMap: map<string, MeraNode>, adj: map<string, seq<string>>,
                      seeds: set<string>, all: set<string>, bulk: set<string>, q: seq<string>)
    requires |q| > 0 && all == nodeMap.Keys + seeds
    requires WithinAll(all, bulk, q)
    ensures WithinAll(all, bulk + {q[0]}, NextQueue(nodeMap, adj, bulk, q))
    ensures q[0] !in bulk ==> |all - (bulk + {q[0]})| < |all - bulk|
    ensures q[0] in bulk ==> NextQueue(nodeMap, adj, bulk, q) == q[1..]
  {
    var q' := NextQueue(nodeMap, adj, bulk, q);
    assert q[0] in q;
    forall x | x in q' ensures x in all {
      NextQueueMember(nodeMap, adj, bulk, q, x);
    }
    if q[0] !in bulk {
      assert all - bulk == (all - (bulk + {q[0]})) + {q[0]};
    }
  }

  /** An iteration loses no seed. */
  lemma StepSeedsCovered(nodeMap: map<string, MeraNode>, adj: map<string, seq<string>>,
                         seeds: set<string>, bulk: set<string>, q: seq<string>)
    requires |q| > 0
    requires SeedsCovered(seeds, bulk, q)
    ensures SeedsCovered(seeds, bulk + {q[0]}, NextQueue(nodeMap, adj, bulk, q))
  {
    forall x | x in seeds ensures x in bulk + {q[0]} || x in NextQueue(nodeMap, adj, bulk, q) {
      if x !in bulk && x != q[0] {
        assert x in q[1..];
        NextQueueMember(nodeMap, adj, bulk, q, x);
      }
    }
  }

  /** An iteration keeps the frontier: the steps out of a node that joins
      the cone are queued. */
  lemma StepFrontier(nodeMap: map<string, MeraNode>, adj: map<string, seq<string>>,
                     bulk: set<string>, q: seq<string>)
    requires |q| > 0
    requires Frontier(nodeMap, adj, bulk, q)
    ensures Frontier(nodeMap, adj, bulk + {q[0]}, NextQueue(nodeMap, adj, bulk, q))
  {
    var bulk', q' := bulk + {q[0]}, NextQueue(nodeMap, adj, bulk, q);
    forall u, v | u in bulk' && Step(nodeMap, adj, u, v) ensures v in bulk' || v in q' {
      NextQueueMember(nodeMap, adj, bulk, q, v);
      if u in bulk && v !in bulk' {
        assert v in q && v != q[0];
        assert v in q[1..];
      }
    }
  }

  /** An iteration keeps everything it holds inside every closed superset of the seeds. */
  lemma StepBelowClosed(nodeMap: map<string, MeraNode>, adj: map<string, seq<string>>,
                        seeds: set<string>, bulk: set<string>, q: seq<string>)
    requires |q| > 0
    requires BelowClosed(nodeMap, adj, seeds, bulk, q)
    ensures BelowClosed(nodeMap, adj, seeds, bulk + {q[0]}, NextQueue(nodeMap, adj, bulk, q))
  {
    var bulk', q' := bulk + {q[0]}, NextQueue(nodeMap, adj, bulk, q);
    forall S | seeds <= S && Closed(nodeMap, adj, S) ensures bulk' <= S && forall x :: x in q' ==> x in S {
      assert q[0] in q;
      forall x | x in q' ensures x in S {
        NextQueueMember(nodeMap, adj, bulk, q, x);
      }
    }
  }

  /** Recording a node that is new to the cone keeps `order` a duplicate-free
      listing of the cone. */
  lemma OrderStep(order: seq<string>, bulk: set<string>, c: string)
    requires Distinct(order) && (forall x :: x in order <==> x in bulk) && c !in bulk
    ensures Distinct(order + [c]) && forall x :: x in order + [c] <==> x in bulk + {c}
  {
    DistinctConcat(order, [c]);
  }

  /** services/meraService.ts:80-97: drain the queue front to back; a node
      not seen before joins the cone and queues each listed neighbour that
      is a node on the same or a higher layer and not yet in the cone. The
      ghost `order` records the nodes in the order they join. */
  method ExpandCausalCone(nodeMap: map<string, MeraNode>, adj: map<string, seq<string>>, seeds: seq<string>)
    returns (bulk: set<string>, ghost order: seq<string>)
    ensures bulk == Cone(nodeMap, adj, set x | x in seeds)
    ensures Distinct(order) && forall x :: x in order <==> x in bulk
  {
    ghost var seedSet := set x | x in seeds;
    ghost var all := nodeMap.Keys + seedSet;
    bulk := {};
    order := [];
    var q := seeds;
    while |q| > 0
      invariant WithinAll(all, bulk, q) && SeedsCovered(seedSet, bulk, q)
      invariant Frontier(nodeMap, adj, bulk, q) && BelowClosed(nodeMap, adj, seedSet, bulk, q)
      invariant Distinct(order) && forall x :: x in order <==> x in bulk
      decreases |all - bulk|, |q|
    {
      StepWithinAll(nodeMap, adj, seedSet, all, bulk, q);
      StepSeedsCovered(nodeMap, adj, seedSet, bulk, q);
      StepFrontier(nodeMap, adj, bulk, q);
      StepBelowClosed(nodeMap, adj, seedSet, bulk, q);
      ghost var next := NextQueue(nodeMap, adj, bulk, q);
      var currId := q[0];
      q := q[1..];
      if currId !in bulk {
        OrderStep(order, bulk, currId);
        bulk := bulk + {currId};
        order := order + [currId];
        if currId in nodeMap && currId in adj {
          var node := nodeMap[currId];
          q := QueueNeighbors(nodeMap, adj[currId], node.layer, bulk, q);
        }
      }
      assert q == next;
    }
    assert Closed(nodeMap, adj, bulk);
    ConeUnique(nodeMap, adj, seedSet, bulk);
  }

  // ---------------------------------------------------------------------
  // The cut.

  /** Exactly one endpoint of the bond is in C. */
  predicate Crosses(C: set<string>, bond: MeraBond)
  {
    (bond.source in C) != (bond.target in C)
  }

  /** The ids of the bonds that cross C. */
  function CutSet(bonds: seq<MeraBond>, C: set<string>): set<string>
  {
    set k | 0 <= k < |bonds| && Crosses(C, bonds[k]) :: bonds[k].id
  }

  /** services/meraService.ts:99-107: the source's two-branch test, bond by bond. */
  method CollectCutBonds(bonds: seq<MeraBond>, bulk: set<string>) returns (cutBonds: set<string>)
    ensures cutBonds == CutSet(bonds, bulk)
  {
    cutBonds := {};
    var i := 0;
    while i < |bonds|
      invariant 0 <= i <= |bonds|
      invariant cutBonds == CutSet(bonds[..i], bulk)
    {
      var bond := bonds[i];
      var inRegion := bond.source in bulk;
      var outOfRegion := bond.target !in bulk;
      var isCut := (inRegion && outOfRegion) || (!inRegion && bond.target in bulk);
      assert bonds[..i + 1] == bonds[..i] + [bond];
      CutSetSnoc(bonds[..i], bond, bulk);
      if isCut {
        cutBonds := cutBonds + {bond.id};
      }
      i := i + 1;
    }
    assert bonds[..i] == bonds;
  }

  lemma CutSetSnoc(bonds: seq<MeraBond>, bond: MeraBond, C: set<string>)
    ensures CutSet(bonds + [bond], C) == CutSet(bonds, C) + (if Crosses(C, bond) then {bond.id} else {})
  {
    var s := bonds + [bond];
    forall id | id in CutSet(s, C) ensures id in CutSet(bonds, C) || (Crosses(C, bond) && id == bond.id) {
      var k :| 0 <= k < |s| && Crosses(C, s[k]) && s[k].id == id;
      if k < |bonds| {
        assert s[k] == bonds[k];
      }
    }
    forall id | id in CutSet(bonds, C) ensures id in CutSet(s, C) {
      var k :| 0 <= k < |bonds| && Crosses(C, bonds[k]) && bonds[k].id == id;
      assert s[k] == bonds[k];
    }
    if Crosses(C, bond) {
      assert s[|bonds|] == bond;
    }
  }

  /** A bond id is in the cut exactly when some bond with that id crosses. */
  lemma CutSetMember(bonds: seq<MeraBond>, C: set<string>, id: string)
    ensures id in CutSet(bonds, C) <==> exists k :: 0 <= k < |bonds| && bonds[k].id == id && Crosses(C, bonds[k])
  {
  }

  /** The number of bonds that cross C. */
  function CrossingCount(bonds: seq<MeraBond>, C: set<string>): nat
  {
    if bonds == [] then 0
    else CrossingCount(bonds[..|bonds| - 1], C) + (if Crosses(C, bonds[|bonds| - 1]) then 1 else 0)
  }

  /** With distinct bond ids the entropy `cutBonds.size` counts the crossing bonds. */
  lemma {:induction false} CutSetSize(bonds: seq<MeraBond>, C: set<string>)
    requires forall i, j :: 0 <= i < j < |bonds| ==> bonds[i].id != bonds[j].id
    ensures |CutSet(bonds, C)| == CrossingCount(bonds, C)
  {
    if bonds != [] {
      var init, last := bonds[..|bonds| - 1], bonds[|bonds| - 1];
      assert bonds == init + [last];
      CutSetSize(init, C);
      CutSetSnoc(init, last, C);
    }
  }

  // ---------------------------------------------------------------------
  // The whole calculation.

  /** The indices the calculation accepts: it returns early on an empty
      region or on one as long as the boundary, and otherwise reads
      `boundaryNodes[i].id` for every index, which fails outside the boundary. */
  predicate ValidRegion(network: MeraNetwork, regionIndices: seq<int>)
  {
    |regionIndices| == 0 || |regionIndices| == network.boundarySize
    || forall k :: 0 <= k < |regionIndices| ==> 0 <= regionIndices[k] < |BoundaryNodes(network.nodes)|
  }

  /** The elements of s in order of first occurrence, as spreading a `Set`
      built from s yields them. */
  function Dedup(s: seq<string>): (r: seq<string>)
    ensures forall x :: x in r <==> x in s
  {
    if s == [] then []
    else
      var init := Dedup(s[..|s| - 1]);
      assert forall x :: x in s[..|s| - 1] ==> x in s;
      if s[|s| - 1] in init then init else init + [s[|s| - 1]]
  }

  lemma {:induction false} DedupDistinct(s: seq<string>)
    ensures Distinct(Dedup(s))
  {
    if s != [] {
      DedupDistinct(s[..|s| - 1]);
    }
  }

  /** `[...new Set(regionIndices.map(i => boundaryNodes[i].id))]`. */
  function RegionSeeds(boundaryNodes: seq<MeraNode>, regionIndices: seq<int>): seq<string>
    requires forall k :: 0 <= k < |regionIndices| ==> 0 <= regionIndices[k] < |boundaryNodes|
  {
    Dedup(seq(|regionIndices|, k requires 0 <= k < |regionIndices| => boundaryNodes[regionIndices[k]].id))
  }

  /** The result the calculation promises: nothing for the two early exits;
      otherwise the bonds crossing the causal cone of the region's boundary
      nodes, with the entropy their number of distinct ids. */
  ghost function MinCutOf(network: MeraNetwork, regionIndices: seq<int>): MinCutResult
    requires ValidRegion(network, regionIndices)
  {
    if |regionIndices| == 0 || |regionIndices| == network.boundarySize then MinCutResult(0, {})
    else
      var seeds := RegionSeeds(BoundaryNodes(network.nodes), regionIndices);
      var cone := Cone(NodeMap(network.nodes), Adjacency(network), set x | x in seeds);
      var cut := CutSet(network.bonds, cone);
      MinCutResult(|cut|, cut)
  }

  /** services/meraService.ts:63-110. */
  method CalculateMinCut(network: MeraNetwork, regionIndices: seq<int>) returns (result: MinCutResult)
    requires ValidRegion(network, regionIndices)
    ensures result == MinCutOf(network, regionIndices)
  {
    if |regionIndices| == 0 || |regionIndices| == network.boundarySize {
      return MinCutResult(0, {});
    }
    var nodeMap := NodeMap(network.nodes);
    var adj := BuildAdjacency(network);
    var boundaryNodes := BoundaryNodes(network.nodes);
    var regionNodeIds := RegionSeeds(boundaryNodes, regionIndices);
    var bulkRegionNodes, order := ExpandCausalCone(nodeMap, adj, regionNodeIds);
    var cutBonds := CollectCutBonds(network.bonds, bulkRegionNodes);
    result := MinCutResult(|cutBonds|, cutBonds);
  }
}
