/** `calculateMinCut` (services/meraService.ts:63-110) on the network that
    `buildMeraNetwork` returns (services/meraService.ts:4-61).

    On that network the expansion only ever moves from a node to its parent
    or, below the children of the top node, to its sibling. So the causal
    cone of a boundary region holds, on each layer, the ancestors of the
    region's boundary nodes together with the siblings the horizontal bonds
    join them to; and a bond is cut exactly when it is the vertical bond of
    a child outside the cone whose parent is inside. */
module BuiltCut {
  import opened PowersOfTwo
  import opened MeraTypes
  import opened NodeIds
  import opened MeraTopology
  import opened MeraBuilder
  import opened MeraStructure
  import opened MinCut

  // ---------------------------------------------------------------------
  // The lookup tables of the built network.

  /** Every node `l{l}-n{i}` is found under its own id. */
  lemma BuiltNodeMapAt(b: nat, p: Pos)
    requires IsPowerOfTwo(b) && ValidPos(Log2(b), p)
    ensures PosId(p) in NodeMap(BuiltNetwork(b).nodes)
    ensures NodeMap(BuiltNetwork(b).nodes)[PosId(p)] == NodeOf(p)
  {
    var kk := Log2(b);
    var ps, nodes := Positions(kk), BuiltNetwork(b).nodes;
    PositionsMember(kk, p);
    var k :| 0 <= k < |ps| && ps[k] == p;
    assert nodes[k] == NodeOf(p);
    BuiltNodeIdsDistinct(b);
    NodeMapLookup(nodes, k);
  }

  /** The node map holds no other ids. */
  lemma BuiltNodeMapKey(b: nat, id: string) returns (p: Pos)
    requires IsPowerOfTwo(b) && id in NodeMap(BuiltNetwork(b).nodes)
    ensures ValidPos(Log2(b), p) && id == PosId(p)
  {
    var nodes := BuiltNetwork(b).nodes;
    NodeMapKeys(nodes);
    BuiltNodeShape(b, NodeMap(nodes)[id]);
    p :| ValidPos(Log2(b), p) && NodeMap(nodes)[id] == NodeOf(p);
  }

  /** A bond of the built network that touches `l{l}-n{i}` comes from a link at p. */
  lemma BondedFromLink(b: nat, p: Pos, v: string) returns (q: Pos)
    requires IsPowerOfTwo(b)
    requires Bonded(BuiltNetwork(b).bonds, PosId(p), v)
    ensures (Link(p, q) in Links(Log2(b)) || Link(q, p) in Links(Log2(b))) && v == PosId(q)
  {
    var ks, bonds, u := Links(Log2(b)), BuiltNetwork(b).bonds, PosId(p);
    var k :| 0 <= k < |bonds| && ((bonds[k].source == u && bonds[k].target == v)
                                 || (bonds[k].target == u && bonds[k].source == v));
    var l := ks[k];
    assert bonds[k] == BondOf(l);
    if bonds[k].source == u && bonds[k].target == v {
      PosIdInjective(l.source, p);
      q := l.target;
      assert Link(p, q) == l;
    } else {
      PosIdInjective(l.target, p);
      q := l.source;
      assert Link(q, p) == l;
    }
  }

  /** Every link at p gives a bond of the built network at `l{l}-n{i}`. */
  lemma LinkGivesBond(b: nat, p: Pos, q: Pos)
    requires IsPowerOfTwo(b)
    requires Link(p, q) in Links(Log2(b)) || Link(q, p) in Links(Log2(b))
    ensures Bonded(BuiltNetwork(b).bonds, PosId(p), PosId(q))
  {
    var ks, bonds := Links(Log2(b)), BuiltNetwork(b).bonds;
    if Link(p, q) in ks {
      var k :| 0 <= k < |ks| && ks[k] == Link(p, q);
      assert bonds[k] == BondOf(Link(p, q));
    } else {
      var k :| 0 <= k < |ks| && ks[k] == Link(q, p);
      assert bonds[k] == BondOf(Link(q, p));
    }
  }

  /** The adjacency list of `l{l}-n{i}` names exactly the nodes that share a
      bond with it, in either direction. */
  lemma BuiltNeighbors(b: nat, p: Pos, v: string)
    requires IsPowerOfTwo(b) && ValidPos(Log2(b), p)
    ensures PosId(p) in Adjacency(BuiltNetwork(b))
    ensures v in Adjacency(BuiltNetwork(b))[PosId(p)]
            <==> exists q :: (Link(p, q) in Links(Log2(b)) || Link(q, p) in Links(Log2(b))) && v == PosId(q)
  {
    BuiltNodeMapAt(b, p);
    NodeMapKeys(BuiltNetwork(b).nodes);
    NeighborsMember(BuiltNetwork(b).bonds, PosId(p), v);
    if Bonded(BuiltNetwork(b).bonds, PosId(p), v) {
      var q := BondedFromLink(b, p, v);
    }
    if exists q :: (Link(p, q) in Links(Log2(b)) || Link(q, p) in Links(Log2(b))) && v == PosId(q) {
      var q :| (Link(p, q) in Links(Log2(b)) || Link(q, p) in Links(Log2(b))) && v == PosId(q);
      LinkGivesBond(b, p, q);
    }
  }

  /** A step of the expansion in index space: to the parent, or to the
      sibling on a layer whose siblings share a horizontal bond. */
  predicate PosStep(kk: nat, p: Pos, q: Pos)
  {
    (p.layer < kk && q == Parent(p)) || (p.layer + 2 <= kk && q == Sibling(p))
  }

  /** A bond joins p to a node q on the same or a higher layer exactly when
      q is p's parent or its horizontally bonded sibling. */
  lemma LinkedUpward(kk: nat, p: Pos, q: Pos)
    requires ValidPos(kk, p) && ValidPos(kk, q)
    ensures ((Link(p, q) in Links(kk) || Link(q, p) in Links(kk)) && q.layer >= p.layer) <==> PosStep(kk, p, q)
  {
    LinksMember(kk, Link(p, q));
    LinksMember(kk, Link(q, p));
    if p.layer + 2 <= kk && q == Sibling(p) && p.index % 2 == 1 {
      assert IsHorizontal(kk, Link(q, p));
    }
  }

  /** On the built network a step of the expansion is a step to the parent
      or to the horizontally bonded sibling, and nothing else. */
  lemma BuiltStep(b: nat, p: Pos, q: Pos)
    requires IsPowerOfTwo(b) && ValidPos(Log2(b), p) && ValidPos(Log2(b), q)
    ensures Step(NodeMap(BuiltNetwork(b).nodes), Adjacency(BuiltNetwork(b)), PosId(p), PosId(q))
            <==> PosStep(Log2(b), p, q)
  {
    var kk := Log2(b);
    var ks := Links(kk);
    BuiltNodeMapAt(b, p);
    BuiltNodeMapAt(b, q);
    BuiltNeighbors(b, p, PosId(q));
    if exists q' :: (Link(p, q') in ks || Link(q', p) in ks) && PosId(q) == PosId(q') {
      var q' :| (Link(p, q') in ks || Link(q', p) in ks) && PosId(q) == PosId(q');
      PosIdInjective(q, q');
    }
    LinkedUpward(kk, p, q);
  }

  /** Whatever a step joins on the built network is a pair of its nodes. */
  lemma BuiltStepEnds(b: nat, u: string, v: string) returns (p: Pos, q: Pos)
    requires IsPowerOfTwo(b) && Step(NodeMap(BuiltNetwork(b).nodes), Adjacency(BuiltNetwork(b)), u, v)
    ensures ValidPos(Log2(b), p) && ValidPos(Log2(b), q) && u == PosId(p) && v == PosId(q)
  {
    p := BuiltNodeMapKey(b, u);
    q := BuiltNodeMapKey(b, v);
  }

  // ---------------------------------------------------------------------
  // The cone in index space.

  /** Boundary node r reaches p: p is r's ancestor on p's layer or, on a
      layer whose siblings share a horizontal bond, that ancestor's sibling. */
  predicate Covers(kk: nat, r: nat, p: Pos)
  {
    if p.layer + 2 <= kk then p.index / 2 == r / Pow2(p.layer + 1) else p.index == r / Pow2(p.layer)
  }

  /** p is in the cone of the boundary indices R. */
  ghost predicate InCone(kk: nat, R: set<int>, p: Pos)
  {
    ValidPos(kk, p) && exists r: nat :: r in R && Covers(kk, r, p)
  }

  /** The ancestor of boundary node r on layer m: m steps to the parent. */
  function Ancestor(r: nat, m: nat): Pos
  {
    if m == 0 then Pos(0, r) else Parent(Ancestor(r, m - 1))
  }

  /** The ancestor of r on layer m is node r / 2^m of that layer. */
  lemma {:induction false} AncestorIndex(r: nat, m: nat)
    ensures Ancestor(r, m).layer == m && Ancestor(r, m).index == r / Pow2(m)
  {
    if m > 0 {
      AncestorIndex(r, m - 1);
      HalveQuotient(r, m - 1);
    }
  }

  /** The ids of the cone of R. */
  ghost function ConeIds(kk: nat, R: set<int>): set<string>
  {
    set p | p in Positions(kk) && InCone(kk, R, p) :: PosId(p)
  }

  /** The ids of the boundary nodes with indices in R. */
  function BoundaryIds(R: set<int>): set<string>
  {
    set r | r in R && 0 <= r :: NodeIdOf(0, r)
  }

  lemma CoversSeed(kk: nat, r: nat)
    ensures Covers(kk, r, Pos(0, r))
  {
    assert Pow2(1) == 2;
  }

  lemma CoversAncestor(kk: nat, r: nat, m: nat)
    ensures Covers(kk, r, Ancestor(r, m))
  {
    AncestorIndex(r, m);
    HalveQuotient(r, m);
  }

  lemma AncestorValid(kk: nat, r: nat, m: nat)
    requires r < Pow2(kk) && m <= kk
    ensures ValidPos(kk, Ancestor(r, m))
  {
    var e := kk - m;
    assert e + m == kk;
    Pow2Add(e, m);
    QuotientBelow(r, Pow2(m), Pow2(e));
    AncestorIndex(r, m);
  }

  /** What r covers is its ancestor or, where siblings are bonded, the
      ancestor's sibling. */
  lemma CoversShape(kk: nat, r: nat, p: Pos)
    requires Covers(kk, r, p)
    ensures p == Ancestor(r, p.layer) || (p.layer + 2 <= kk && p == Sibling(Ancestor(r, p.layer)))
  {
    var a := Ancestor(r, p.layer);
    AncestorIndex(r, p.layer);
    HalveQuotient(r, p.layer);
    if p.layer + 2 <= kk && p != a {
      assert p.index / 2 == a.index / 2;
    }
  }

  /** The cone is closed under a step to the parent... */
  lemma CoversParent(kk: nat, r: nat, p: Pos)
    requires Covers(kk, r, p) && p.layer < kk
    ensures Covers(kk, r, Parent(p))
  {
    var m := p.layer;
    HalveQuotient(r, m);
    HalveQuotient(r, m + 1);
  }

  /** ... and under a step to the bonded sibling. */
  lemma CoversSibling(kk: nat, r: nat, p: Pos)
    requires Covers(kk, r, p) && p.layer + 2 <= kk
    ensures Covers(kk, r, Sibling(p))
  {
  }

  /** A position is in the cone's id set exactly when it is in the cone. */
  lemma ConeIdsMember(kk: nat, R: set<int>, p: Pos)
    requires ValidPos(kk, p)
    ensures PosId(p) in ConeIds(kk, R) <==> InCone(kk, R, p)
  {
    PositionsMember(kk, p);
    if PosId(p) in ConeIds(kk, R) {
      var p' :| p' in Positions(kk) && InCone(kk, R, p') && PosId(p') == PosId(p);
      PosIdInjective(p, p');
    }
  }

  // ---------------------------------------------------------------------
  // The causal cone of the built network.

  /** A closed set that holds an ancestor of r below the top holds the next one. */
  lemma AncestorStepInClosed(b: nat, S: set<string>, r: nat, m: nat)
    requires IsPowerOfTwo(b) && r < b && m < Log2(b)
    requires Closed(NodeMap(BuiltNetwork(b).nodes), Adjacency(BuiltNetwork(b)), S)
    requires PosId(Ancestor(r, m)) in S
    ensures PosId(Ancestor(r, m + 1)) in S
  {
    var kk, a := Log2(b), Ancestor(r, m);
    AncestorValid(kk, r, m);
    AncestorValid(kk, r, m + 1);
    BuiltStep(b, a, Parent(a));
  }

  /** Every ancestor of a region node lies in every closed superset of the
      region's boundary nodes. */
  lemma {:induction false} AncestorsInClosed(b: nat, R: set<int>, S: set<string>, r: nat, m: nat)
    requires IsPowerOfTwo(b) && r in R && r < b && m <= Log2(b)
    requires BoundaryIds(R) <= S && Closed(NodeMap(BuiltNetwork(b).nodes), Adjacency(BuiltNetwork(b)), S)
    ensures PosId(Ancestor(r, m)) in S
  {
    if m == 0 {
      assert Ancestor(r, 0) == Pos(0, r);
      assert NodeIdOf(0, r) in BoundaryIds(R);
    } else {
      AncestorsInClosed(b, R, S, r, m - 1);
      AncestorStepInClosed(b, S, r, m - 1);
    }
  }

  /** The region's boundary nodes are in the cone. */
  lemma SeedsInCone(b: nat, R: set<int>)
    requires IsPowerOfTwo(b) && forall r :: r in R ==> 0 <= r < b
    ensures BoundaryIds(R) <= ConeIds(Log2(b), R)
  {
    var kk := Log2(b);
    forall x | x in BoundaryIds(R) ensures x in ConeIds(kk, R) {
      var r :| r in R && 0 <= r && x == NodeIdOf(0, r);
      var p := Pos(0, r);
      CoversSeed(kk, r);
      assert PosId(p) == x;
      ConeIdsMember(kk, R, p);
    }
  }

  /** No step leaves the cone. */
  lemma ConeIdsClosed(b: nat, R: set<int>)
    requires IsPowerOfTwo(b)
    ensures Closed(NodeMap(BuiltNetwork(b).nodes), Adjacency(BuiltNetwork(b)), ConeIds(Log2(b), R))
  {
    var kk, nm, adj := Log2(b), NodeMap(BuiltNetwork(b).nodes), Adjacency(BuiltNetwork(b));
    var C := ConeIds(kk, R);
    forall u, v | u in C && Step(nm, adj, u, v) ensures v in C {
      var p, q := BuiltStepEnds(b, u, v);
      ConeIdsMember(kk, R, p);
      ConeIdsMember(kk, R, q);
      var r: nat :| r in R && Covers(kk, r, p);
      BuiltStep(b, p, q);
      if p.layer < kk && q == Parent(p) {
        CoversParent(kk, r, p);
      } else {
        CoversSibling(kk, r, p);
      }
    }
  }

  /** The cone lies in every closed superset of the region's boundary nodes. */
  lemma ConeIdsLeast(b: nat, R: set<int>, S: set<string>)
    requires IsPowerOfTwo(b) && forall r :: r in R ==> 0 <= r < b
    requires BoundaryIds(R) <= S && Closed(NodeMap(BuiltNetwork(b).nodes), Adjacency(BuiltNetwork(b)), S)
    ensures ConeIds(Log2(b), R) <= S
  {
    var kk := Log2(b);
    forall x | x in ConeIds(kk, R) ensures x in S {
      var p :| p in Positions(kk) && InCone(kk, R, p) && x == PosId(p);
      var r: nat :| r in R && Covers(kk, r, p);
      var a := Ancestor(r, p.layer);
      AncestorsInClosed(b, R, S, r, p.layer);
      CoversShape(kk, r, p);
      if p != a {
        AncestorValid(kk, r, p.layer);
        BuiltStep(b, a, p);
        assert Step(NodeMap(BuiltNetwork(b).nodes), Adjacency(BuiltNetwork(b)), PosId(a), PosId(p));
      }
    }
  }

  /** The causal cone the expansion computes on the built network, for
      boundary indices R in range, is the index-space cone: on each layer,
      the ancestors of the region's nodes and the siblings bonded to them. */
  lemma BuiltCone(b: nat, R: set<int>)
    requires IsPowerOfTwo(b) && forall r :: r in R ==> 0 <= r < b
    ensures Cone(NodeMap(BuiltNetwork(b).nodes), Adjacency(BuiltNetwork(b)), BoundaryIds(R)) == ConeIds(Log2(b), R)
  {
    var nm, adj := NodeMap(BuiltNetwork(b).nodes), Adjacency(BuiltNetwork(b));
    var C := ConeIds(Log2(b), R);
    SeedsInCone(b, R);
    ConeIdsClosed(b, R);
    forall S | BoundaryIds(R) <= S && Closed(nm, adj, S) ensures C <= S {
      ConeIdsLeast(b, R, S);
    }
    ConeUnique(nm, adj, BoundaryIds(R), C);
  }

  // ---------------------------------------------------------------------
  // The cut of the built network.

  /** The children outside the cone of R whose parent is inside it. */
  ghost function CutChildren(kk: nat, R: set<int>): set<Pos>
  {
    set p | p in Positions(kk) && p.layer < kk && !InCone(kk, R, p) && InCone(kk, R, Parent(p))
  }

  /** The id of the vertical bond from p to its parent. */
  function ChildBondId(p: Pos): string
  {
    BondIdOf(PosId(p), PosId(Parent(p)))
  }

  /** The ids of the vertical bonds from a child outside the cone of R to a
      parent inside it. */
  ghost function CutIds(kk: nat, R: set<int>): set<string>
  {
    set p | p in CutChildren(kk, R) :: ChildBondId(p)
  }

  /** Distinct children have distinct vertical bond ids, so the cut has one
      id per cut child. */
  lemma {:induction false} ChildBondIdsSize(S: set<Pos>)
    ensures |set p | p in S :: ChildBondId(p)| == |S|
    decreases |S|
  {
    if S != {} {
      var p :| p in S;
      var rest := S - {p};
      ChildBondIdsSize(rest);
      var image, restImage := set q | q in S :: ChildBondId(q), set q | q in rest :: ChildBondId(q);
      assert image == restImage + {ChildBondId(p)};
      if ChildBondId(p) in restImage {
        var q :| q in rest && ChildBondId(q) == ChildBondId(p);
        BondIdOfInjective(Link(p, Parent(p)), Link(q, Parent(q)));
      }
    }
  }

  /** A child in the cone has its parent in the cone. */
  lemma InConeParent(kk: nat, R: set<int>, p: Pos)
    requires InCone(kk, R, p) && p.layer < kk && ValidPos(kk, Parent(p))
    ensures InCone(kk, R, Parent(p))
  {
    var r: nat :| r in R && Covers(kk, r, p);
    CoversParent(kk, r, p);
  }

  /** Bonded siblings are in the cone together. */
  lemma InConeSibling(kk: nat, R: set<int>, p: Pos)
    requires ValidPos(kk, p) && ValidPos(kk, Sibling(p)) && p.layer + 2 <= kk
    ensures InCone(kk, R, p) <==> InCone(kk, R, Sibling(p))
  {
    assert Sibling(Sibling(p)) == p;
    if InCone(kk, R, p) {
      var r: nat :| r in R && Covers(kk, r, p);
      CoversSibling(kk, r, p);
    }
    if InCone(kk, R, Sibling(p)) {
      var r: nat :| r in R && Covers(kk, r, Sibling(p));
      CoversSibling(kk, r, Sibling(p));
    }
  }

  /** A bond crosses the cone exactly when it is vertical, its child is
      outside and its parent inside: a horizontal bond never crosses. */
  lemma LinkCrosses(kk: nat, R: set<int>, k: Link)
    requires k in Links(kk)
    ensures Crosses(ConeIds(kk, R), BondOf(k))
            <==> IsVertical(kk, k) && !InCone(kk, R, k.source) && InCone(kk, R, k.target)
  {
    LinksMember(kk, k);
    LinkEndpointsValid(kk, k);
    ConeIdsMember(kk, R, k.source);
    ConeIdsMember(kk, R, k.target);
    if IsVertical(kk, k) {
      if InCone(kk, R, k.source) {
        InConeParent(kk, R, k.source);
      }
    } else {
      assert k.target == Sibling(k.source);
      InConeSibling(kk, R, k.source);
    }
  }

  /** A crossing bond of the built network is in the index-space cut. */
  lemma CrossingBondInCut(b: nat, R: set<int>, k: nat)
    requires IsPowerOfTwo(b) && k < |BuiltNetwork(b).bonds|
    requires Crosses(ConeIds(Log2(b), R), BuiltNetwork(b).bonds[k])
    ensures BuiltNetwork(b).bonds[k].id in CutIds(Log2(b), R)
  {
    var kk := Log2(b);
    var l := Links(kk)[k];
    assert BuiltNetwork(b).bonds[k] == BondOf(l);
    LinkCrosses(kk, R, l);
    PositionsMember(kk, l.source);
    assert l.source in CutChildren(kk, R);
  }

  /** The bond of a cut child is a crossing bond of the built network. */
  lemma CutChildCrosses(b: nat, R: set<int>, p: Pos)
    requires IsPowerOfTwo(b) && p in Positions(Log2(b)) && p.layer < Log2(b)
    requires !InCone(Log2(b), R, p) && InCone(Log2(b), R, Parent(p))
    ensures ChildBondId(p) in CutSet(BuiltNetwork(b).bonds, ConeIds(Log2(b), R))
  {
    var kk := Log2(b);
    var ks, l := Links(kk), Link(p, Parent(p));
    PositionsMember(kk, p);
    LinksMember(kk, l);
    var k :| 0 <= k < |ks| && ks[k] == l;
    assert BuiltNetwork(b).bonds[k] == BondOf(l);
    LinkCrosses(kk, R, l);
  }

  lemma CutSetWithinCutIds(b: nat, R: set<int>)
    requires IsPowerOfTwo(b)
    ensures CutSet(BuiltNetwork(b).bonds, ConeIds(Log2(b), R)) <= CutIds(Log2(b), R)
  {
    var bonds, C := BuiltNetwork(b).bonds, ConeIds(Log2(b), R);
    forall id | id in CutSet(bonds, C) ensures id in CutIds(Log2(b), R) {
      var k :| 0 <= k < |bonds| && Crosses(C, bonds[k]) && bonds[k].id == id;
      CrossingBondInCut(b, R, k);
    }
  }

  lemma CutIdsWithinCutSet(b: nat, R: set<int>)
    requires IsPowerOfTwo(b)
    ensures CutIds(Log2(b), R) <= CutSet(BuiltNetwork(b).bonds, ConeIds(Log2(b), R))
  {
    var kk := Log2(b);
    forall id | id in CutIds(kk, R) ensures id in CutSet(BuiltNetwork(b).bonds, ConeIds(kk, R)) {
      var p :| p in CutChildren(kk, R) && id == ChildBondId(p);
      CutChildCrosses(b, R, p);
    }
  }

  /** The cut the calculation collects on the built network, for the
      index-space cone of R, is the set of vertical bonds from a child
      outside the cone to a parent inside it. */
  lemma BuiltCutSet(b: nat, R: set<int>)
    requires IsPowerOfTwo(b)
    ensures CutSet(BuiltNetwork(b).bonds, ConeIds(Log2(b), R)) == CutIds(Log2(b), R)
  {
    CutSetWithinCutIds(b, R);
    CutIdsWithinCutSet(b, R);
  }

  // ---------------------------------------------------------------------
  // The whole calculation on the built network.

  /** On the built network the indices the calculation accepts are those
      of an early exit and those inside the boundary. */
  lemma BuiltValidRegion(b: nat, regionIndices: seq<int>)
    requires IsPowerOfTwo(b)
    ensures ValidRegion(BuiltNetwork(b), regionIndices)
            <==> |regionIndices| == 0 || |regionIndices| == b
                 || forall k :: 0 <= k < |regionIndices| ==> 0 <= regionIndices[k] < b
  {
    BuiltLayers(b);
    BuiltBoundary(b);
  }

  /** Over boundary nodes whose ids follow their indices, the seeds are
      the boundary ids of the index set. */
  lemma SeedsOfIndexedBoundary(bn: seq<MeraNode>, regionIndices: seq<int>)
    requires forall k :: 0 <= k < |regionIndices| ==> 0 <= regionIndices[k] < |bn|
    requires forall i :: 0 <= i < |bn| ==> bn[i].id == NodeIdOf(0, i)
    ensures (set x | x in RegionSeeds(bn, regionIndices)) == BoundaryIds(set x | x in regionIndices)
  {
    var ids := seq(|regionIndices|, k requires 0 <= k < |regionIndices| => bn[regionIndices[k]].id);
    assert RegionSeeds(bn, regionIndices) == Dedup(ids);
    var R := set x | x in regionIndices;
    forall x ensures x in ids <==> x in BoundaryIds(R) {
      if x in ids {
        var k :| 0 <= k < |ids| && ids[k] == x;
        assert regionIndices[k] in R;
      }
      if x in BoundaryIds(R) {
        var r :| r in R && 0 <= r && x == NodeIdOf(0, r);
        var k :| 0 <= k < |regionIndices| && regionIndices[k] == r;
        assert ids[k] == x;
      }
    }
  }

  /** The deduplicated seeds are the boundary nodes with the given indices. */
  lemma BuiltRegionSeeds(b: nat, regionIndices: seq<int>)
    requires IsPowerOfTwo(b)
    requires forall k :: 0 <= k < |regionIndices| ==> 0 <= regionIndices[k] < |BoundaryNodes(BuiltNetwork(b).nodes)|
    ensures (set x | x in RegionSeeds(BoundaryNodes(BuiltNetwork(b).nodes), regionIndices))
            == BoundaryIds(set x | x in regionIndices)
  {
    BuiltBoundary(b);
    SeedsOfIndexedBoundary(BoundaryNodes(BuiltNetwork(b).nodes), regionIndices);
  }

  /** What `calculateMinCut` returns on the network `buildMeraNetwork`
      returns: nothing for the two early exits, and otherwise the vertical
      bonds from a child outside the index-space cone of the region to a
      parent inside it, with the entropy their number. */
  lemma BuiltMinCut(b: nat, regionIndices: seq<int>)
    requires IsPowerOfTwo(b) && ValidRegion(BuiltNetwork(b), regionIndices)
    ensures var R := set x | x in regionIndices;
            MinCutOf(BuiltNetwork(b), regionIndices)
            == if |regionIndices| == 0 || |regionIndices| == b then MinCutResult(0, {})
               else MinCutResult(|CutChildren(Log2(b), R)|, CutIds(Log2(b), R))
  {
    BuiltLayers(b);
    var R := set x | x in regionIndices;
    if |regionIndices| != 0 && |regionIndices| != b {
      BuiltValidRegion(b, regionIndices);
      BuiltBoundary(b);
      BuiltRegionSeeds(b, regionIndices);
      BuiltCone(b, R);
      BuiltCutSet(b, R);
      ChildBondIdsSize(CutChildren(Log2(b), R));
    }
  }

  /** A node is in the cone of a region exactly when it is the ancestor of
      one of the region's boundary nodes or, below the children of the top
      node, the sibling of such an ancestor. */
  lemma BuiltConeMember(b: nat, R: set<int>, p: Pos)
    requires IsPowerOfTwo(b) && forall r :: r in R ==> 0 <= r < b
    ensures PosId(p) in Cone(NodeMap(BuiltNetwork(b).nodes), Adjacency(BuiltNetwork(b)), BoundaryIds(R))
            <==> ValidPos(Log2(b), p)
                 && exists r: nat :: r in R && (p == Ancestor(r, p.layer)
                                             || (p.layer + 2 <= Log2(b) && p == Sibling(Ancestor(r, p.layer))))
  {
    var kk := Log2(b);
    BuiltCone(b, R);
    if PosId(p) in ConeIds(kk, R) {
      var p' :| p' in Positions(kk) && InCone(kk, R, p') && PosId(p') == PosId(p);
      PosIdInjective(p, p');
      var r: nat :| r in R && Covers(kk, r, p);
      CoversShape(kk, r, p);
    }
    if ValidPos(kk, p) && exists r: nat :: r in R && (p == Ancestor(r, p.layer)
                                                    || (p.layer + 2 <= kk && p == Sibling(Ancestor(r, p.layer)))) {
      var r: nat :| r in R && (p == Ancestor(r, p.layer) || (p.layer + 2 <= kk && p == Sibling(Ancestor(r, p.layer))));
      CoversAncestor(kk, r, p.layer);
      if p != Ancestor(r, p.layer) {
        CoversSibling(kk, r, Ancestor(r, p.layer));
      }
      ConeIdsMember(kk, R, p);
    }
  }

  /** The top node is in the cone of every non-empty region. */
  lemma BuiltTopInCone(b: nat, regionIndices: seq<int>)
    requires IsPowerOfTwo(b) && |regionIndices| > 0
    requires forall k :: 0 <= k < |regionIndices| ==> 0 <= regionIndices[k] < b
    ensures NodeIdOf(Log2(b), 0)
            in Cone(NodeMap(BuiltNetwork(b).nodes), Adjacency(BuiltNetwork(b)), BoundaryIds(set x | x in regionIndices))
  {
    var kk, R := Log2(b), set x | x in regionIndices;
    TopCovers(kk, regionIndices[0]);
    ConeIdsMember(kk, R, Pos(kk, 0));
    BuiltCone(b, R);
  }

  /** Every boundary node reaches the top node. */
  lemma TopCovers(kk: nat, r: nat)
    requires r < Pow2(kk)
    ensures Covers(kk, r, Pos(kk, 0))
  {
    QuotientUnique(r, Pow2(kk), 0, r);
  }

  /** Boundary node j * 2^m lies below node j of layer m. */
  lemma FirstDescendant(kk: nat, p: Pos) returns (r: nat)
    requires ValidPos(kk, p)
    ensures r < Pow2(kk) && r / Pow2(p.layer) == p.index
  {
    var m, e, j := p.layer, kk - p.layer, p.index;
    var a, c := Pow2(m), Pow2(kk - p.layer);
    assert e + m == kk;
    Pow2Add(e, m);
    assert c * a == Pow2(kk);
    r := j * a;
    MulStep(j, c, a);
    QuotientOfMultiple(j, a);
  }

  /** With every boundary index in the region the cone is the whole network. */
  lemma FullRegionInCone(kk: nat, R: set<int>, p: Pos)
    requires ValidPos(kk, p) && forall i :: 0 <= i < Pow2(kk) ==> i in R
    ensures InCone(kk, R, p)
  {
    var r := FirstDescendant(kk, p);
    HalveQuotient(r, p.layer);
    assert Covers(kk, r, p);
  }

  /** With every boundary index in R no child lies outside the cone. */
  lemma FullRegionNoCutChildren(kk: nat, R: set<int>)
    requires forall i :: 0 <= i < Pow2(kk) ==> i in R
    ensures CutChildren(kk, R) == {} && CutIds(kk, R) == {}
  {
    forall p | p in CutChildren(kk, R) ensures false {
      PositionsMember(kk, p);
      FullRegionInCone(kk, R, p);
    }
  }

  /** A region holding every boundary index has an empty cut, whatever its
      length: the early exit on a full-length region agrees with the
      general case. */
  lemma FullRegionEmptyCut(b: nat, regionIndices: seq<int>)
    requires IsPowerOfTwo(b)
    requires forall k :: 0 <= k < |regionIndices| ==> 0 <= regionIndices[k] < b
    requires forall i :: 0 <= i < b ==> i in regionIndices
    ensures ValidRegion(BuiltNetwork(b), regionIndices)
            && MinCutOf(BuiltNetwork(b), regionIndices) == MinCutResult(0, {})
  {
    var R := set x | x in regionIndices;
    BuiltValidRegion(b, regionIndices);
    BuiltMinCut(b, regionIndices);
    FullRegionNoCutChildren(Log2(b), R);
  }
}
