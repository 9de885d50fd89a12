/** Concrete results of the builder and the cut calculator: the region the
    application starts with (App.tsx:9-25) and small boundaries on which the
    early exits and the shape of the cone are visible. Each result is derived
    from the general characterisation of the cut of the built network. */
module Scenarios {
  import opened PowersOfTwo
  import opened MeraTypes
  import opened NodeIds
  import opened MeraTopology
  import opened MeraBuilder
  import opened MinCut
  import opened BuiltCut
  import opened Region

  /** A cut of the built network read off from its cut children. */
  lemma CutChildrenOf(kk: nat, R: set<int>, E: set<Pos>)
    requires forall p :: p in E <==> ValidPos(kk, p) && p.layer < kk && !InCone(kk, R, p) && InCone(kk, R, Parent(p))
    ensures CutChildren(kk, R) == E
  {
    forall p ensures p in CutChildren(kk, R) <==> p in E {
      PositionsMember(kk, p);
    }
  }

  /** The indices a region names, as a set. */
  function IndexSet(regionIndices: seq<int>): set<int>
  {
    set x | x in regionIndices
  }

  /** The ids of the vertical bonds above a set of children. */
  function ChildBondIds(E: set<Pos>): set<string>
  {
    set p | p in E :: ChildBondId(p)
  }

  /** E are the cut children of R, and the cut has their number and their
      bond ids. */
  ghost predicate CutOfChildren(kk: nat, R: set<int>, E: set<Pos>, entropy: nat, names: set<string>)
  {
    CutChildren(kk, R) == E && |E| == entropy && ChildBondIds(E) == names
  }

  /** The cut of a region of the built network, from the cut children of
      the index set the region names. */
  lemma BuiltCutOf(b: nat, kk: nat, regionIndices: seq<int>, R: set<int>, E: set<Pos>, entropy: nat, names: set<string>)
    requires IsPowerOfTwo(b) && Log2(b) == kk
    requires forall k :: 0 <= k < |regionIndices| ==> 0 <= regionIndices[k] < b
    requires |regionIndices| != 0 && |regionIndices| != b && IndexSet(regionIndices) == R
    requires CutOfChildren(kk, R, E, entropy, names)
    ensures ValidRegion(BuiltNetwork(b), regionIndices)
    ensures MinCutOf(BuiltNetwork(b), regionIndices) == MinCutResult(entropy, names)
  {
    BuiltValidRegion(b, regionIndices);
    BuiltMinCut(b, regionIndices);
  }

  lemma SmallIndexSets()
    ensures IndexSet([0]) == {0} && IndexSet([1, 2, 3]) == {1, 2, 3}
  {
    assert [1, 2, 3][0] == 1 && [1, 2, 3][1] == 2 && [1, 2, 3][2] == 3;
  }

  lemma Numerals()
    ensures NatToString(0) == "0" && NatToString(1) == "1" && NatToString(2) == "2" && NatToString(3) == "3"
    ensures NatToString(6) == "6" && NatToString(7) == "7"
  {
  }

  lemma SmallPowers()
    ensures Pow2(0) == 1 && Pow2(1) == 2 && Pow2(2) == 4 && Pow2(3) == 8
  {
  }

  lemma FourNodes()
    ensures IsPowerOfTwo(4) && Log2(4) == 2
  {
    PowerOfTwoIsPow2(2);
  }

  lemma EightNodes()
    ensures IsPowerOfTwo(8) && Log2(8) == 3
  {
    PowerOfTwoIsPow2(3);
  }

  // ---------------------------------------------------------------------
  // Eight boundary nodes, region [2, 5].

  /** The cone of boundary nodes 2..5 of the eight-node network: those four
      boundary nodes and every node above the boundary. */
  lemma DefaultInCone(p: Pos)
    ensures InCone(3, {2, 3, 4, 5}, p) <==> ValidPos(3, p) && (p.layer >= 1 || 2 <= p.index <= 5)
  {
    var R: set<int> := {2, 3, 4, 5};
    SmallPowers();
    if InCone(3, R, p) {
      var r: nat :| r in R && Covers(3, r, p);
      if p.layer == 0 {
        assert p.index / 2 == r / 2;
      }
    }
    if ValidPos(3, p) && (p.layer >= 1 || 2 <= p.index <= 5) {
      var r: nat := if p.layer == 0 then p.index else if p.layer == 1 && p.index / 2 == 0 then 2 else if p.layer == 2 && p.index == 0 then 2 else if p.layer == 3 then 2 else 4;
      assert r in R && Covers(3, r, p);
    }
  }

  lemma DefaultCutChild(p: Pos)
    ensures p in {Pos(0, 0), Pos(0, 1), Pos(0, 6), Pos(0, 7)}
            <==> ValidPos(3, p) && p.layer < 3 && !InCone(3, {2, 3, 4, 5}, p) && InCone(3, {2, 3, 4, 5}, Parent(p))
  {
    DefaultInCone(p);
    DefaultInCone(Parent(p));
  }

  /** The cut children are boundary nodes 0, 1, 6 and 7. */
  lemma DefaultCutChildren()
    ensures CutChildren(3, {2, 3, 4, 5}) == {Pos(0, 0), Pos(0, 1), Pos(0, 6), Pos(0, 7)}
  {
    var R: set<int> := {2, 3, 4, 5};
    var E := {Pos(0, 0), Pos(0, 1), Pos(0, 6), Pos(0, 7)};
    forall p ensures p in E <==> ValidPos(3, p) && p.layer < 3 && !InCone(3, R, p) && InCone(3, R, Parent(p)) {
      DefaultCutChild(p);
    }
    CutChildrenOf(3, R, E);
  }

  lemma LeftBondIds()
    ensures ChildBondId(Pos(0, 0)) == "l0-n0-l1-n0" && ChildBondId(Pos(0, 1)) == "l0-n1-l1-n0"
  {
    Numerals();
  }

  lemma RightBondIds()
    ensures ChildBondId(Pos(0, 6)) == "l0-n6-l1-n3" && ChildBondId(Pos(0, 7)) == "l0-n7-l1-n3"
  {
    Numerals();
  }

  lemma DefaultBondNames()
    ensures ChildBondIds({Pos(0, 0), Pos(0, 1), Pos(0, 6), Pos(0, 7)})
            == {"l0-n0-l1-n0", "l0-n1-l1-n0", "l0-n6-l1-n3", "l0-n7-l1-n3"}
  {
    LeftBondIds();
    RightBondIds();
  }

  lemma DefaultRegionSet()
    ensures IndexSet(RegionIndices(2, 5)) == {2, 3, 4, 5}
    ensures |RegionIndices(2, 5)| == 4 && forall k :: 0 <= k < 4 ==> 0 <= RegionIndices(2, 5)[k] < 8
  {
  }

  lemma DefaultCutSize()
    ensures |{Pos(0, 0), Pos(0, 1), Pos(0, 6), Pos(0, 7)}| == 4
  {
  }

  lemma DefaultFacts()
    ensures IsPowerOfTwo(8) && Log2(8) == 3
    ensures |RegionIndices(2, 5)| == 4 && forall k :: 0 <= k < 4 ==> 0 <= RegionIndices(2, 5)[k] < 8
    ensures IndexSet(RegionIndices(2, 5)) == {2, 3, 4, 5}
    ensures CutOfChildren(3, {2, 3, 4, 5}, {Pos(0, 0), Pos(0, 1), Pos(0, 6), Pos(0, 7)},
                          4, {"l0-n0-l1-n0", "l0-n1-l1-n0", "l0-n6-l1-n3", "l0-n7-l1-n3"})
  {
    EightNodes();
    DefaultRegionSet();
    DefaultCutChildren();
    DefaultCutSize();
    DefaultBondNames();
  }

  /** Region [2, 5] of the eight-node network is cut by the four vertical
      bonds above boundary nodes 0, 1, 6 and 7. */
  lemma DefaultRegionCut()
    ensures ValidRegion(BuiltNetwork(8), RegionIndices(2, 5))
    ensures MinCutOf(BuiltNetwork(8), RegionIndices(2, 5))
            == MinCutResult(4, {"l0-n0-l1-n0", "l0-n1-l1-n0", "l0-n6-l1-n3", "l0-n7-l1-n3"})
  {
    DefaultFacts();
    BuiltCutOf(8, 3, RegionIndices(2, 5), {2, 3, 4, 5}, {Pos(0, 0), Pos(0, 1), Pos(0, 6), Pos(0, 7)},
               4, {"l0-n0-l1-n0", "l0-n1-l1-n0", "l0-n6-l1-n3", "l0-n7-l1-n3"});
  }

  /** The application's start-up computation: the eight-node network, the
      initial region [2, 5] expanded to its indices, and its cut. */
  method DefaultScenario() returns (result: MinCutResult)
    ensures result == MinCutResult(4, {"l0-n0-l1-n0", "l0-n1-l1-n0", "l0-n6-l1-n3", "l0-n7-l1-n3"})
  {
    EightNodes();
    var network := BuildMeraNetwork(8);
    var region := (2, 5);
    var regionIndices := RegionIndices(region.0, region.1);
    DefaultRegionCut();
    result := CalculateMinCut(network, regionIndices);
  }

  // ---------------------------------------------------------------------
  // Four boundary nodes: a region and its complement.

  lemma FirstNodeInCone(p: Pos)
    ensures InCone(2, {0}, p) <==> (ValidPos(2, p) && p.index == 0) || p == Pos(0, 1)
  {
    SmallPowers();
    if (ValidPos(2, p) && p.index == 0) || p == Pos(0, 1) {
      assert Covers(2, 0, p);
    }
  }

  lemma OtherNodesInCone(p: Pos)
    ensures InCone(2, {1, 2, 3}, p) <==> ValidPos(2, p)
  {
    var R: set<int> := {1, 2, 3};
    SmallPowers();
    if ValidPos(2, p) {
      var r: nat := if p.layer == 0 then p.index + 1 - p.index % 2 else if p.layer == 1 then 2 * p.index + 1 else 1;
      assert r in R && Covers(2, r, p);
    }
  }

  lemma FirstNodeCutChildren()
    ensures CutChildren(2, {0}) == {Pos(1, 1)}
  {
    var R: set<int> := {0};
    var E := {Pos(1, 1)};
    forall p ensures p in E <==> ValidPos(2, p) && p.layer < 2 && !InCone(2, R, p) && InCone(2, R, Parent(p)) {
      FirstNodeInCone(p);
      FirstNodeInCone(Parent(p));
    }
    CutChildrenOf(2, R, E);
  }

  lemma FirstNodeBondName()
    ensures ChildBondIds({Pos(1, 1)}) == {"l1-n1-l2-n0"}
  {
    Numerals();
    assert ChildBondId(Pos(1, 1)) == "l1-n1-l2-n0";
  }

  lemma FirstNodeFacts()
    ensures IsPowerOfTwo(4) && Log2(4) == 2 && IndexSet([0]) == {0}
    ensures CutOfChildren(2, {0}, {Pos(1, 1)}, 1, {"l1-n1-l2-n0"})
  {
    FourNodes();
    SmallIndexSets();
    FirstNodeCutChildren();
    FirstNodeBondName();
  }

  /** Boundary node 0 of four is cut from the rest by the single bond from
      layer-1 node 1 to the top. */
  lemma FirstNodeCut()
    ensures ValidRegion(BuiltNetwork(4), [0])
    ensures MinCutOf(BuiltNetwork(4), [0]) == MinCutResult(1, {"l1-n1-l2-n0"})
  {
    FirstNodeFacts();
    BuiltCutOf(4, 2, [0], {0}, {Pos(1, 1)}, 1, {"l1-n1-l2-n0"});
  }


  lemma OtherNodesCutChildren()
    ensures CutChildren(2, {1, 2, 3}) == {}
  {
    var R: set<int> := {1, 2, 3};
    forall p ensures p in {} <==> ValidPos(2, p) && p.layer < 2 && !InCone(2, R, p) && InCone(2, R, Parent(p)) {
      OtherNodesInCone(p);
    }
    CutChildrenOf(2, R, {});
  }

  lemma OtherNodesFacts()
    ensures IsPowerOfTwo(4) && Log2(4) == 2 && IndexSet([1, 2, 3]) == {1, 2, 3}
    ensures CutOfChildren(2, {1, 2, 3}, {}, 0, {})
  {
    FourNodes();
    SmallIndexSets();
    OtherNodesCutChildren();
  }

  /** The complement {1, 2, 3} of boundary node 0 of four has a cone holding
      the whole network, so its cut is empty. */
  lemma OtherNodesCut()
    ensures ValidRegion(BuiltNetwork(4), [1, 2, 3])
    ensures MinCutOf(BuiltNetwork(4), [1, 2, 3]) == MinCutResult(0, {})
  {
    OtherNodesFacts();
    BuiltCutOf(4, 2, [1, 2, 3], {1, 2, 3}, {}, 0, {});
  }


  /** A region and its complement need not get the same entropy. */
  lemma ComplementAsymmetry()
    ensures ValidRegion(BuiltNetwork(4), [0]) && ValidRegion(BuiltNetwork(4), [1, 2, 3])
    ensures MinCutOf(BuiltNetwork(4), [0]).entropy != MinCutOf(BuiltNetwork(4), [1, 2, 3]).entropy
  {
    FirstNodeCut();
    OtherNodesCut();
  }

  // ---------------------------------------------------------------------
  // The length test counts repeated indices.

  /** On four boundary nodes the index list [0, 0, 0, 0] has the length of
      the boundary and takes the early exit with an empty cut, although it
      names only node 0, whose own cut is not empty. */
  lemma RepeatedIndexEarlyExit()
    ensures ValidRegion(BuiltNetwork(4), [0, 0, 0, 0])
    ensures MinCutOf(BuiltNetwork(4), [0, 0, 0, 0]) == MinCutResult(0, {})
    ensures MinCutOf(BuiltNetwork(4), [0, 0, 0, 0]) != MinCutOf(BuiltNetwork(4), [0])
  {
    FourNodes();
    BuiltValidRegion(4, [0, 0, 0, 0]);
    FirstNodeCut();
  }
}
