/** What `buildMeraNetwork` (services/meraService.ts:4-61) guarantees about
    the records it returns: layer sizes, node order and uniqueness, the
    boundary flag, and which bonds exist, stated on the string ids. */
module MeraStructure {
  import opened PowersOfTwo
  import opened MeraTypes
  import opened NodeIds
  import opened MeraTopology
  import opened MeraBuilder

  /** Distinct positions have distinct ids. */
  lemma PosIdInjective(p: Pos, q: Pos)
    ensures PosId(p) == PosId(q) <==> p == q
  {
    if PosId(p) == PosId(q) {
      NodeIdInjective(p.layer, p.index, q.layer, q.index);
    }
  }

  /** Distinct links have distinct bond ids. */
  lemma BondIdOfInjective(k: Link, k': Link)
    ensures BondOf(k).id == BondOf(k').id <==> k == k'
  {
    if BondOf(k).id == BondOf(k').id {
      BondIdInjective(k.source.layer, k.source.index, k.target.layer, k.target.index,
                      k'.source.layer, k'.source.index, k'.target.layer, k'.target.index);
    }
  }

  lemma RenderNodesMember(ps: seq<Pos>, p: Pos)
    ensures NodeOf(p) in RenderNodes(ps) <==> p in ps
  {
    var r := RenderNodes(ps);
    if NodeOf(p) in r {
      var k :| 0 <= k < |r| && r[k] == NodeOf(p);
      PosIdInjective(ps[k], p);
    }
    if p in ps {
      var k :| 0 <= k < |ps| && ps[k] == p;
      assert r[k] == NodeOf(p);
    }
  }

  lemma RenderBondsMember(ks: seq<Link>, k: Link)
    ensures BondOf(k) in RenderBonds(ks) <==> k in ks
  {
    var r := RenderBonds(ks);
    if BondOf(k) in r {
      var j :| 0 <= j < |r| && r[j] == BondOf(k);
      BondIdOfInjective(ks[j], k);
    }
    if k in ks {
      var j :| 0 <= j < |ks| && ks[j] == k;
      assert r[j] == BondOf(k);
    }
  }

  // ---------------------------------------------------------------------
  // Layers and nodes.

  /** `layers` is log2(b) + 1: the boundary is 2^(layers-1) wide. */
  lemma BuiltLayers(b: nat)
    requires IsPowerOfTwo(b)
    ensures BuiltNetwork(b).layers >= 1 && Pow2(BuiltNetwork(b).layers - 1) == b
    ensures BuiltNetwork(b).boundarySize == b
  {
  }

  /** Layer l, filtered out of the nodes, is the 2^(K-l) ids `l{l}-n0`,
      `l{l}-n1`, ... in index order; above the top layer there is nothing. */
  lemma BuiltLayerContents(b: nat, l: nat)
    requires IsPowerOfTwo(b)
    ensures var kk := Log2(b);
            NodesInLayer(BuiltNetwork(b).nodes, l)
            == if l <= kk then RenderNodes(LayerPositions(l, Pow2(kk - l))) else []
  {
    var kk := Log2(b);
    NodesInLayerBelow(kk, kk + 1, l);
  }

  /** Layer l holds 2^(K-l) = b / 2^l nodes, the i-th of which is
      `l{l}-n{i}`, a boundary node exactly when l = 0. */
  lemma BuiltLayerSize(b: nat, l: nat)
    requires IsPowerOfTwo(b) && l < BuiltNetwork(b).layers
    ensures var n := |NodesInLayer(BuiltNetwork(b).nodes, l)|;
            n == Pow2(BuiltNetwork(b).layers - 1 - l) && n * Pow2(l) == b
    ensures forall i :: 0 <= i < |NodesInLayer(BuiltNetwork(b).nodes, l)| ==>
              NodesInLayer(BuiltNetwork(b).nodes, l)[i] == MeraNode(NodeIdOf(l, i), l, l == 0)
  {
    var kk := Log2(b);
    var n := Pow2(kk - l);
    var layer := NodesInLayer(BuiltNetwork(b).nodes, l);
    BuiltLayerContents(b, l);
    assert layer == RenderNodes(LayerPositions(l, n));
    Pow2Add(kk - l, l);
    assert kk - l + l == kk;
    forall i | 0 <= i < |layer| ensures layer[i] == MeraNode(NodeIdOf(l, i), l, l == 0) {
      assert LayerPositions(l, n)[i] == Pos(l, i);
    }
  }

  /** The top layer is the single node `l{K}-n0`. */
  lemma BuiltTopLayer(b: nat)
    requires IsPowerOfTwo(b)
    ensures var kk := BuiltNetwork(b).layers - 1;
            NodesInLayer(BuiltNetwork(b).nodes, kk) == [MeraNode(NodeIdOf(kk, 0), kk, kk == 0)]
  {
    var kk := BuiltNetwork(b).layers - 1;
    var top := NodesInLayer(BuiltNetwork(b).nodes, kk);
    BuiltLayerSize(b, kk);
    assert |top| == 1;
    assert top[0] == MeraNode(NodeIdOf(kk, 0), kk, kk == 0);
  }

  /** 2b - 1 nodes in all. */
  lemma BuiltNodeCount(b: nat)
    requires IsPowerOfTwo(b)
    ensures |BuiltNetwork(b).nodes| == 2 * b - 1
  {
    PositionsLength(Log2(b));
  }

  /** The node `l{l}-n{i}` exists exactly when l is a layer and i < 2^(K-l). */
  lemma BuiltNodeMember(b: nat, l: nat, i: nat)
    requires IsPowerOfTwo(b)
    ensures MeraNode(NodeIdOf(l, i), l, l == 0) in BuiltNetwork(b).nodes
            <==> l < BuiltNetwork(b).layers && i < Pow2(BuiltNetwork(b).layers - 1 - l)
  {
    var kk := Log2(b);
    RenderNodesMember(Positions(kk), Pos(l, i));
    PositionsMember(kk, Pos(l, i));
  }

  /** Every record is one of the valid positions, rendered. */
  lemma BuiltNodeShape(b: nat, x: MeraNode)
    requires IsPowerOfTwo(b) && x in BuiltNetwork(b).nodes
    ensures exists p :: ValidPos(Log2(b), p) && x == NodeOf(p)
  {
    var kk := Log2(b);
    var r := BuiltNetwork(b).nodes;
    var k :| 0 <= k < |r| && r[k] == x;
    PositionsMember(kk, Positions(kk)[k]);
  }

  /** `isBoundary` holds exactly on layer 0, and the boundary nodes are the
      ids `l0-n0` .. `l0-n{b-1}` in order. */
  lemma BuiltBoundary(b: nat)
    requires IsPowerOfTwo(b)
    ensures forall x :: x in BuiltNetwork(b).nodes ==> (x.isBoundary <==> x.layer == 0)
    ensures BoundaryNodes(BuiltNetwork(b).nodes) == NodesInLayer(BuiltNetwork(b).nodes, 0)
    ensures |BoundaryNodes(BuiltNetwork(b).nodes)| == b
    ensures forall i :: 0 <= i < b ==> BoundaryNodes(BuiltNetwork(b).nodes)[i].id == NodeIdOf(0, i)
  {
    var nodes := BuiltNetwork(b).nodes;
    forall x | x in nodes ensures x.isBoundary <==> x.layer == 0 {
      BuiltNodeShape(b, x);
    }
    BoundaryIsLayerZero(nodes);
    var layer0 := NodesInLayer(nodes, 0);
    BuiltLayerSize(b, 0);
    assert |layer0| * Pow2(0) == b;
    assert |layer0| == b;
    forall i | 0 <= i < b ensures layer0[i].id == NodeIdOf(0, i) {
      assert layer0[i] == MeraNode(NodeIdOf(0, i), 0, true);
    }
  }

  /** No two nodes share an id. */
  lemma BuiltNodeIdsDistinct(b: nat)
    requires IsPowerOfTwo(b)
    ensures forall j, k :: 0 <= j < k < |BuiltNetwork(b).nodes| ==>
              BuiltNetwork(b).nodes[j].id != BuiltNetwork(b).nodes[k].id
  {
    var kk := Log2(b);
    var ps := Positions(kk);
    PositionsDistinct(kk);
    forall j, k | 0 <= j < k < |ps| ensures PosId(ps[j]) != PosId(ps[k]) {
      PosIdInjective(ps[j], ps[k]);
    }
  }

  /** Nodes come layer by layer, bottom first. */
  lemma BuiltNodesLayerOrder(b: nat)
    requires IsPowerOfTwo(b)
    ensures forall j, k :: 0 <= j < k < |BuiltNetwork(b).nodes| ==>
              BuiltNetwork(b).nodes[j].layer <= BuiltNetwork(b).nodes[k].layer
  {
    var kk := Log2(b);
    PositionsBelowOrdered(kk, kk + 1);
  }

  // ---------------------------------------------------------------------
  // Bonds.

  /** A bond record exists exactly for the vertical and horizontal links. */
  lemma BuiltBondMember(b: nat, k: Link)
    requires IsPowerOfTwo(b)
    ensures BondOf(k) in BuiltNetwork(b).bonds <==> IsVertical(Log2(b), k) || IsHorizontal(Log2(b), k)
  {
    RenderBondsMember(Links(Log2(b)), k);
    LinksMember(Log2(b), k);
  }

  /** Node i of layer l >= 1 has exactly two bonds from layer l - 1: from its
      children 2i and 2i + 1, each with id `<child>-<parent>`. */
  lemma BuiltVerticalBonds(b: nat, l: nat, i: nat, j: nat)
    requires IsPowerOfTwo(b) && 1 <= l < BuiltNetwork(b).layers && i < Pow2(BuiltNetwork(b).layers - 1 - l)
    ensures var child, parent := NodeIdOf(l - 1, j), NodeIdOf(l, i);
            MeraBond(child + "-" + parent, child, parent) in BuiltNetwork(b).bonds
            <==> j == 2 * i || j == 2 * i + 1
  {
    var kk := Log2(b);
    var k := Link(Pos(l - 1, j), Pos(l, i));
    BuiltBondMember(b, k);
    assert kk - (l - 1) == (kk - l) + 1;
    assert Pow2(kk - (l - 1)) == 2 * Pow2(kk - l);
  }

  /** A bond within layer l joins `l{l}-n{j}` to `l{l}-n{j+1}` for even j,
      and exists only on layers l with l + 2 < layers. */
  lemma BuiltHorizontalBonds(b: nat, l: nat, j: nat, j': nat)
    requires IsPowerOfTwo(b)
    ensures var left, right := NodeIdOf(l, j), NodeIdOf(l, j');
            MeraBond(left + "-" + right, left, right) in BuiltNetwork(b).bonds
            <==> l + 2 < BuiltNetwork(b).layers && j % 2 == 0 && j' == j + 1
                 && j' < Pow2(BuiltNetwork(b).layers - 1 - l)
  {
    var kk := Log2(b);
    var k := Link(Pos(l, j), Pos(l, j'));
    BuiltBondMember(b, k);
    if l + 2 <= kk && j % 2 == 0 && j' == j + 1 {
      var e := kk - l - 1;
      assert kk - l == e + 1;
      assert Pow2(kk - l) == 2 * Pow2(e);
      assert j < Pow2(kk - l) <==> j' < Pow2(kk - l);
    }
  }

  /** Both endpoints of every bond are node ids. */
  lemma BuiltBondEndpoints(b: nat)
    requires IsPowerOfTwo(b)
    ensures forall bond :: bond in BuiltNetwork(b).bonds ==>
              bond.source in NodeIdSet(BuiltNetwork(b).nodes) && bond.target in NodeIdSet(BuiltNetwork(b).nodes)
  {
    var kk := Log2(b);
    var net := BuiltNetwork(b);
    forall bond | bond in net.bonds
      ensures bond.source in NodeIdSet(net.nodes) && bond.target in NodeIdSet(net.nodes)
    {
      var j :| 0 <= j < |net.bonds| && net.bonds[j] == bond;
      var k := Links(kk)[j];
      LinksMember(kk, k);
      LinkEndpointsValid(kk, k);
      RenderNodesMember(Positions(kk), k.source);
      RenderNodesMember(Positions(kk), k.target);
      PositionsMember(kk, k.source);
      PositionsMember(kk, k.target);
    }
  }

  /** No two bonds share an id. */
  lemma BuiltBondIdsDistinct(b: nat)
    requires IsPowerOfTwo(b)
    ensures forall j, k :: 0 <= j < k < |BuiltNetwork(b).bonds| ==>
              BuiltNetwork(b).bonds[j].id != BuiltNetwork(b).bonds[k].id
  {
    var ks := Links(Log2(b));
    LinksDistinct(Log2(b));
    forall j, k | 0 <= j < k < |ks| ensures BondOf(ks[j]).id != BondOf(ks[k]).id {
      BondIdOfInjective(ks[j], ks[k]);
    }
  }

  /** 3b - 4 bonds for b >= 2: 2(b - 1) of them vertical and b - 2
      horizontal; none for b = 1. */
  lemma BuiltBondCount(b: nat)
    requires IsPowerOfTwo(b)
    ensures b >= 2 ==> |BuiltNetwork(b).bonds| == 3 * b - 4
    ensures b == 1 ==> BuiltNetwork(b).bonds == []
    ensures VerticalCount(Links(Log2(b))) == 2 * (b - 1)
    ensures HorizontalCount(Links(Log2(b))) == if b >= 2 then b - 2 else 0
  {
    LinksCounts(Log2(b));
    if Log2(b) == 0 {
      assert Pow2(0) == 1;
    } else {
      assert Pow2(Log2(b)) >= 2;
    }
  }
}
