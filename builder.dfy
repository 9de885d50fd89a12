/** `buildMeraNetwork` (services/meraService.ts:4-61): the layered binary MERA
    graph for a power-of-two boundary size, built by pushing node and bond
    records in nested loops, and the structural facts it guarantees. */
module MeraBuilder {
  import opened PowersOfTwo
  import opened MeraTypes
  import opened NodeIds
  import opened MeraTopology

  /** The id string of a position. */
  function PosId(p: Pos): string
  {
    NodeIdOf(p.layer, p.index)
  }

  /** The record the builder pushes for a position; only layer 0 is boundary. */
  function NodeOf(p: Pos): MeraNode
  {
    MeraNode(PosId(p), p.layer, p.layer == 0)
  }

  /** The record the builder pushes for a link, with id `<source>-<target>`. */
  function BondOf(k: Link): MeraBond
  {
    MeraBond(BondIdOf(PosId(k.source), PosId(k.target)), PosId(k.source), PosId(k.target))
  }

  function RenderNodes(ps: seq<Pos>): (r: seq<MeraNode>)
    ensures |r| == |ps|
  {
    seq(|ps|, k requires 0 <= k < |ps| => NodeOf(ps[k]))
  }

  function RenderBonds(ks: seq<Link>): (r: seq<MeraBond>)
    ensures |r| == |ks|
  {
    seq(|ks|, k requires 0 <= k < |ks| => BondOf(ks[k]))
  }

  /** The network the builder returns for boundary size b = 2^K: the K + 1
      layers of nodes in order, then the bonds parent by parent. */
  function BuiltNetwork(b: nat): MeraNetwork
    requires IsPowerOfTwo(b)
  {
    var kk := Log2(b);
    MeraNetwork(RenderNodes(Positions(kk)), RenderBonds(Links(kk)), b, kk + 1)
  }

  lemma RenderNodesConcat(a: seq<Pos>, b: seq<Pos>)
    ensures RenderNodes(a + b) == RenderNodes(a) + RenderNodes(b)
  {
    assert forall k :: 0 <= k < |a + b| ==> RenderNodes(a + b)[k] == (RenderNodes(a) + RenderNodes(b))[k];
  }

  lemma RenderBondsConcat(a: seq<Link>, b: seq<Link>)
    ensures RenderBonds(a + b) == RenderBonds(a) + RenderBonds(b)
  {
    assert forall k :: 0 <= k < |a + b| ==> RenderBonds(a + b)[k] == (RenderBonds(a) + RenderBonds(b))[k];
  }

  lemma LayerPositionsSnoc(l: nat, n: nat)
    ensures LayerPositions(l, n + 1) == LayerPositions(l, n) + [Pos(l, n)]
  {
  }

  /** The three (or, below the top node, two) bond records pushed for one parent. */
  lemma RenderParentBonds(kk: nat, l: nat, i: nat)
    requires l >= 1
    ensures RenderBonds(ParentLinks(kk, l, i))
         == [BondOf(Link(Pos(l - 1, 2 * i), Pos(l, i))), BondOf(Link(Pos(l - 1, 2 * i + 1), Pos(l, i)))]
            + (if l < kk then [BondOf(Link(Pos(l - 1, 2 * i), Pos(l - 1, 2 * i + 1)))] else [])
  {
  }

  /** Pushing the boundary record of index i extends the rendering of layer 0 by one. */
  lemma BoundaryNodePushed(i: nat)
    ensures RenderNodes(LayerPositions(0, i)) + [MeraNode(NodeIdOf(0, i), 0, true)]
         == RenderNodes(LayerPositions(0, i + 1))
  {
    LayerPositionsSnoc(0, i);
    RenderNodesConcat(LayerPositions(0, i), [Pos(0, i)]);
  }

  /** The boundary layer on its own is the rendering of the positions below layer 1. */
  lemma BoundaryDone(kk: nat, b: nat, nodes: seq<MeraNode>)
    requires b == Pow2(kk) && nodes == RenderNodes(LayerPositions(0, b))
    ensures nodes == RenderNodes(PositionsBelow(kk, 1))
  {
    assert PositionsBelow(kk, 1) == LayerPositions(0, b);
  }

  /** Pushing the record of (l, i) extends the rendering of layer l by one. */
  lemma NodePushed(prefix: seq<MeraNode>, l: nat, i: nat)
    requires l >= 1
    ensures prefix + RenderNodes(LayerPositions(l, i)) + [MeraNode(NodeIdOf(l, i), l, false)]
         == prefix + RenderNodes(LayerPositions(l, i + 1))
  {
    LayerPositionsSnoc(l, i);
    RenderNodesConcat(LayerPositions(l, i), [Pos(l, i)]);
  }

  /** The bonds the inner loop body pushes for parent (l, i) extend the
      rendering of layer l's links by that parent's links. */
  lemma ParentBondsPushed(kk: nat, l: nat, i: nat, horizontal: bool, prefix: seq<MeraBond>,
                          before: seq<MeraBond>, after: seq<MeraBond>, c1: string, c2: string, p: string)
    requires l >= 1 && (horizontal <==> l < kk)
    requires c1 == PosId(Pos(l - 1, 2 * i)) && c2 == PosId(Pos(l - 1, 2 * i + 1)) && p == NodeIdOf(l, i)
    requires before == prefix + RenderBonds(LayerLinks(kk, l, i))
    requires after == if horizontal
                      then before + [MeraBond(BondIdOf(c1, p), c1, p)] + [MeraBond(BondIdOf(c2, p), c2, p)]
                           + [MeraBond(BondIdOf(c1, c2), c1, c2)]
                      else before + [MeraBond(BondIdOf(c1, p), c1, p)] + [MeraBond(BondIdOf(c2, p), c2, p)]
    ensures after == prefix + RenderBonds(LayerLinks(kk, l, i + 1))
  {
    RenderParentBonds(kk, l, i);
    RenderBondsConcat(LayerLinks(kk, l, i), ParentLinks(kk, l, i));
  }

  /** The k-th record of a rendered layer. */
  lemma RenderedLayerAt(l: nat, n: nat, k: nat)
    requires k < n
    ensures RenderNodes(LayerPositions(l, n))[k].id == PosId(Pos(l, k))
  {
  }

  /** Filtering the built lower layers by layer l - 1 gives that layer in
      index order: 2 * n nodes when layer l is to hold n. */
  lemma PreviousLayer(kk: nat, l: nat, nodes: seq<MeraNode>, n: nat)
    requires 1 <= l <= kk && n == Pow2(kk - l) && nodes == RenderNodes(PositionsBelow(kk, l))
    ensures NodesInLayer(nodes, l - 1) == RenderNodes(LayerPositions(l - 1, 2 * n))
  {
    var e := kk - l;
    assert kk - (l - 1) == e + 1;
    assert Pow2(e + 1) == 2 * n;
    NodesInLayerBelow(kk, l, l - 1);
  }

  /** Halving the previous layer's count gives the current layer's. */
  lemma HalfPow2(kk: nat, l: nat, prev: nat)
    requires 1 <= l <= kk && prev == Pow2(kk - (l - 1))
    ensures prev / 2 == Pow2(kk - l)
  {
    assert kk - (l - 1) == (kk - l) + 1;
  }

  lemma {:induction false} RenderInLayer(ps: seq<Pos>, m: nat)
    ensures NodesInLayer(RenderNodes(ps), m) == RenderNodes(PosInLayer(ps, m))
  {
    if ps == [] {
      assert RenderNodes(ps) == [];
    } else {
      var r := RenderNodes(ps);
      assert r[0] == NodeOf(ps[0]);
      assert r[1..] == RenderNodes(ps[1..]);
      RenderInLayer(ps[1..], m);
      RenderNodesConcat(if ps[0].layer == m then [ps[0]] else [], PosInLayer(ps[1..], m));
      if ps[0].layer == m {
        assert RenderNodes([ps[0]]) == [NodeOf(ps[0])];
      } else {
        assert RenderNodes([]) == [];
      }
    }
  }

  /** Filtering the nodes of layers 0 .. c-1 by layer m gives layer m in index order. */
  lemma NodesInLayerBelow(kk: nat, c: nat, m: nat)
    requires c <= kk + 1
    ensures NodesInLayer(RenderNodes(PositionsBelow(kk, c)), m)
            == if m < c then RenderNodes(LayerPositions(m, Pow2(kk - m))) else []
  {
    RenderInLayer(PositionsBelow(kk, c), m);
    PositionsBelowInLayer(kk, c, m);
    assert RenderNodes([]) == [];
  }

  /** At the start of layer l: the new layer holds half as many nodes as
      the previous one, and filtering the nodes so far by layer l - 1 gives
      the previous layer in index order. */
  lemma UpperLayerStart(kk: nat, l: nat, prev: nat, nodes: seq<MeraNode>)
    requires 1 <= l <= kk && prev == Pow2(kk - (l - 1)) && nodes == RenderNodes(PositionsBelow(kk, l))
    ensures prev / 2 == Pow2(kk - l)
    ensures NodesInLayer(nodes, l - 1) == RenderNodes(LayerPositions(l - 1, 2 * (prev / 2)))
  {
    HalfPow2(kk, l, prev);
    PreviousLayer(kk, l, nodes, prev / 2);
  }

  /** Finishing layer l appends its rendering to the nodes and bonds below it. */
  lemma LayerDone(layers: nat, kk: nat, l: nat, n: nat, nodes0: seq<MeraNode>, bonds0: seq<MeraBond>,
                  nodes: seq<MeraNode>, bonds: seq<MeraBond>)
    requires kk == layers - 1 && 1 <= l <= kk && n == Pow2(kk - l)
    requires nodes0 == RenderNodes(PositionsBelow(kk, l)) && bonds0 == RenderBonds(LinksBelow(kk, l))
    requires nodes == nodes0 + RenderNodes(LayerPositions(l, n))
    requires bonds == bonds0 + RenderBonds(LayerLinks(layers - 1, l, n))
    ensures nodes == RenderNodes(PositionsBelow(kk, l + 1))
    ensures bonds == RenderBonds(LinksBelow(kk, l + 1))
  {
    RenderNodesConcat(PositionsBelow(kk, l), LayerPositions(l, Pow2(kk - l)));
    RenderBondsConcat(LinksBelow(kk, l), LayerLinks(kk, l, Pow2(kk - l)));
  }

  /** The inner loop of the builder for layer l: one parent per pair of
      consecutive nodes of layer l - 1, with its two vertical bonds and,
      unless l is the top layer, the horizontal bond between the pair. */
  method AddParentLayer(layers: nat, l: nat, prevLayerNodes: seq<MeraNode>, nodesInCurrentLayer: nat,
                        nodes0: seq<MeraNode>, bonds0: seq<MeraBond>)
    returns (nodes: seq<MeraNode>, bonds: seq<MeraBond>)
    requires 1 <= l < layers
    requires prevLayerNodes == RenderNodes(LayerPositions(l - 1, 2 * nodesInCurrentLayer))
    ensures nodes == nodes0 + RenderNodes(LayerPositions(l, nodesInCurrentLayer))
    ensures bonds == bonds0 + RenderBonds(LayerLinks(layers - 1, l, nodesInCurrentLayer))
  {
    nodes, bonds := nodes0, bonds0;
    var i := 0;
    while i < nodesInCurrentLayer
      invariant 0 <= i <= nodesInCurrentLayer
      invariant nodes == nodes0 + RenderNodes(LayerPositions(l, i))
      invariant bonds == bonds0 + RenderBonds(LayerLinks(layers - 1, l, i))
    {
      var newNodeId := NodeIdOf(l, i);
      var child1 := prevLayerNodes[i * 2];
      var child2 := prevLayerNodes[i * 2 + 1];
      RenderedLayerAt(l - 1, 2 * nodesInCurrentLayer, 2 * i);
      RenderedLayerAt(l - 1, 2 * nodesInCurrentLayer, 2 * i + 1);
      nodes := nodes + [MeraNode(newNodeId, l, false)];
      NodePushed(nodes0, l, i);
      ghost var bonds1 := bonds;
      // Bonds to the children.
      bonds := bonds + [MeraBond(BondIdOf(child1.id, newNodeId), child1.id, newNodeId)];
      bonds := bonds + [MeraBond(BondIdOf(child2.id, newNodeId), child2.id, newNodeId)];
      // The horizontal disentangler between the children, unless l is the
      // top layer. (The source also tests `l > 0` and that both children
      // exist; both hold here.)
      if l < layers - 1 {
        bonds := bonds + [MeraBond(BondIdOf(child1.id, child2.id), child1.id, child2.id)];
      }
      ParentBondsPushed(layers - 1, l, i, l < layers - 1, bonds0, bonds1, bonds, child1.id, child2.id, newNodeId);
      i := i + 1;
    }
  }

  /** services/meraService.ts:13-22: the boundary nodes `l0-n0` ..
      `l0-n{b-1}`, in index order. */
  method AddBoundaryLayer(boundarySize: nat) returns (nodes: seq<MeraNode>)
    ensures nodes == RenderNodes(LayerPositions(0, boundarySize))
  {
    nodes := [];
    var i := 0;
    while i < boundarySize
      invariant 0 <= i <= boundarySize
      invariant nodes == RenderNodes(LayerPositions(0, i))
    {
      nodes := nodes + [MeraNode(NodeIdOf(0, i), 0, true)];
      BoundaryNodePushed(i);
      i := i + 1;
    }
  }

  /** The builder: layer 0 first, then each upper layer from the filtered
      nodes of the layer below. The x/y layout coordinates and the unused
      node counter are not modelled. */
  method BuildMeraNetwork(boundarySize: nat) returns (network: MeraNetwork)
    requires IsPowerOfTwo(boundarySize)
    ensures network == BuiltNetwork(boundarySize)
  {
    var bonds: seq<MeraBond> := [];
    var layers := Log2(boundarySize) + 1;
    ghost var kk := layers - 1;

    // Layer 0: boundary spins.
    var nodes := AddBoundaryLayer(boundarySize);
    BoundaryDone(kk, boundarySize, nodes);

    // Upper layers.
    var nodesInPreviousLayer := boundarySize;
    var l := 1;
    while l < layers
      invariant 1 <= l <= layers
      invariant nodesInPreviousLayer == Pow2(kk - (l - 1))
      invariant nodes == RenderNodes(PositionsBelow(kk, l))
      invariant bonds == RenderBonds(LinksBelow(kk, l))
    {
      UpperLayerStart(kk, l, nodesInPreviousLayer, nodes);
      var nodesInCurrentLayer := nodesInPreviousLayer / 2;
      var prevLayerNodes := NodesInLayer(nodes, l - 1);
      ghost var nodes0, bonds0 := nodes, bonds;
      nodes, bonds := AddParentLayer(layers, l, prevLayerNodes, nodesInCurrentLayer, nodes, bonds);
      LayerDone(layers, kk, l, nodesInCurrentLayer, nodes0, bonds0, nodes, bonds);
      nodesInPreviousLayer := nodesInCurrentLayer;
      l := l + 1;
    }

    network := MeraNetwork(nodes, bonds, boundarySize, layers);
  }
}
