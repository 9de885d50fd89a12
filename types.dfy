/** The record shapes the network builder and the cut calculator exchange
    (types.ts). Layout coordinates are display data and are not modelled. */
module MeraTypes {

  /** One tensor: a stable id, its renormalisation layer (0 = boundary) and
      whether it is a boundary spin. */
  datatype MeraNode = MeraNode(id: string, layer: nat, isBoundary: bool)

  /** An undirected bond between two node ids; its id is derived from the
      ordered pair of endpoint ids. */
  datatype MeraBond = MeraBond(id: string, source: string, target: string)

  /** The immutable snapshot produced by the builder. */
  datatype MeraNetwork = MeraNetwork(nodes: seq<MeraNode>, bonds: seq<MeraBond>, boundarySize: nat, layers: nat)

  /** The cut: its size ("entropy") and the ids of the bonds that cross it. */
  datatype MinCutResult = MinCutResult(entropy: nat, cutBonds: set<string>)

  /** Pairwise distinct elements. */
  ghost predicate Distinct<T>(s: seq<T>)
  {
    forall j, k :: 0 <= j < k < |s| ==> s[j] != s[k]
  }

  /** The ids of a node sequence, as a set. */
  function NodeIdSet(nodes: seq<MeraNode>): (ids: set<string>)
    ensures forall k :: 0 <= k < |nodes| ==> nodes[k].id in ids
    ensures forall id :: id in ids ==> exists k :: 0 <= k < |nodes| && nodes[k].id == id
  {
    set k | 0 <= k < |nodes| :: nodes[k].id
  }

  lemma NodeIdSetSnoc(nodes: seq<MeraNode>, x: MeraNode)
    ensures NodeIdSet(nodes + [x]) == NodeIdSet(nodes) + {x.id}
  {
    var s := nodes + [x];
    forall id | id in NodeIdSet(s) ensures id in NodeIdSet(nodes) || id == x.id {
      var k :| 0 <= k < |s| && s[k].id == id;
      if k < |nodes| {
        assert s[k] == nodes[k];
      }
    }
    forall id | id in NodeIdSet(nodes) ensures id in NodeIdSet(s) {
      var k :| 0 <= k < |nodes| && nodes[k].id == id;
      assert s[k] == nodes[k];
    }
    assert s[|nodes|] == x;
  }

  /** `nodes.filter(n => n.layer === l)`: the nodes of one layer, in order. */
  function NodesInLayer(nodes: seq<MeraNode>, l: nat): (r: seq<MeraNode>)
    ensures |r| <= |nodes|
  {
    if nodes == [] then []
    else (if nodes[0].layer == l then [nodes[0]] else []) + NodesInLayer(nodes[1..], l)
  }

  /** `nodes.filter(n => n.isBoundary)`: the boundary nodes, in order. */
  function BoundaryNodes(nodes: seq<MeraNode>): (r: seq<MeraNode>)
    ensures |r| <= |nodes|
  {
    if nodes == [] then []
    else (if nodes[0].isBoundary then [nodes[0]] else []) + BoundaryNodes(nodes[1..])
  }

  /** The layer filter keeps exactly the nodes of that layer. */
  lemma {:induction false} NodesInLayerMember(nodes: seq<MeraNode>, l: nat)
    ensures forall x :: x in NodesInLayer(nodes, l) <==> x in nodes && x.layer == l
  {
    if nodes != [] {
      NodesInLayerMember(nodes[1..], l);
      assert nodes == [nodes[0]] + nodes[1..];
    }
  }

  /** The boundary filter keeps exactly the boundary nodes. */
  lemma {:induction false} BoundaryNodesMember(nodes: seq<MeraNode>)
    ensures forall x :: x in BoundaryNodes(nodes) <==> x in nodes && x.isBoundary
  {
    if nodes != [] {
      BoundaryNodesMember(nodes[1..]);
      assert nodes == [nodes[0]] + nodes[1..];
    }
  }

  lemma {:induction false} NodesInLayerConcat(a: seq<MeraNode>, b: seq<MeraNode>, l: nat)
    ensures NodesInLayer(a + b, l) == NodesInLayer(a, l) + NodesInLayer(b, l)
  {
    if a == [] {
      assert a + b == b;
    } else {
      var head := if a[0].layer == l then [a[0]] else [];
      assert (a + b)[0] == a[0];
      assert (a + b)[1..] == a[1..] + b;
      assert NodesInLayer(a + b, l) == head + NodesInLayer(a[1..] + b, l);
      NodesInLayerConcat(a[1..], b, l);
      assert NodesInLayer(a, l) == head + NodesInLayer(a[1..], l);
    }
  }

  lemma {:induction false} NodesInLayerAll(s: seq<MeraNode>, l: nat)
    requires forall x :: x in s ==> x.layer == l
    ensures NodesInLayer(s, l) == s
  {
    if s != [] {
      assert forall x :: x in s[1..] ==> x in s;
      NodesInLayerAll(s[1..], l);
    }
  }

  lemma {:induction false} NodesInLayerNone(s: seq<MeraNode>, l: nat)
    requires forall x :: x in s ==> x.layer != l
    ensures NodesInLayer(s, l) == []
  {
    if s != [] {
      assert forall x :: x in s[1..] ==> x in s;
      NodesInLayerNone(s[1..], l);
    }
  }

  /** Where every node is a boundary node exactly on layer 0, the two filters agree. */
  lemma {:induction false} BoundaryIsLayerZero(s: seq<MeraNode>)
    requires forall x :: x in s ==> (x.isBoundary <==> x.layer == 0)
    ensures BoundaryNodes(s) == NodesInLayer(s, 0)
  {
    if s != [] {
      assert forall x :: x in s[1..] ==> x in s;
      BoundaryIsLayerZero(s[1..]);
    }
  }

  lemma DistinctConcat<T>(a: seq<T>, b: seq<T>)
    requires Distinct(a) && Distinct(b)
    requires forall x :: x in a ==> x !in b
    ensures Distinct(a + b)
  {
    forall j, k | 0 <= j < k < |a + b| ensures (a + b)[j] != (a + b)[k] {
      if k < |a| {
      } else if j >= |a| {
        assert (a + b)[j] == b[j - |a|] && (a + b)[k] == b[k - |a|];
      } else {
        assert (a + b)[j] == a[j] && (a + b)[k] == b[k - |a|];
        assert a[j] in a;
      }
    }
  }
}
