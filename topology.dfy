/** The shape of the binary MERA graph in index space: a node is a pair
    (layer, index), a bond is an ordered pair of such positions. The builder
    (builder.dfy) renders these to the string records of types.dfy.

    With a boundary of 2^K nodes there are K + 1 layers; layer l holds
    2^(K-l) nodes. Node i of layer l >= 1 is the parent of nodes 2i and 2i+1
    of layer l-1 (services/meraService.ts:31-34). */
module MeraTopology {
  import opened PowersOfTwo
  import opened MeraTypes

  datatype Pos = Pos(layer: nat, index: nat)

  /** A bond from `source` to `target`, in the order the builder writes them. */
  datatype Link = Link(source: Pos, target: Pos)

  /** A node that exists in the network with 2^K boundary nodes. */
  predicate ValidPos(kk: nat, p: Pos)
  {
    p.layer <= kk && p.index < Pow2(kk - p.layer)
  }

  function Parent(p: Pos): Pos
  {
    Pos(p.layer + 1, p.index / 2)
  }

  /** The other child of the same parent. */
  function Sibling(p: Pos): Pos
  {
    Pos(p.layer, if p.index % 2 == 0 then p.index + 1 else p.index - 1)
  }

  // ---------------------------------------------------------------------
  // Nodes, in the order the builder pushes them.

  /** The nodes 0 .. n-1 of layer l. */
  function LayerPositions(l: nat, n: nat): seq<Pos>
  {
    seq(n, i requires 0 <= i < n => Pos(l, i))
  }

  /** The positions of layers 0 .. c-1. */
  function PositionsBelow(kk: nat, c: nat): seq<Pos>
    requires c <= kk + 1
  {
    if c == 0 then [] else PositionsBelow(kk, c - 1) + LayerPositions(c - 1, Pow2(kk - (c - 1)))
  }

  /** All node positions of the network with 2^K boundary nodes. */
  function Positions(kk: nat): seq<Pos>
  {
    PositionsBelow(kk, kk + 1)
  }

  /** Layer-major, index-minor order. */
  predicate Before(p: Pos, q: Pos)
  {
    p.layer < q.layer || (p.layer == q.layer && p.index < q.index)
  }

  lemma {:induction false} PositionsBelowMember(kk: nat, c: nat, p: Pos)
    requires c <= kk + 1
    ensures p in PositionsBelow(kk, c) <==> p.layer < c && ValidPos(kk, p)
  {
    if c > 0 {
      PositionsBelowMember(kk, c - 1, p);
      var top := LayerPositions(c - 1, Pow2(kk - (c - 1)));
      if p.layer == c - 1 && p.index < Pow2(kk - (c - 1)) {
        assert top[p.index] == p;
      }
    }
  }

  /** The network holds every valid position and nothing else. */
  lemma PositionsMember(kk: nat, p: Pos)
    ensures p in Positions(kk) <==> ValidPos(kk, p)
  {
    PositionsBelowMember(kk, kk + 1, p);
  }

  lemma {:induction false} PositionsBelowLength(kk: nat, c: nat)
    requires c <= kk + 1
    ensures |PositionsBelow(kk, c)| + Pow2(kk + 1 - c) == Pow2(kk + 1)
  {
    if c > 0 {
      PositionsBelowLength(kk, c - 1);
      assert Pow2(kk + 1 - (c - 1)) == 2 * Pow2(kk - (c - 1));
    }
  }

  /** 2^(K+1) - 1 nodes in all, i.e. 2b - 1 for boundary size b = 2^K. */
  lemma PositionsLength(kk: nat)
    ensures |Positions(kk)| == 2 * Pow2(kk) - 1
  {
    PositionsBelowLength(kk, kk + 1);
  }

  /** Nodes come in layer order, and in index order within a layer. */
  lemma {:induction false} PositionsBelowOrdered(kk: nat, c: nat)
    requires c <= kk + 1
    ensures forall j, k :: 0 <= j < k < |PositionsBelow(kk, c)| ==>
              Before(PositionsBelow(kk, c)[j], PositionsBelow(kk, c)[k])
  {
    if c > 0 {
      PositionsBelowOrdered(kk, c - 1);
      var low, top := PositionsBelow(kk, c - 1), LayerPositions(c - 1, Pow2(kk - (c - 1)));
      var ps := low + top;
      forall j, k | 0 <= j < k < |ps| ensures Before(ps[j], ps[k]) {
        if k < |low| {
          assert ps[j] == low[j] && ps[k] == low[k];
        } else if j >= |low| {
          assert ps[j] == top[j - |low|] && ps[k] == top[k - |low|];
        } else {
          assert ps[j] == low[j] && low[j] in low;
          PositionsBelowMember(kk, c - 1, low[j]);
          assert ps[k] == top[k - |low|];
        }
      }
    }
  }

  /** The positions of one layer, in order. */
  function PosInLayer(ps: seq<Pos>, m: nat): seq<Pos>
  {
    if ps == [] then [] else (if ps[0].layer == m then [ps[0]] else []) + PosInLayer(ps[1..], m)
  }

  lemma {:induction false} PosInLayerConcat(a: seq<Pos>, b: seq<Pos>, m: nat)
    ensures PosInLayer(a + b, m) == PosInLayer(a, m) + PosInLayer(b, m)
  {
    if a == [] {
      assert a + b == b;
    } else {
      var head := if a[0].layer == m then [a[0]] else [];
      assert (a + b)[0] == a[0];
      assert (a + b)[1..] == a[1..] + b;
      assert PosInLayer(a + b, m) == head + PosInLayer(a[1..] + b, m);
      PosInLayerConcat(a[1..], b, m);
      assert PosInLayer(a, m) == head + PosInLayer(a[1..], m);
    }
  }

  lemma {:induction false} PosInLayerOfLayer(l: nat, n: nat, m: nat)
    ensures PosInLayer(LayerPositions(l, n), m) == if l == m then LayerPositions(l, n) else []
  {
    if n > 0 {
      var ps := LayerPositions(l, n);
      assert ps == LayerPositions(l, n - 1) + [Pos(l, n - 1)];
      PosInLayerConcat(LayerPositions(l, n - 1), [Pos(l, n - 1)], m);
      PosInLayerOfLayer(l, n - 1, m);
      assert [Pos(l, n - 1)][1..] == [];
    }
  }

  /** Filtering the positions of layers 0 .. c-1 by layer m gives layer m in
      index order (nothing when m >= c). */
  lemma {:induction false} PositionsBelowInLayer(kk: nat, c: nat, m: nat)
    requires c <= kk + 1
    ensures PosInLayer(PositionsBelow(kk, c), m) == if m < c then LayerPositions(m, Pow2(kk - m)) else []
  {
    if c > 0 {
      var low, top := PositionsBelow(kk, c - 1), LayerPositions(c - 1, Pow2(kk - (c - 1)));
      assert PositionsBelow(kk, c) == low + top;
      PosInLayerConcat(low, top, m);
      var r := PosInLayer(low, m) + PosInLayer(top, m);
      assert PosInLayer(PositionsBelow(kk, c), m) == r;
      PositionsBelowInLayer(kk, c - 1, m);
      PosInLayerOfLayer(c - 1, Pow2(kk - (c - 1)), m);
      if m < c - 1 {
        assert PosInLayer(top, m) == [];
        assert r == LayerPositions(m, Pow2(kk - m));
      } else if m == c - 1 {
        assert PosInLayer(low, m) == [];
        assert r == top;
      } else {
        assert PosInLayer(low, m) == [] && PosInLayer(top, m) == [];
        assert r == [];
      }
    }
  }

  lemma PositionsDistinct(kk: nat)
    ensures Distinct(Positions(kk))
  {
    PositionsBelowOrdered(kk, kk + 1);
  }

  // ---------------------------------------------------------------------
  // Bonds, in the order the builder pushes them.

  /** The bonds pushed for parent i of layer l: two vertical bonds from its
      children, and a horizontal bond between the children unless l is the
      top layer K (services/meraService.ts:45-55). */
  function ParentLinks(kk: nat, l: nat, i: nat): seq<Link>
    requires l >= 1
  {
    [Link(Pos(l - 1, 2 * i), Pos(l, i)), Link(Pos(l - 1, 2 * i + 1), Pos(l, i))]
    + (if l < kk then [Link(Pos(l - 1, 2 * i), Pos(l - 1, 2 * i + 1))] else [])
  }

  /** The bonds of parents 0 .. n-1 of layer l. */
  function LayerLinks(kk: nat, l: nat, n: nat): seq<Link>
    requires l >= 1
  {
    if n == 0 then [] else LayerLinks(kk, l, n - 1) + ParentLinks(kk, l, n - 1)
  }

  /** The bonds of parent layers 1 .. c-1. */
  function LinksBelow(kk: nat, c: nat): seq<Link>
    requires c <= kk + 1
  {
    if c <= 1 then [] else LinksBelow(kk, c - 1) + LayerLinks(kk, c - 1, Pow2(kk - (c - 1)))
  }

  /** All bonds of the network with 2^K boundary nodes. */
  function Links(kk: nat): seq<Link>
  {
    LinksBelow(kk, kk + 1)
  }

  /** A vertical bond: from a non-top node to its parent. */
  predicate IsVertical(kk: nat, k: Link)
  {
    ValidPos(kk, k.source) && k.source.layer < kk && k.target == Parent(k.source)
  }

  /** A horizontal bond: from an even child to its odd sibling, on every
      layer whose parent is not the top node. */
  predicate IsHorizontal(kk: nat, k: Link)
  {
    ValidPos(kk, k.source) && k.source.layer + 2 <= kk && k.source.index % 2 == 0
    && k.target == Pos(k.source.layer, k.source.index + 1)
  }

  lemma {:induction false} LayerLinksMember(kk: nat, l: nat, n: nat, k: Link)
    requires l >= 1
    ensures k in LayerLinks(kk, l, n) <==>
              k.source.layer + 1 == l && k.source.index / 2 < n
              && (k.target == Parent(k.source)
                  || (l < kk && k.source.index % 2 == 0 && k.target == Pos(l - 1, k.source.index + 1)))
  {
    if n > 0 {
      LayerLinksMember(kk, l, n - 1, k);
    }
  }

  lemma {:induction false} LinksBelowMember(kk: nat, c: nat, k: Link)
    requires c <= kk + 1
    ensures k in LinksBelow(kk, c) <==> (IsVertical(kk, k) || IsHorizontal(kk, k)) && k.source.layer + 1 < c
  {
    if c > 1 {
      LinksBelowMember(kk, c - 1, k);
      var l := c - 1;
      LayerLinksMember(kk, l, Pow2(kk - l), k);
      assert Pow2(kk - l + 1) == 2 * Pow2(kk - l);
    }
  }

  /** The bonds are exactly the vertical and the horizontal ones. */
  lemma LinksMember(kk: nat, k: Link)
    ensures k in Links(kk) <==> IsVertical(kk, k) || IsHorizontal(kk, k)
  {
    LinksBelowMember(kk, kk + 1, k);
  }

  /** Every bond joins two nodes of the network. */
  lemma LinkEndpointsValid(kk: nat, k: Link)
    requires IsVertical(kk, k) || IsHorizontal(kk, k)
    ensures ValidPos(kk, k.source) && ValidPos(kk, k.target)
  {
    var p := k.source;
    assert Pow2(kk - p.layer) == 2 * Pow2(kk - p.layer - 1);
  }

  lemma {:induction false} LayerLinksDistinct(kk: nat, l: nat, n: nat)
    requires l >= 1
    ensures Distinct(LayerLinks(kk, l, n))
  {
    if n > 0 {
      LayerLinksDistinct(kk, l, n - 1);
      var prev, last := LayerLinks(kk, l, n - 1), ParentLinks(kk, l, n - 1);
      forall k | k in prev ensures k !in last {
        LayerLinksMember(kk, l, n - 1, k);
      }
      DistinctConcat(prev, last);
    }
  }

  lemma {:induction false} LinksBelowDistinct(kk: nat, c: nat)
    requires c <= kk + 1
    ensures Distinct(LinksBelow(kk, c))
  {
    if c > 1 {
      LinksBelowDistinct(kk, c - 1);
      var l := c - 1;
      LayerLinksDistinct(kk, l, Pow2(kk - l));
      var low, top := LinksBelow(kk, l), LayerLinks(kk, l, Pow2(kk - l));
      forall k | k in low ensures k !in top {
        LinksBelowMember(kk, l, k);
        LayerLinksMember(kk, l, Pow2(kk - l), k);
      }
      DistinctConcat(low, top);
    }
  }

  /** No bond is pushed twice. */
  lemma LinksDistinct(kk: nat)
    ensures Distinct(Links(kk))
  {
    LinksBelowDistinct(kk, kk + 1);
  }

  // ---------------------------------------------------------------------
  // Counting vertical (between layers) and horizontal (within a layer) bonds.

  function VerticalCount(ks: seq<Link>): nat
  {
    if ks == [] then 0
    else VerticalCount(ks[..|ks| - 1]) + (if ks[|ks| - 1].source.layer != ks[|ks| - 1].target.layer then 1 else 0)
  }

  function HorizontalCount(ks: seq<Link>): nat
  {
    if ks == [] then 0
    else HorizontalCount(ks[..|ks| - 1]) + (if ks[|ks| - 1].source.layer == ks[|ks| - 1].target.layer then 1 else 0)
  }

  lemma {:induction false} CountsConcat(a: seq<Link>, b: seq<Link>)
    ensures VerticalCount(a + b) == VerticalCount(a) + VerticalCount(b)
    ensures HorizontalCount(a + b) == HorizontalCount(a) + HorizontalCount(b)
  {
    if b == [] {
      assert a + b == a;
    } else {
      assert (a + b)[..|a + b| - 1] == a + b[..|b| - 1];
      CountsConcat(a, b[..|b| - 1]);
    }
  }

  /** Every bond is either vertical or horizontal. */
  lemma {:induction false} CountsAddUp(ks: seq<Link>)
    ensures VerticalCount(ks) + HorizontalCount(ks) == |ks|
  {
    if ks != [] {
      CountsAddUp(ks[..|ks| - 1]);
    }
  }

  lemma CountsSingle(k: Link)
    ensures VerticalCount([k]) == if k.source.layer != k.target.layer then 1 else 0
    ensures HorizontalCount([k]) == if k.source.layer == k.target.layer then 1 else 0
  {
    assert [k][..0] == [];
  }

  lemma ParentLinksCounts(kk: nat, l: nat, i: nat)
    requires l >= 1
    ensures VerticalCount(ParentLinks(kk, l, i)) == 2
    ensures HorizontalCount(ParentLinks(kk, l, i)) == if l < kk then 1 else 0
  {
    var v1, v2 := Link(Pos(l - 1, 2 * i), Pos(l, i)), Link(Pos(l - 1, 2 * i + 1), Pos(l, i));
    var h: seq<Link> := if l < kk then [Link(Pos(l - 1, 2 * i), Pos(l - 1, 2 * i + 1))] else [];
    CountsSingle(v1);
    CountsSingle(v2);
    CountsConcat([v1], [v2]);
    CountsConcat([v1, v2], h);
    if l < kk {
      CountsSingle(h[0]);
    }
  }

  lemma {:induction false} LayerLinksCounts(kk: nat, l: nat, n: nat)
    requires l >= 1
    ensures VerticalCount(LayerLinks(kk, l, n)) == 2 * n
    ensures HorizontalCount(LayerLinks(kk, l, n)) == if l < kk then n else 0
  {
    if n > 0 {
      LayerLinksCounts(kk, l, n - 1);
      ParentLinksCounts(kk, l, n - 1);
      CountsConcat(LayerLinks(kk, l, n - 1), ParentLinks(kk, l, n - 1));
    }
  }

  lemma {:induction false} LinksBelowCounts(kk: nat, c: nat)
    requires 1 <= c <= kk + 1
    ensures VerticalCount(LinksBelow(kk, c)) + 2 * Pow2(kk + 1 - c) == 2 * Pow2(kk)
    ensures c <= kk ==> HorizontalCount(LinksBelow(kk, c)) + Pow2(kk + 1 - c) == Pow2(kk)
    ensures c == kk + 1 && kk >= 1 ==> HorizontalCount(LinksBelow(kk, c)) + 2 == Pow2(kk)
    ensures kk == 0 ==> HorizontalCount(LinksBelow(kk, c)) == 0
  {
    if c > 1 {
      var l := c - 1;
      LinksBelowCounts(kk, l);
      LayerLinksCounts(kk, l, Pow2(kk - l));
      CountsConcat(LinksBelow(kk, l), LayerLinks(kk, l, Pow2(kk - l)));
      assert Pow2(kk + 1 - l) == 2 * Pow2(kk - l);
    }
  }

  /** With b = 2^K boundary nodes: 2(b-1) vertical bonds; b-2 horizontal
      bonds when b >= 2 (none when b = 1); 3b-4 bonds in all when b >= 2. */
  lemma LinksCounts(kk: nat)
    ensures VerticalCount(Links(kk)) == 2 * (Pow2(kk) - 1)
    ensures HorizontalCount(Links(kk)) == if kk >= 1 then Pow2(kk) - 2 else 0
    ensures kk >= 1 ==> |Links(kk)| == 3 * Pow2(kk) - 4
    ensures kk == 0 ==> Links(kk) == []
  {
    LinksBelowCounts(kk, kk + 1);
    CountsAddUp(Links(kk));
  }
}
