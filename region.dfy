/** The boundary region as the interface selects it: a pair of slider
    positions `[start, end]`, each in 0 .. b-1, kept with start <= end
    (components/Controls.tsx:33-45, 57-78), expanded to the list of indices
    `calculateMinCut` takes (App.tsx:24). */
module Region {
  import opened PowersOfTwo
  import opened MeraTypes
  import opened MeraBuilder
  import opened MinCut
  import opened BuiltCut

  /** `Array.from({ length: end - start + 1 }, (_, i) => start + i)`; a
      negative length gives an empty array. */
  function RegionIndices(start: int, end: int): (r: seq<int>)
    ensures |r| == if end < start then 0 else end - start + 1
    ensures forall i :: 0 <= i < |r| ==> r[i] == start + i
    ensures forall x :: x in r <==> start <= x <= end
    decreases end - start
  {
    if end < start then [] else [start] + RegionIndices(start + 1, end)
  }

  /** A region the sliders can show on a boundary of b nodes. */
  predicate SliderRegion(b: nat, start: int, end: int)
  {
    0 <= start <= end < b
  }

  /** `handleStartChange`: the slider offers a new start in 0 .. b-1, which
      is taken exactly when it does not pass the end; otherwise the region
      stays as it was. So the region stays a slider region. */
  function MoveStart(b: nat, start: int, end: int, newStart: int): (r: (int, int))
    requires SliderRegion(b, start, end) && 0 <= newStart < b
    ensures SliderRegion(b, r.0, r.1) && r.1 == end
    ensures r.0 == newStart <==> newStart <= end
    ensures newStart > end ==> r == (start, end)
  {
    if newStart <= end then (newStart, end) else (start, end)
  }

  /** `handleEndChange`: the slider offers a new end in 0 .. b-1, which is
      taken exactly when it does not pass the start; otherwise the region
      stays as it was. So the region stays a slider region. */
  function MoveEnd(b: nat, start: int, end: int, newEnd: int): (r: (int, int))
    requires SliderRegion(b, start, end) && 0 <= newEnd < b
    ensures SliderRegion(b, r.0, r.1) && r.0 == start
    ensures r.1 == newEnd <==> newEnd >= start
    ensures newEnd < start ==> r == (start, end)
  {
    if newEnd >= start then (start, newEnd) else (start, end)
  }

  /** Moving either slider to a position in 0 .. b-1 keeps the region a
      slider region. */
  lemma MovesKeepSliderRegion(b: nat, start: int, end: int, v: int)
    requires SliderRegion(b, start, end) && 0 <= v < b
    ensures var r := MoveStart(b, start, end, v); SliderRegion(b, r.0, r.1)
    ensures var r := MoveEnd(b, start, end, v); SliderRegion(b, r.0, r.1)
  {
  }

  /** A slider region is accepted by the calculation on the built network,
      is never empty, and takes the early exit exactly when it spans the
      whole boundary. */
  lemma SliderRegionValid(b: nat, start: int, end: int)
    requires IsPowerOfTwo(b) && SliderRegion(b, start, end)
    ensures ValidRegion(BuiltNetwork(b), RegionIndices(start, end))
    ensures |RegionIndices(start, end)| > 0
    ensures |RegionIndices(start, end)| == b <==> start == 0 && end == b - 1
  {
    var r := RegionIndices(start, end);
    forall k | 0 <= k < |r| ensures 0 <= r[k] < b {
      assert r[k] in r;
    }
    BuiltValidRegion(b, r);
  }
}
