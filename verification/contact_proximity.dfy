/**
 * Tiered contact search of the elastic-foundation contact force
 * (`computeMeshProximity`). For every casting triangle a ray is cast towards
 * the target mesh. The search first re-tests the target triangle hit on the
 * previous evaluation, then that triangle's neighbours, and only then the
 * whole target mesh. The per-triangle "previous contacting triangle" index
 * is the only state carried from one evaluation to the next.
 *
 * The geometry (frame transform, ray/triangle and ray/OBB-tree tests,
 * neighbour sets) is abstracted into a `RayOracle`.
 */
module ContactProximity {

  import opened Wrappers

  /** The accepted distance window `[min_proximity, max_proximity]`. */
  datatype ProximityWindow = ProximityWindow(minProximity: real, maxProximity: real)

  predicate InWindow(w: ProximityWindow, d: real) {
    w.minProximity <= d <= w.maxProximity
  }

  /**
   * Geometry the search consults, for one evaluation.
   *  - `triHit(i, j)`: distance along the ray of casting triangle `i` to
   *    target triangle `j`, if the ray hits it at all (no window check);
   *  - `neighbors(j)`: the neighbours of target triangle `j`, in the order
   *    they are visited;
   *  - `meshHit(i)`: the full-mesh search for casting triangle `i`, which
   *    receives the window and yields the hit triangle and distance.
   */
  datatype RayOracle = RayOracle(
    triHit: (nat, int) -> Option<real>,
    neighbors: int -> seq<int>,
    meshHit: nat -> Option<(int, real)>)

  /** What the full-mesh search and neighbour sets promise about a target
      mesh of `nTarget` triangles. */
  ghost predicate WellFormed(o: RayOracle, w: ProximityWindow, nTarget: nat) {
    && (forall i: nat :: o.meshHit(i).Some? ==>
          InWindow(w, o.meshHit(i).value.1) && 0 <= o.meshHit(i).value.0 < nTarget)
    && (forall j, k :: 0 <= k < |o.neighbors(j)| ==> 0 <= o.neighbors(j)[k] < nTarget)
  }

  /** How a casting triangle's search ended. `SameOutOfWindow`: the previous
      triangle was hit but outside the window, which ends the search. */
  datatype Tier = SameHit | SameOutOfWindow | NeighborHit | DifferentHit | NoHit

  datatype TriangleSearch = TriangleSearch(proximity: real, previous: int, tier: Tier)

  /** A hit counted in `num_active_triangles`. */
  predicate Active(t: TriangleSearch) {
    t.tier == SameHit || t.tier == NeighborHit || t.tier == DifferentHit
  }

  /** A hit counted in `num_contacting_triangles`. */
  predicate Contacting(t: TriangleSearch) {
    Active(t) && t.proximity > 0.0
  }

  /** The ray of casting triangle `i` misses target triangle `t` or hits it
      outside the window. */
  predicate MissesInWindow(w: ProximityWindow, o: RayOracle, i: nat, t: int) {
    o.triHit(i, t).None? || !InWindow(w, o.triHit(i, t).value)
  }

  /** The first neighbour, in visiting order, whose hit lies in the window. */
  function FirstNeighborHit(w: ProximityWindow, o: RayOracle, i: nat, ns: seq<int>): (r: Option<(int, real)>)
    ensures r.Some? ==> r.value.0 in ns && o.triHit(i, r.value.0) == Some(r.value.1) && InWindow(w, r.value.1)
    // no neighbour visited earlier is hit in the window
    ensures r.Some? ==>
      exists k :: 0 <= k < |ns| && ns[k] == r.value.0 && (forall j :: 0 <= j < k ==> MissesInWindow(w, o, i, ns[j]))
    ensures r.None? ==> forall k :: 0 <= k < |ns| ==> MissesInWindow(w, o, i, ns[k])
  {
    if |ns| == 0 then None
    else
      var h := o.triHit(i, ns[0]);
      if h.Some? && InWindow(w, h.value) then Some((ns[0], h.value))
      else
        var r := FirstNeighborHit(w, o, i, ns[1..]);
        assert forall j :: 1 <= j < |ns| ==> ns[1..][j - 1] == ns[j];
        if r.Some? then
          var k :| 0 <= k < |ns[1..]| && ns[1..][k] == r.value.0 && forall j :: 0 <= j < k ==> MissesInWindow(w, o, i, ns[1..][j]);
          assert ns[k + 1] == r.value.0 && forall j :: 0 <= j < k + 1 ==> MissesInWindow(w, o, i, ns[j]);
          r
        else r
  }

  /** The search for casting triangle `i` whose previous contacting target
      triangle is `prev` (-1 when there was none). */
  function SearchTriangle(w: ProximityWindow, o: RayOracle, i: nat, prev: int): (r: TriangleSearch)
    // a hit on the previous triangle, in the window or not, ends the search
    ensures prev >= 0 && o.triHit(i, prev).Some? ==>
      r.previous == prev &&
      (if InWindow(w, o.triHit(i, prev).value)
       then r.tier == SameHit && r.proximity == o.triHit(i, prev).value
       else r.tier == SameOutOfWindow && r.proximity == 0.0)
    // a neighbour hit re-targets the triangle to that neighbour
    ensures r.tier == NeighborHit ==>
      prev >= 0 && o.triHit(i, prev).None? &&
      FirstNeighborHit(w, o, i, o.neighbors(prev)) == Some((r.previous, r.proximity))
    ensures prev >= 0 && o.triHit(i, prev).None? && FirstNeighborHit(w, o, i, o.neighbors(prev)).Some? ==>
      var nb := FirstNeighborHit(w, o, i, o.neighbors(prev)).value;
      r == TriangleSearch(nb.1, nb.0, NeighborHit)
    // otherwise the full-mesh search decides
    ensures (prev < 0 || (o.triHit(i, prev).None? && FirstNeighborHit(w, o, i, o.neighbors(prev)).None?)) ==>
      match o.meshHit(i)
      case Some(hit) => r == TriangleSearch(hit.1, hit.0, DifferentHit)
      case None => r == TriangleSearch(0.0, -1, NoHit)
    ensures prev < 0 ==> r.tier == DifferentHit || r.tier == NoHit
  {
    if prev >= 0 && o.triHit(i, prev).Some? then
      var d := o.triHit(i, prev).value;
      if InWindow(w, d) then TriangleSearch(d, prev, SameHit)
      else TriangleSearch(0.0, prev, SameOutOfWindow)
    else
      var nb := if prev >= 0 then FirstNeighborHit(w, o, i, o.neighbors(prev)) else None;
      if nb.Some? then TriangleSearch(nb.value.1, nb.value.0, NeighborHit)
      else
        match o.meshHit(i)
        case Some(hit) => TriangleSearch(hit.1, hit.0, DifferentHit)
        case None => TriangleSearch(0.0, -1, NoHit)
  }

  /** Per-triangle outcomes of one evaluation. */
  function Outcomes(w: ProximityWindow, o: RayOracle, prev: seq<int>): (outs: seq<TriangleSearch>)
    ensures |outs| == |prev|
    ensures forall k :: 0 <= k < |prev| ==> outs[k] == SearchTriangle(w, o, k, prev[k])
  {
    seq(|prev|, k requires 0 <= k < |prev| => SearchTriangle(w, o, k, prev[k]))
  }

  function CountTier(outs: seq<TriangleSearch>, t: Tier): nat {
    if |outs| == 0 then 0
    else CountTier(outs[..|outs| - 1], t) + (if outs[|outs| - 1].tier == t then 1 else 0)
  }

  function CountContacting(outs: seq<TriangleSearch>): nat {
    if |outs| == 0 then 0
    else CountContacting(outs[..|outs| - 1]) + (if Contacting(outs[|outs| - 1]) then 1 else 0)
  }

  /** The previous-contacting-triangle array after one evaluation. */
  function NextPrevious(w: ProximityWindow, o: RayOracle, prev: seq<int>): (next: seq<int>)
    ensures |next| == |prev|
  {
    seq(|prev|, k requires 0 <= k < |prev| => SearchTriangle(w, o, k, prev[k]).previous)
  }

  /** Everything one evaluation stores: proximities, the carried-forward
      index array and the diagnostic counters. */
  datatype ProximityPass = ProximityPass(
    proximity: seq<real>,
    previous: seq<int>,
    nActive: nat,
    nContacting: nat,
    nSame: nat,
    nNeighbor: nat,
    nDifferent: nat)

  /** The search for one casting triangle, tier by tier, as the loop body
      of `computeMeshProximity` runs it. */
  method SearchOne(w: ProximityWindow, o: RayOracle, i: nat, prev: int) returns (t: TriangleSearch)
    ensures t == SearchTriangle(w, o, i, prev)
  {
    if prev >= 0 {
      // same triangle
      var hit := o.triHit(i, prev);
      if hit.Some? {
        if InWindow(w, hit.value) {
          return TriangleSearch(hit.value, prev, SameHit);
        }
        return TriangleSearch(0.0, prev, SameOutOfWindow);
      }
      // neighbouring triangles
      var ns := o.neighbors(prev);
      var j := 0;
      while j < |ns|
        invariant 0 <= j <= |ns|
        invariant FirstNeighborHit(w, o, i, ns) == FirstNeighborHit(w, o, i, ns[j..])
      {
        var nhit := o.triHit(i, ns[j]);
        if nhit.Some? && InWindow(w, nhit.value) {
          return TriangleSearch(nhit.value, ns[j], NeighborHit);
        }
        assert ns[j..][1..] == ns[j + 1..];
        j := j + 1;
      }
    }
    // no luck with the same triangle or its neighbours: full-mesh search
    match o.meshHit(i) {
      case Some(hit) => t := TriangleSearch(hit.1, hit.0, DifferentHit);
      case None => t := TriangleSearch(0.0, -1, NoHit);
    }
  }

  /** One evaluation over every casting triangle; `targetTri` is the
      previous-contacting-triangle array, one entry per casting triangle. */
  method ComputeMeshProximity(w: ProximityWindow, o: RayOracle, targetTri: seq<int>) returns (r: ProximityPass)
    ensures |r.proximity| == |targetTri| && r.previous == NextPrevious(w, o, targetTri)
    ensures forall k :: 0 <= k < |targetTri| ==>
      r.proximity[k] == SearchTriangle(w, o, k, targetTri[k]).proximity
    ensures r.nSame == CountTier(Outcomes(w, o, targetTri), SameHit)
    ensures r.nNeighbor == CountTier(Outcomes(w, o, targetTri), NeighborHit)
    ensures r.nDifferent == CountTier(Outcomes(w, o, targetTri), DifferentHit)
    ensures r.nContacting == CountContacting(Outcomes(w, o, targetTri))
    ensures r.nActive == r.nSame + r.nNeighbor + r.nDifferent
    ensures r.nContacting <= r.nActive
  {
    var n := |targetTri|;
    var proximity := seq(n, _ => 0.0);
    var tri := targetTri;
    var nActive, nContacting, nSame, nNeighbor, nDiff := 0, 0, 0, 0, 0;
    ghost var outs := Outcomes(w, o, targetTri);
    for i := 0 to n
      invariant |proximity| == n && |tri| == n
      invariant forall k :: 0 <= k < i ==> proximity[k] == outs[k].proximity && tri[k] == outs[k].previous
      invariant forall k :: i <= k < n ==> tri[k] == targetTri[k]
      invariant nSame == CountTier(outs[..i], SameHit)
      invariant nNeighbor == CountTier(outs[..i], NeighborHit)
      invariant nDiff == CountTier(outs[..i], DifferentHit)
      invariant nContacting == CountContacting(outs[..i])
      invariant nActive == nSame + nNeighbor + nDiff
      invariant nContacting <= nActive
    {
      var t := SearchOne(w, o, i, tri[i]);
      assert t == outs[i];
      assert outs[..i + 1][..i] == outs[..i];
      proximity := proximity[i := t.proximity];
      tri := tri[i := t.previous];
      match t.tier {
        case SameHit => nSame := nSame + 1;
        case NeighborHit => nNeighbor := nNeighbor + 1;
        case DifferentHit => nDiff := nDiff + 1;
        case SameOutOfWindow =>
        case NoHit =>
      }
      if Active(t) {
        nActive := nActive + 1;
        if t.proximity > 0.0 { nContacting := nContacting + 1; }
      }
    }
    assert outs[..n] == outs;
    r := ProximityPass(proximity, tri, nActive, nContacting, nSame, nNeighbor, nDiff);
  }

  /** Every proximity is either the reset value 0 or an accepted distance
      inside the window. */
  lemma ProximityZeroOrInWindow(w: ProximityWindow, o: RayOracle, nTarget: nat, i: nat, prev: int)
    requires WellFormed(o, w, nTarget)
    ensures var r := SearchTriangle(w, o, i, prev);
      r.proximity == 0.0 || InWindow(w, r.proximity)
    ensures var r := SearchTriangle(w, o, i, prev);
      Active(r) ==> InWindow(w, r.proximity)
  {
    var r := SearchTriangle(w, o, i, prev);
    if r.tier == DifferentHit {
      assert o.meshHit(i).Some?;
    }
  }

  /** When the ray hits the previously recorded triangle at all, neither the
      neighbours nor the full mesh are consulted: any oracle that agrees on
      that one test gives the same outcome. */
  lemma SameHitShortCircuits(w: ProximityWindow, o1: RayOracle, o2: RayOracle, i: nat, prev: int)
    requires prev >= 0 && o1.triHit(i, prev).Some?
    requires o2.triHit(i, prev) == o1.triHit(i, prev)
    ensures SearchTriangle(w, o1, i, prev) == SearchTriangle(w, o2, i, prev)
    ensures SearchTriangle(w, o1, i, prev).tier in {SameHit, SameOutOfWindow}
    ensures SearchTriangle(w, o1, i, prev).tier == SameOutOfWindow ==>
      SearchTriangle(w, o1, i, prev).proximity == 0.0 && SearchTriangle(w, o1, i, prev).previous == prev
  {
  }

  /** The carried-forward index is -1 or a target triangle, and every
      counted hit names a target triangle; proximity > 0 therefore always
      comes with a valid target triangle for the pressure stage. */
  lemma SearchKeepsIndexValid(w: ProximityWindow, o: RayOracle, nTarget: nat, i: nat, prev: int)
    requires WellFormed(o, w, nTarget)
    requires -1 <= prev < nTarget
    ensures var r := SearchTriangle(w, o, i, prev);
      -1 <= r.previous < nTarget && (Active(r) ==> 0 <= r.previous)
  {
    var r := SearchTriangle(w, o, i, prev);
    if r.tier == NeighborHit {
      var ns := o.neighbors(prev);
      var k :| 0 <= k < |ns| && ns[k] == r.previous;
    } else if r.tier == DifferentHit {
      assert o.meshHit(i).Some?;
    }
  }

  predicate ValidIndices(prev: seq<int>, nTarget: nat) {
    forall k :: 0 <= k < |prev| ==> -1 <= prev[k] < nTarget
  }

  /** The index array carried through a run of evaluations, one oracle per
      frame, in order. */
  function RunFrames(w: ProximityWindow, frames: seq<RayOracle>, prev: seq<int>): (last: seq<int>)
    ensures |last| == |prev|
  {
    if |frames| == 0 then prev
    else RunFrames(w, frames[1..], NextPrevious(w, frames[0], prev))
  }

  /** Starting from any valid array (the default is all -1), the carried
      index array stays valid across any number of frames. */
  lemma {:induction false} RunFramesKeepsIndicesValid(w: ProximityWindow, frames: seq<RayOracle>, prev: seq<int>, nTarget: nat)
    requires forall f :: 0 <= f < |frames| ==> WellFormed(frames[f], w, nTarget)
    requires ValidIndices(prev, nTarget)
    ensures ValidIndices(RunFrames(w, frames, prev), nTarget)
    decreases |frames|
  {
    if |frames| > 0 {
      var next := NextPrevious(w, frames[0], prev);
      forall k | 0 <= k < |next| ensures -1 <= next[k] < nTarget {
        SearchKeepsIndexValid(w, frames[0], nTarget, k, prev[k]);
      }
      assert forall f :: 0 <= f < |frames[1..]| ==> frames[1..][f] == frames[f + 1];
      RunFramesKeepsIndicesValid(w, frames[1..], next, nTarget);
    }
  }
}
