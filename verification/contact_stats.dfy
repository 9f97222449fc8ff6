/**
 * Aggregate contact statistics over a subset of a mesh's triangles
 * (`computeContactStats`): contacting count, contact area, mean and maximum
 * proximity and pressure, proximity- and pressure-weighted centres, and the
 * resultant force and moment.
 *
 * `computeContactStats` divides by the contacting count and by the weight sums even
 * when they are zero; here those results are `None`.
 */
module ContactStatistics {

  import opened Vec3
  import opened Wrappers
  import ContactDynamics
  import opened HelperFunctions

  /** Per-triangle geometry of the mesh the statistics are taken over. */
  datatype Mesh = Mesh(area: seq<real>, normal: seq<V3>, center: seq<V3>)

  /** Mesh arrays, proximity and pressure all have one entry per triangle,
      and every index of the subset names a triangle. */
  predicate StatsReady(mesh: Mesh, proximity: seq<real>, pressure: seq<real>, indices: seq<int>) {
    && Sized(mesh, proximity, pressure)
    && forall k :: 0 <= k < |indices| ==> 0 <= indices[k] < |pressure|
  }

  predicate Sized(mesh: Mesh, proximity: seq<real>, pressure: seq<real>) {
    |mesh.area| == |mesh.normal| == |mesh.center| == |proximity| == |pressure|
  }

  /** What the statistics read of one triangle of the subset. */
  datatype Sample = Sample(area: real, normal: V3, center: V3, proximity: real, pressure: real)

  function Gather(mesh: Mesh, proximity: seq<real>, pressure: seq<real>, indices: seq<int>): (s: seq<Sample>)
    requires StatsReady(mesh, proximity, pressure, indices)
    ensures |s| == |indices|
    ensures forall k :: 0 <= k < |indices| ==> s[k] == Sample(mesh.area[indices[k]], mesh.normal[indices[k]],
      mesh.center[indices[k]], proximity[indices[k]], pressure[indices[k]])
  {
    seq(|indices|, k requires 0 <= k < |indices| =>
      Sample(mesh.area[indices[k]], mesh.normal[indices[k]], mesh.center[indices[k]],
        proximity[indices[k]], pressure[indices[k]]))
  }

  function SumBy(s: seq<Sample>, f: Sample -> real): real {
    if |s| == 0 then 0.0 else SumBy(s[..|s| - 1], f) + f(s[|s| - 1])
  }

  function VSumBy(s: seq<Sample>, f: Sample -> V3): V3 {
    if |s| == 0 then Zero else Add(VSumBy(s[..|s| - 1], f), f(s[|s| - 1]))
  }

  function Abs(x: real): real {
    if x < 0.0 then -x else x
  }

  /** Sup norm `normInf`: the largest absolute value, 0 for no samples. */
  function MaxAbsBy(s: seq<Sample>, f: Sample -> real): real {
    if |s| == 0 then 0.0
    else
      var m := MaxAbsBy(s[..|s| - 1], f);
      if Abs(f(s[|s| - 1])) > m then Abs(f(s[|s| - 1])) else m
  }

  predicate IsContacting(x: Sample) {
    x.pressure > 0.0
  }

  function CountContacting(s: seq<Sample>): nat {
    if |s| == 0 then 0 else CountContacting(s[..|s| - 1]) + (if IsContacting(s[|s| - 1]) then 1 else 0)
  }

  function ContactingArea(x: Sample): real {
    if IsContacting(x) then x.area else 0.0
  }

  function AreaOf(x: Sample): real {
    x.area
  }

  function PressureOf(x: Sample): real {
    x.pressure
  }

  function ProximityOf(x: Sample): real {
    x.proximity
  }

  function PressureWeight(x: Sample): real {
    x.pressure * x.area
  }

  function ProximityWeight(x: Sample): real {
    x.proximity * x.area
  }

  function PressureWeightedCenter(x: Sample): V3 {
    V3(PressureWeight(x) * x.center.x, PressureWeight(x) * x.center.y, PressureWeight(x) * x.center.z)
  }

  function ProximityWeightedCenter(x: Sample): V3 {
    V3(ProximityWeight(x) * x.center.x, ProximityWeight(x) * x.center.y, ProximityWeight(x) * x.center.z)
  }

  /** Force along the negated normal, as `computeContactForceVector`. */
  function ForceOf(x: Sample): V3 {
    ContactDynamics.ContactForceVector(x.pressure, x.area, Neg(x.normal))
  }

  /** Moment of that force, as `computeContactMomentVector`. */
  function MomentOf(x: Sample): V3 {
    ContactDynamics.ContactMomentVector(x.pressure, x.area, Neg(x.normal), x.center)
  }

  /** A sum divided by the contacting count; none when nothing contacts. */
  function Mean(total: real, count: nat): (r: Option<real>)
    ensures r.None? <==> count == 0
    ensures r.Some? ==> r.value * (count as real) == total
  {
    if count == 0 then None else Some(total / count as real)
  }

  /** A weighted centre; none when the weights sum to zero. */
  function Center(numerator: V3, weight: real): (r: Option<V3>)
    ensures r.None? <==> weight == 0.0
    ensures r.Some? ==> Scale(r.value, weight) == numerator
  {
    if weight == 0.0 then None
    else Some(V3(numerator.x / weight, numerator.y / weight, numerator.z / weight))
  }

  datatype ContactStats = ContactStats(
    nContacting: nat,
    contactArea: real,
    meanProximity: Option<real>,
    maxProximity: real,
    centerOfProximity: Option<V3>,
    meanPressure: Option<real>,
    maxPressure: real,
    centerOfPressure: Option<V3>,
    contactForce: V3,
    contactMoment: V3)

  function StatsOfSamples(s: seq<Sample>): ContactStats {
    var n := CountContacting(s);
    ContactStats(
      n,
      SumBy(s, ContactingArea),
      Mean(SumBy(s, ProximityOf), n),
      MaxAbsBy(s, ProximityOf),
      Center(VSumBy(s, ProximityWeightedCenter), SumBy(s, ProximityWeight)),
      Mean(SumBy(s, PressureOf), n),
      MaxAbsBy(s, PressureOf),
      Center(VSumBy(s, PressureWeightedCenter), SumBy(s, PressureWeight)),
      VSumBy(s, ForceOf),
      VSumBy(s, MomentOf))
  }

  /** `computeContactStats` over the triangles listed in `indices`. */
  function ComputeContactStats(mesh: Mesh, proximity: seq<real>, pressure: seq<real>, indices: seq<int>): (r: ContactStats)
    requires StatsReady(mesh, proximity, pressure, indices)
    ensures r.nContacting <= |indices|
    // nothing contacts exactly when no listed triangle carries pressure, and then there are no means
    ensures r.nContacting == 0 <==> forall k :: 0 <= k < |indices| ==> pressure[indices[k]] <= 0.0
    ensures r.meanPressure.None? <==> r.nContacting == 0
    ensures r.meanProximity.None? <==> r.nContacting == 0
    ensures forall k :: 0 <= k < |indices| ==>
      Abs(pressure[indices[k]]) <= r.maxPressure && Abs(proximity[indices[k]]) <= r.maxProximity
    ensures (forall t :: 0 <= t < |mesh.area| ==> mesh.area[t] >= 0.0) ==> r.contactArea >= 0.0
  {
    var g := Gather(mesh, proximity, pressure, indices);
    CountContactingBounds(g);
    MaxAbsBounds(g, PressureOf);
    MaxAbsBounds(g, ProximityOf);
    ContactAreaNonNegative(g);
    StatsOfSamples(g)
  }

  /** Sum over the listed triangles of a per-triangle value, in list order. */
  function ListedSum(indices: seq<int>, values: seq<real>): real
    requires forall k :: 0 <= k < |indices| ==> 0 <= indices[k] < |values|
  {
    if |indices| == 0 then 0.0
    else ListedSum(indices[..|indices| - 1], values) + values[indices[|indices| - 1]]
  }

  function ListedVSum(indices: seq<int>, values: seq<V3>): V3
    requires forall k :: 0 <= k < |indices| ==> 0 <= indices[k] < |values|
  {
    if |indices| == 0 then Zero
    else Add(ListedVSum(indices[..|indices| - 1], values), values[indices[|indices| - 1]])
  }

  /** Per triangle: 1 when it carries pressure, otherwise 0. */
  function ContactIndicator(pressure: seq<real>): (r: seq<real>)
    ensures |r| == |pressure|
  {
    seq(|pressure|, i requires 0 <= i < |pressure| => if pressure[i] > 0.0 then 1.0 else 0.0)
  }

  /** Per triangle: its area when it carries pressure, otherwise 0. */
  function ContactAreas(area: seq<real>, pressure: seq<real>): (r: seq<real>)
    requires |area| == |pressure|
    ensures |r| == |pressure|
  {
    seq(|pressure|, i requires 0 <= i < |pressure| => if pressure[i] > 0.0 then area[i] else 0.0)
  }

  /** Per triangle: a value (pressure or proximity) times the area. */
  function Weights(value: seq<real>, area: seq<real>): (r: seq<real>)
    requires |value| == |area|
    ensures |r| == |value|
  {
    seq(|value|, i requires 0 <= i < |value| => value[i] * area[i])
  }

  /** Per triangle: the centre scaled by the weight. */
  function WeightedCenters(center: seq<V3>, weight: seq<real>): (r: seq<V3>)
    requires |center| == |weight|
    ensures |r| == |weight|
  {
    seq(|weight|, i requires 0 <= i < |weight| => Scale(center[i], weight[i]))
  }

  /** A sum over the gathered samples is the sum over the listed triangles of
      the matching per-triangle value. */
  lemma {:induction false} SumByGather(mesh: Mesh, proximity: seq<real>, pressure: seq<real>, indices: seq<int>,
                                       f: Sample -> real, values: seq<real>)
    requires StatsReady(mesh, proximity, pressure, indices) && |values| == |pressure|
    requires forall i :: 0 <= i < |pressure| ==> f(SampleAt(mesh, proximity, pressure, i)) == values[i]
    ensures SumBy(Gather(mesh, proximity, pressure, indices), f) == ListedSum(indices, values)
    decreases |indices|
  {
    if |indices| > 0 {
      var n := |indices|;
      var g := Gather(mesh, proximity, pressure, indices);
      assert g[..n - 1] == Gather(mesh, proximity, pressure, indices[..n - 1]);
      SumByGather(mesh, proximity, pressure, indices[..n - 1], f, values);
      assert g[n - 1] == SampleAt(mesh, proximity, pressure, indices[n - 1]);
    }
  }

  lemma {:induction false} VSumByGather(mesh: Mesh, proximity: seq<real>, pressure: seq<real>, indices: seq<int>,
                                        f: Sample -> V3, values: seq<V3>)
    requires StatsReady(mesh, proximity, pressure, indices) && |values| == |pressure|
    requires forall i :: 0 <= i < |pressure| ==> f(SampleAt(mesh, proximity, pressure, i)) == values[i]
    ensures VSumBy(Gather(mesh, proximity, pressure, indices), f) == ListedVSum(indices, values)
    decreases |indices|
  {
    if |indices| > 0 {
      var n := |indices|;
      var g := Gather(mesh, proximity, pressure, indices);
      assert g[..n - 1] == Gather(mesh, proximity, pressure, indices[..n - 1]);
      VSumByGather(mesh, proximity, pressure, indices[..n - 1], f, values);
      assert g[n - 1] == SampleAt(mesh, proximity, pressure, indices[n - 1]);
    }
  }

  lemma {:induction false} CountGather(mesh: Mesh, proximity: seq<real>, pressure: seq<real>, indices: seq<int>)
    requires StatsReady(mesh, proximity, pressure, indices)
    ensures CountContacting(Gather(mesh, proximity, pressure, indices)) as real == ListedSum(indices, ContactIndicator(pressure))
    decreases |indices|
  {
    if |indices| > 0 {
      var n := |indices|;
      var g := Gather(mesh, proximity, pressure, indices);
      assert g[..n - 1] == Gather(mesh, proximity, pressure, indices[..n - 1]);
      CountGather(mesh, proximity, pressure, indices[..n - 1]);
    }
  }

  /** The count, contact area and means over the listed triangles. */
  lemma ContactStatsSums(mesh: Mesh, proximity: seq<real>, pressure: seq<real>, indices: seq<int>)
    requires StatsReady(mesh, proximity, pressure, indices)
    ensures var r := StatsOfSamples(Gather(mesh, proximity, pressure, indices));
      && r.nContacting as real == ListedSum(indices, ContactIndicator(pressure))
      && r.contactArea == ListedSum(indices, ContactAreas(mesh.area, pressure))
      && r.meanPressure == Mean(ListedSum(indices, pressure), r.nContacting)
      && r.meanProximity == Mean(ListedSum(indices, proximity), r.nContacting)
  {
    CountGather(mesh, proximity, pressure, indices);
    SumByGather(mesh, proximity, pressure, indices, ContactingArea, ContactAreas(mesh.area, pressure));
    SumByGather(mesh, proximity, pressure, indices, PressureOf, pressure);
    SumByGather(mesh, proximity, pressure, indices, ProximityOf, proximity);
  }

  /** The centres of pressure and proximity over the listed triangles. */
  lemma ContactStatsCenters(mesh: Mesh, proximity: seq<real>, pressure: seq<real>, indices: seq<int>)
    requires StatsReady(mesh, proximity, pressure, indices)
    ensures var r := StatsOfSamples(Gather(mesh, proximity, pressure, indices));
      && r.centerOfPressure == Center(ListedVSum(indices, WeightedCenters(mesh.center, Weights(pressure, mesh.area))),
                                      ListedSum(indices, Weights(pressure, mesh.area)))
      && r.centerOfProximity == Center(ListedVSum(indices, WeightedCenters(mesh.center, Weights(proximity, mesh.area))),
                                       ListedSum(indices, Weights(proximity, mesh.area)))
  {
    SumByGather(mesh, proximity, pressure, indices, PressureWeight, Weights(pressure, mesh.area));
    SumByGather(mesh, proximity, pressure, indices, ProximityWeight, Weights(proximity, mesh.area));
    VSumByGather(mesh, proximity, pressure, indices, PressureWeightedCenter, WeightedCenters(mesh.center, Weights(pressure, mesh.area)));
    VSumByGather(mesh, proximity, pressure, indices, ProximityWeightedCenter, WeightedCenters(mesh.center, Weights(proximity, mesh.area)));
  }

  /** The values of the statistics over the listed triangles: the
      contacting count and contact area count the triangles carrying
      pressure; the mean pressure and proximity divide the sums over all
      listed triangles by the contacting count; the centres weight each
      triangle's centre by pressure (or proximity) times area. */
  lemma ContactStatsValues(mesh: Mesh, proximity: seq<real>, pressure: seq<real>, indices: seq<int>)
    requires StatsReady(mesh, proximity, pressure, indices)
    ensures var r := ComputeContactStats(mesh, proximity, pressure, indices);
      && r.nContacting as real == ListedSum(indices, ContactIndicator(pressure))
      && r.contactArea == ListedSum(indices, ContactAreas(mesh.area, pressure))
      && r.meanPressure == Mean(ListedSum(indices, pressure), r.nContacting)
      && r.meanProximity == Mean(ListedSum(indices, proximity), r.nContacting)
      && r.centerOfPressure == Center(ListedVSum(indices, WeightedCenters(mesh.center, Weights(pressure, mesh.area))),
                                      ListedSum(indices, Weights(pressure, mesh.area)))
      && r.centerOfProximity == Center(ListedVSum(indices, WeightedCenters(mesh.center, Weights(proximity, mesh.area))),
                                       ListedSum(indices, Weights(proximity, mesh.area)))
  {
    assert ComputeContactStats(mesh, proximity, pressure, indices) == StatsOfSamples(Gather(mesh, proximity, pressure, indices));
    ContactStatsSums(mesh, proximity, pressure, indices);
    ContactStatsCenters(mesh, proximity, pressure, indices);
  }

  /** The contacting count is at most the number of samples, and zero
      exactly when no sample carries pressure. */
  lemma {:induction false} CountContactingBounds(s: seq<Sample>)
    ensures CountContacting(s) <= |s|
    ensures CountContacting(s) == 0 <==> forall k :: 0 <= k < |s| ==> !IsContacting(s[k])
    decreases |s|
  {
    if |s| > 0 {
      CountContactingBounds(s[..|s| - 1]);
      assert forall k :: 0 <= k < |s| - 1 ==> s[..|s| - 1][k] == s[k];
    }
  }

  /** The sup norm bounds every sample's absolute value. */
  lemma {:induction false} MaxAbsBounds(s: seq<Sample>, f: Sample -> real)
    ensures forall k :: 0 <= k < |s| ==> Abs(f(s[k])) <= MaxAbsBy(s, f)
    decreases |s|
  {
    if |s| > 0 {
      MaxAbsBounds(s[..|s| - 1], f);
      assert forall k :: 0 <= k < |s| - 1 ==> s[..|s| - 1][k] == s[k];
    }
  }

  lemma ContactAreaNonNegative(s: seq<Sample>)
    ensures (forall k :: 0 <= k < |s| ==> s[k].area >= 0.0) ==> SumBy(s, ContactingArea) >= 0.0
  {
    if forall k :: 0 <= k < |s| ==> s[k].area >= 0.0 {
      SampleStatsBounds(s);
    }
  }

  // ---------------------------------------------------------------------
  // Sums over concatenated samples

  lemma {:induction false} SumByAppend(a: seq<Sample>, b: seq<Sample>, f: Sample -> real)
    ensures SumBy(a + b, f) == SumBy(a, f) + SumBy(b, f)
    decreases |b|
  {
    if |b| == 0 {
      assert a + b == a;
    } else {
      assert (a + b)[..|a + b| - 1] == a + b[..|b| - 1];
      SumByAppend(a, b[..|b| - 1], f);
    }
  }

  lemma {:induction false} VSumByAppend(a: seq<Sample>, b: seq<Sample>, f: Sample -> V3)
    ensures VSumBy(a + b, f) == Add(VSumBy(a, f), VSumBy(b, f))
    decreases |b|
  {
    if |b| == 0 {
      assert a + b == a;
    } else {
      assert (a + b)[..|a + b| - 1] == a + b[..|b| - 1];
      VSumByAppend(a, b[..|b| - 1], f);
    }
  }

  lemma {:induction false} CountAppend(a: seq<Sample>, b: seq<Sample>)
    ensures CountContacting(a + b) == CountContacting(a) + CountContacting(b)
    decreases |b|
  {
    if |b| == 0 {
      assert a + b == a;
    } else {
      assert (a + b)[..|a + b| - 1] == a + b[..|b| - 1];
      CountAppend(a, b[..|b| - 1]);
    }
  }

  function Max(x: real, y: real): real {
    if x > y then x else y
  }

  lemma {:induction false} MaxAbsAppend(a: seq<Sample>, b: seq<Sample>, f: Sample -> real)
    ensures MaxAbsBy(a + b, f) == Max(MaxAbsBy(a, f), MaxAbsBy(b, f))
    decreases |b|
  {
    MaxAbsNonNegative(a, f);
    if |b| == 0 {
      assert a + b == a;
    } else {
      assert (a + b)[..|a + b| - 1] == a + b[..|b| - 1];
      MaxAbsAppend(a, b[..|b| - 1], f);
    }
  }

  lemma {:induction false} MaxAbsNonNegative(s: seq<Sample>, f: Sample -> real)
    ensures MaxAbsBy(s, f) >= 0.0
    decreases |s|
  {
    if |s| > 0 {
      MaxAbsNonNegative(s[..|s| - 1], f);
    }
  }

  lemma GatherAppend(mesh: Mesh, proximity: seq<real>, pressure: seq<real>, a: seq<int>, b: seq<int>)
    requires StatsReady(mesh, proximity, pressure, a) && StatsReady(mesh, proximity, pressure, b)
    ensures StatsReady(mesh, proximity, pressure, a + b)
    ensures Gather(mesh, proximity, pressure, a + b) == Gather(mesh, proximity, pressure, a) + Gather(mesh, proximity, pressure, b)
  {
    assert forall k :: 0 <= k < |a + b| ==> (a + b)[k] == if k < |a| then a[k] else b[k - |a|];
  }

  // ---------------------------------------------------------------------
  // Properties of the statistics

  /** The contacting count never exceeds the subset, the contact area lies
      between 0 and the subset's total area, the sup norms bound every
      triangle's value and are attained, and the means are absent exactly
      when nothing contacts. */
  lemma {:induction false} SampleStatsBounds(s: seq<Sample>)
    requires forall k :: 0 <= k < |s| ==> s[k].area >= 0.0
    ensures StatsOfSamples(s).nContacting <= |s|
    ensures 0.0 <= StatsOfSamples(s).contactArea <= SumBy(s, AreaOf)
    ensures forall k :: 0 <= k < |s| ==>
      Abs(s[k].pressure) <= StatsOfSamples(s).maxPressure && Abs(s[k].proximity) <= StatsOfSamples(s).maxProximity
    ensures |s| > 0 ==> exists k :: 0 <= k < |s| && StatsOfSamples(s).maxPressure == Abs(s[k].pressure)
    ensures |s| == 0 ==> StatsOfSamples(s).maxPressure == 0.0
    ensures StatsOfSamples(s).meanPressure.None? <==> StatsOfSamples(s).nContacting == 0
    decreases |s|
  {
    if |s| > 0 {
      var init := s[..|s| - 1];
      SampleStatsBounds(init);
      var st := StatsOfSamples(s);
      var last := s[|s| - 1];
      assert forall k :: 0 <= k < |init| ==> init[k] == s[k];
      if |init| > 0 {
        var k :| 0 <= k < |init| && StatsOfSamples(init).maxPressure == Abs(init[k].pressure);
        assert st.maxPressure == Abs(s[k].pressure) || st.maxPressure == Abs(last.pressure);
      }
    }
  }

  /** Statistics of a concatenated index list: counts, contact area, force
      and moment add up, and the sup norms take the larger of the two. */
  lemma StatsAdditive(mesh: Mesh, proximity: seq<real>, pressure: seq<real>, a: seq<int>, b: seq<int>)
    requires StatsReady(mesh, proximity, pressure, a) && StatsReady(mesh, proximity, pressure, b)
    ensures StatsReady(mesh, proximity, pressure, a + b)
    ensures var sa := ComputeContactStats(mesh, proximity, pressure, a);
      var sb := ComputeContactStats(mesh, proximity, pressure, b);
      var sab := ComputeContactStats(mesh, proximity, pressure, a + b);
      && sab.nContacting == sa.nContacting + sb.nContacting
      && sab.contactArea == sa.contactArea + sb.contactArea
      && sab.contactForce == Add(sa.contactForce, sb.contactForce)
      && sab.contactMoment == Add(sa.contactMoment, sb.contactMoment)
      && sab.maxPressure == Max(sa.maxPressure, sb.maxPressure)
      && sab.maxProximity == Max(sa.maxProximity, sb.maxProximity)
  {
    GatherAppend(mesh, proximity, pressure, a, b);
    var ga := Gather(mesh, proximity, pressure, a);
    var gb := Gather(mesh, proximity, pressure, b);
    CountAppend(ga, gb);
    SumByAppend(ga, gb, ContactingArea);
    VSumByAppend(ga, gb, ForceOf);
    VSumByAppend(ga, gb, MomentOf);
    MaxAbsAppend(ga, gb, PressureOf);
    MaxAbsAppend(ga, gb, ProximityOf);
  }

  /** Per triangle: the moment force x centre, force first. */
  function Moments(force: seq<V3>, center: seq<V3>): (r: seq<V3>)
    requires |force| == |center|
    ensures |r| == |force|
  {
    seq(|force|, i requires 0 <= i < |force| => Cross(force[i], center[i]))
  }

  /** The statistics' contact force is the sum of the per-triangle forces of
      the pressure stage over the listed triangles, and the moment sums
      force x centre, force first. */
  lemma ForceAndMomentFromTriangleForces(mesh: Mesh, proximity: seq<real>, pressure: seq<real>,
                                         force: seq<V3>, indices: seq<int>)
    requires StatsReady(mesh, proximity, pressure, indices) && |force| == |pressure|
    requires forall i :: 0 <= i < |force| ==>
      force[i] == ContactDynamics.TriangleForce(pressure[i], mesh.area[i], mesh.normal[i])
    ensures ComputeContactStats(mesh, proximity, pressure, indices).contactForce == ListedVSum(indices, force)
    ensures ComputeContactStats(mesh, proximity, pressure, indices).contactMoment ==
      ListedVSum(indices, Moments(force, mesh.center))
  {
    ContactDynamics.TriangleForceIsContactForce();
    forall i | 0 <= i < |pressure| ensures ForceOf(SampleAt(mesh, proximity, pressure, i)) == force[i] {
      assert force[i] == ContactDynamics.TriangleForce(pressure[i], mesh.area[i], mesh.normal[i]);
    }
    VSumByGather(mesh, proximity, pressure, indices, ForceOf, force);
    VSumByGather(mesh, proximity, pressure, indices, MomentOf, Moments(force, mesh.center));
  }

  // ---------------------------------------------------------------------
  // Regions

  function Flatten(regions: seq<seq<int>>): seq<int> {
    if |regions| == 0 then [] else Flatten(regions[..|regions| - 1]) + regions[|regions| - 1]
  }

  predicate AllReady(mesh: Mesh, proximity: seq<real>, pressure: seq<real>, regions: seq<seq<int>>) {
    Sized(mesh, proximity, pressure) && forall r :: 0 <= r < |regions| ==> StatsReady(mesh, proximity, pressure, regions[r])
  }

  /** Total of the regional contact areas. */
  function RegionalContactArea(mesh: Mesh, proximity: seq<real>, pressure: seq<real>, regions: seq<seq<int>>): real
    requires AllReady(mesh, proximity, pressure, regions)
  {
    if |regions| == 0 then 0.0
    else
      RegionalContactArea(mesh, proximity, pressure, regions[..|regions| - 1])
        + ComputeContactStats(mesh, proximity, pressure, regions[|regions| - 1]).contactArea
  }

  lemma {:induction false} RegionalAreaIsAreaOfUnion(mesh: Mesh, proximity: seq<real>, pressure: seq<real>, regions: seq<seq<int>>)
    requires AllReady(mesh, proximity, pressure, regions)
    ensures StatsReady(mesh, proximity, pressure, Flatten(regions))
    ensures RegionalContactArea(mesh, proximity, pressure, regions) ==
      ComputeContactStats(mesh, proximity, pressure, Flatten(regions)).contactArea
    decreases |regions|
  {
    if |regions| > 0 {
      var init := regions[..|regions| - 1];
      assert AllReady(mesh, proximity, pressure, init);
      RegionalAreaIsAreaOfUnion(mesh, proximity, pressure, init);
      StatsAdditive(mesh, proximity, pressure, Flatten(init), regions[|regions| - 1]);
    }
  }

  function SampleAt(mesh: Mesh, proximity: seq<real>, pressure: seq<real>, i: int): Sample
    requires Sized(mesh, proximity, pressure) && 0 <= i < |pressure|
  {
    Sample(mesh.area[i], mesh.normal[i], mesh.center[i], proximity[i], pressure[i])
  }

  /** Taking one sample out of a sequence takes its term out of the sum. */
  lemma SumByRemove(s: seq<Sample>, j: nat, f: Sample -> real)
    requires j < |s|
    ensures SumBy(s, f) == SumBy(s[..j] + s[j + 1..], f) + f(s[j])
  {
    var head, right := s[..j + 1], s[j + 1..];
    assert s == head + right;
    SumByAppend(head, right, f);
    assert head[..j] == s[..j];
    SumByAppend(s[..j], right, f);
  }

  /** Gathering after removing an index is removing the gathered sample. */
  lemma GatherRemove(mesh: Mesh, proximity: seq<real>, pressure: seq<real>, idx: seq<int>, j: nat)
    requires StatsReady(mesh, proximity, pressure, idx) && j < |idx|
    ensures StatsReady(mesh, proximity, pressure, idx[..j] + idx[j + 1..])
    ensures Gather(mesh, proximity, pressure, idx[..j] + idx[j + 1..])
      == Gather(mesh, proximity, pressure, idx)[..j] + Gather(mesh, proximity, pressure, idx)[j + 1..]
  {
    var rest := idx[..j] + idx[j + 1..];
    assert forall k :: 0 <= k < |rest| ==> rest[k] == if k < j then idx[k] else idx[k + 1];
  }

  lemma MultisetRemove(i1: seq<int>, i2: seq<int>, j: nat)
    requires |i1| > 0 && j < |i2| && i2[j] == i1[|i1| - 1]
    requires multiset(i1) == multiset(i2)
    ensures multiset(i1[..|i1| - 1]) == multiset(i2[..j] + i2[j + 1..])
  {
    var x := i2[j];
    var init := i1[..|i1| - 1];
    assert i2 == i2[..j] + [x] + i2[j + 1..];
    assert multiset(i2) == multiset(i2[..j]) + multiset{x} + multiset(i2[j + 1..]);
    assert multiset(i2[..j] + i2[j + 1..]) == multiset(i2[..j]) + multiset(i2[j + 1..]);
    assert i1 == init + [x];
    assert multiset(i1) == multiset(init) + multiset{x};
    assert multiset(init) == multiset(i1) - multiset{x};
    assert multiset(i2[..j] + i2[j + 1..]) == multiset(i2) - multiset{x};
  }

  /** Taking index `j` out of a subset takes its sample's term out of the sum. */
  lemma SumByRemoveIndex(mesh: Mesh, proximity: seq<real>, pressure: seq<real>, idx: seq<int>, j: nat, f: Sample -> real)
    requires StatsReady(mesh, proximity, pressure, idx) && j < |idx|
    ensures StatsReady(mesh, proximity, pressure, idx[..j] + idx[j + 1..])
    ensures SumBy(Gather(mesh, proximity, pressure, idx), f) ==
      SumBy(Gather(mesh, proximity, pressure, idx[..j] + idx[j + 1..]), f) + f(SampleAt(mesh, proximity, pressure, idx[j]))
  {
    var g := Gather(mesh, proximity, pressure, idx);
    GatherRemove(mesh, proximity, pressure, idx, j);
    SumByRemove(g, j, f);
  }

  /** Sums over a subset do not depend on the order of its indices. */
  lemma {:induction false} SumByPermutation(mesh: Mesh, proximity: seq<real>, pressure: seq<real>,
                                            i1: seq<int>, i2: seq<int>, f: Sample -> real)
    requires StatsReady(mesh, proximity, pressure, i1) && StatsReady(mesh, proximity, pressure, i2)
    requires multiset(i1) == multiset(i2)
    ensures SumBy(Gather(mesh, proximity, pressure, i1), f) == SumBy(Gather(mesh, proximity, pressure, i2), f)
    decreases |i1|
  {
    if |i1| == 0 {
      assert |multiset(i2)| == 0;
    } else {
      var n := |i1|;
      var x := i1[n - 1];
      assert x in multiset(i2);
      var j := IndexOf(i2, x);
      MultisetRemove(i1, i2, j);
      SumByRemoveIndex(mesh, proximity, pressure, i1, n - 1, f);
      SumByRemoveIndex(mesh, proximity, pressure, i2, j, f);
      assert i1[..n - 1] + i1[n..] == i1[..n - 1];
      SumByPermutation(mesh, proximity, pressure, i1[..n - 1], i2[..j] + i2[j + 1..], f);
    }
  }

  /** When the regions partition the whole-mesh index list (every index in
      exactly as many regions as it occurs in the list), the regional contact
      areas add up to the whole-mesh contact area. */
  lemma RegionsPartitionContactArea(mesh: Mesh, proximity: seq<real>, pressure: seq<real>,
                                    regions: seq<seq<int>>, whole: seq<int>)
    requires AllReady(mesh, proximity, pressure, regions) && StatsReady(mesh, proximity, pressure, whole)
    requires multiset(Flatten(regions)) == multiset(whole)
    ensures RegionalContactArea(mesh, proximity, pressure, regions) ==
      ComputeContactStats(mesh, proximity, pressure, whole).contactArea
  {
    RegionalAreaIsAreaOfUnion(mesh, proximity, pressure, regions);
    SumByPermutation(mesh, proximity, pressure, Flatten(regions), whole, ContactingArea);
  }
}
