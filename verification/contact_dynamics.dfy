/**
 * Pressure, strain energy and force per casting triangle
 * (`computeMeshDynamics`, `computePotentialEnergy`, the force pairing of
 * `computeForce`), under the elastic-foundation model of Smith, Won Choi,
 * Negrut and Thelen (2018).
 *
 * The natural logarithm, the exponential and the Levenberg-Marquardt root
 * finder used by the nonlinear variants are parameters (`Transcendental`);
 * the linear variants are closed forms over the reals.
 */
module ContactDynamics {

  import opened Vec3

  /** Thickness h, elastic modulus E and Poisson ratio nu of one triangle. */
  datatype Material = Material(thickness: real, modulus: real, poisson: real)

  /** The physical domain the material properties are set up in. */
  predicate ValidMaterial(m: Material) {
    m.thickness > 0.0 && m.modulus > 0.0 && -1.0 < m.poisson < 0.5
  }

  /** `elastic_foundation_formulation` and `use_lumped_contact_model`. */
  datatype ContactModel = ContactModel(formulation: string, lumped: bool)

  /** The foreign numerical routines of the nonlinear variants:
      `ln`, `exp` and the root finder called with
      (proximity, hC, hT, EC, ET, vC, vT, initial guess). */
  datatype Transcendental = Transcendental(
    ln: real -> real,
    exp: real -> real,
    solveVariableNonlinear: (real, real, real, real, real, real, real, real) -> real)

  datatype PressureEnergy = PressureEnergy(pressure: real, energy: real)

  /** The code path a triangle's computation takes. */
  datatype Branch = NoContact | LumpedLinear | LumpedNonlinear | VariableLinear | VariableNonlinear

  /** Branch selection as the control flow of `computeMeshDynamics` falls
      through it: a lumped model with an unknown formulation drops into the
      variable branch, and there every formulation other than "linear" is
      nonlinear. */
  function SelectBranch(proximity: real, model: ContactModel): (r: Branch)
    ensures (r == NoContact) == (proximity <= 0.0)
    ensures (r == LumpedLinear || r == LumpedNonlinear) ==> model.lumped
    // in contact, a linear branch is taken exactly for the "linear" formulation
    ensures proximity > 0.0 ==> ((r == LumpedLinear || r == VariableLinear) <==> model.formulation == "linear")
    ensures r == LumpedNonlinear ==> model.formulation == "nonlinear"
  {
    if proximity <= 0.0 then NoContact
    else if model.lumped && model.formulation == "linear" then LumpedLinear
    else if model.lumped && model.formulation == "nonlinear" then LumpedNonlinear
    else if model.formulation == "linear" then VariableLinear
    else VariableNonlinear
  }

  /** Confined-compression modulus (1 - nu) E / ((1 + nu)(1 - 2 nu)). */
  function ConfinedModulus(e: real, nu: real): (k: real)
    requires -1.0 < nu < 0.5
    ensures e > 0.0 ==> k > 0.0
  {
    var den := (1.0 + nu) * (1.0 - 2.0 * nu);
    PositiveProduct(1.0 + nu, 1.0 - 2.0 * nu);
    PositiveIfPositive(1.0 - nu, e);
    PositiveQuotientIfPositive((1.0 - nu) * e, den);
    (1.0 - nu) * e / den
  }

  lemma PositiveProduct(a: real, b: real)
    requires a > 0.0 && b > 0.0
    ensures a * b > 0.0
  {
  }

  lemma PositiveQuotientIfPositive(a: real, b: real)
    requires b > 0.0
    ensures a > 0.0 ==> a / b > 0.0
  {
  }

  lemma PositiveIfPositive(a: real, b: real)
    requires a > 0.0
    ensures b > 0.0 ==> a * b > 0.0
  {
    if b > 0.0 {
      PositiveProduct(a, b);
    }
  }

  /** Lumped stiffness: averaged modulus and Poisson ratio of both sides. */
  function LumpedModulus(target: Material, casting: Material): (k: real)
    requires ValidMaterial(target) && ValidMaterial(casting)
    ensures k > 0.0
  {
    ConfinedModulus((target.modulus + casting.modulus) / 2.0, (target.poisson + casting.poisson) / 2.0)
  }

  /** Lumped linear model: one layer of thickness hT + hC. */
  function LumpedLinearModel(proximity: real, area: real, target: Material, casting: Material): PressureEnergy
    requires ValidMaterial(target) && ValidMaterial(casting)
  {
    var k := LumpedModulus(target, casting);
    var h := target.thickness + casting.thickness;
    PressureEnergy(k * proximity / h, 0.5 * area * k * (proximity * proximity) / h)
  }

  /** Lumped nonlinear model, through the supplied logarithm. */
  function LumpedNonlinearModel(math: Transcendental, proximity: real, area: real, target: Material, casting: Material): PressureEnergy
    requires ValidMaterial(target) && ValidMaterial(casting)
  {
    var k := LumpedModulus(target, casting);
    var h := target.thickness + casting.thickness;
    var l := math.ln(1.0 - proximity / h);
    PressureEnergy(-k * l, -area * k * ((proximity - h) * l - proximity))
  }

  /** Per-side spring stiffness (1 - nu) E / ((1 + nu)(1 - 2 nu) h). */
  function SideStiffness(m: Material): (k: real)
    requires ValidMaterial(m)
    ensures k > 0.0
  {
    var a := 1.0 + m.poisson;
    var b := 1.0 - 2.0 * m.poisson;
    var num := (1.0 - m.poisson) * m.modulus;
    PositiveProduct(a, b);
    PositiveProduct(a * b, m.thickness);
    PositiveProduct(1.0 - m.poisson, m.modulus);
    PositiveQuotientIfPositive(num, a * b * m.thickness);
    num / (a * b * m.thickness)
  }

  /** Variable-property linear model: two springs in series. */
  datatype SeriesSplit = SeriesSplit(pressure: real, energy: real, depthTarget: real, depthCasting: real)

  function VariableLinearModel(proximity: real, area: real, target: Material, casting: Material): SeriesSplit
    requires ValidMaterial(target) && ValidMaterial(casting)
  {
    var kT := SideStiffness(target);
    var kC := SideStiffness(casting);
    var depthT := kC / (kT + kC) * proximity;
    var depthC := kT / (kT + kC) * proximity;
    var energyC := 0.5 * area * kC * (depthC * depthC);
    var energyT := 0.5 * area * kT * (depthT * depthT);
    SeriesSplit((kT * kC) / (kT + kC) * proximity, energyC + energyT, depthT, depthC)
  }

  /** Variable-property nonlinear model, through the supplied root finder,
      exponential and logarithm; the linear pressure is the initial guess. */
  function VariableNonlinearModel(math: Transcendental, proximity: real, area: real, target: Material, casting: Material): PressureEnergy
    requires ValidMaterial(target) && ValidMaterial(casting)
  {
    var kT := SideStiffness(target);
    var kC := SideStiffness(casting);
    var guess := VariableLinearModel(proximity, area, target, casting).pressure;
    var p := math.solveVariableNonlinear(proximity, casting.thickness, target.thickness,
      casting.modulus, target.modulus, casting.poisson, target.poisson, guess);
    var depthC := casting.thickness * (1.0 - math.exp(-p / kC));
    var depthT := target.thickness * (1.0 - math.exp(-p / kT));
    var energyC := -area * kC * ((depthC - casting.thickness) * math.ln(1.0 - depthC / casting.thickness) - depthC);
    var energyT := -area * kT * ((depthT - target.thickness) * math.ln(1.0 - depthT / target.thickness) - depthT);
    PressureEnergy(p, energyC + energyT)
  }

  /** Pressure and energy of one casting triangle. The target material is
      only read when the triangle is in contact. */
  function TriangleDynamics(model: ContactModel, math: Transcendental, proximity: real, area: real,
                            target: Material, casting: Material): (r: PressureEnergy)
    requires proximity > 0.0 ==> ValidMaterial(target) && ValidMaterial(casting)
    ensures proximity <= 0.0 ==> r == PressureEnergy(0.0, 0.0)
  {
    match SelectBranch(proximity, model)
    case NoContact => PressureEnergy(0.0, 0.0)
    case LumpedLinear => LumpedLinearModel(proximity, area, target, casting)
    case LumpedNonlinear => LumpedNonlinearModel(math, proximity, area, target, casting)
    case VariableLinear =>
      var s := VariableLinearModel(proximity, area, target, casting);
      PressureEnergy(s.pressure, s.energy)
    case VariableNonlinear => VariableNonlinearModel(math, proximity, area, target, casting)
  }

  /** Force on one casting triangle: pressure times area along the inward
      normal. */
  function TriangleForce(pressure: real, area: real, normal: V3): V3 {
    V3(pressure * area * -normal.x, pressure * area * -normal.y, pressure * area * -normal.z)
  }

  /** `computeContactForceVector`: normal * pressure * area. */
  function ContactForceVector(pressure: real, area: real, normal: V3): (r: V3)
    ensures r == Scale(normal, pressure * area)
    ensures Cross(normal, r) == Zero
  {
    Scale(Scale(normal, pressure), area)
  }

  /** `computeContactMomentVector`: the force crossed with the centre. */
  function ContactMomentVector(pressure: real, area: real, normal: V3, center: V3): (r: V3)
    // the moment is perpendicular to both the normal and the lever arm
    ensures Dot(r, normal) == 0.0 && Dot(r, center) == 0.0
  {
    var f := ContactForceVector(pressure, area, normal);
    CrossPerpendicular(f, center);
    CrossPerpendicularScaled(normal, pressure * area, center);
    Cross(f, center)
  }

  lemma CrossPerpendicular(a: V3, b: V3)
    ensures Dot(Cross(a, b), a) == 0.0 && Dot(Cross(a, b), b) == 0.0
  {
  }

  lemma CrossPerpendicularScaled(n: V3, k: real, b: V3)
    ensures Dot(Cross(Scale(n, k), b), n) == 0.0
  {
    var c := Cross(Scale(n, k), b);
    var d := Cross(n, b);
    assert c.x == k * d.x by { assert (n.y * k) * b.z - (n.z * k) * b.y == k * (n.y * b.z - n.z * b.y); }
    assert c.y == k * d.y by { assert (n.z * k) * b.x - (n.x * k) * b.z == k * (n.z * b.x - n.x * b.z); }
    assert c.z == k * d.z by { assert (n.x * k) * b.y - (n.y * k) * b.x == k * (n.x * b.y - n.y * b.x); }
    CrossPerpendicular(n, b);
    assert Dot(c, n) == k * Dot(d, n) by {
      assert (k * d.x) * n.x + (k * d.y) * n.y + (k * d.z) * n.z == k * (d.x * n.x + d.y * n.y + d.z * n.z);
    }
  }

  function Dot(a: V3, b: V3): real {
    a.x * b.x + a.y * b.y + a.z * b.z
  }

  /** The casting mesh, one entry per triangle. */
  datatype CastingMesh = CastingMesh(area: seq<real>, normal: seq<V3>, material: seq<Material>)

  predicate WellSized(mesh: CastingMesh) {
    |mesh.area| == |mesh.normal| == |mesh.material|
  }

  datatype MeshDynamicsResult = MeshDynamicsResult(pressure: seq<real>, energy: seq<real>, force: seq<V3>)

  /** What the pressure stage needs of the proximity stage: one proximity and
      one target index per casting triangle, and for every triangle in
      contact a target triangle to read material from. */
  predicate DynamicsReady(mesh: CastingMesh, target: seq<Material>, proximity: seq<real>, targetTri: seq<int>) {
    && WellSized(mesh) && |proximity| == |mesh.area| && |targetTri| == |mesh.area|
    && forall i :: 0 <= i < |proximity| && proximity[i] > 0.0 ==>
         0 <= targetTri[i] < |target| && ValidMaterial(target[targetTri[i]]) && ValidMaterial(mesh.material[i])
  }

  function TargetMaterial(target: seq<Material>, proximity: seq<real>, targetTri: seq<int>, i: nat): Material
    requires i < |proximity| && i < |targetTri|
  {
    if 0 <= targetTri[i] < |target| then target[targetTri[i]] else Material(0.0, 0.0, 0.0)
  }

  /** The computation of casting triangle `i`. */
  function DynamicsAt(model: ContactModel, math: Transcendental, mesh: CastingMesh, target: seq<Material>,
                      proximity: seq<real>, targetTri: seq<int>, i: nat): (r: PressureEnergy)
    requires DynamicsReady(mesh, target, proximity, targetTri) && i < |proximity|
    ensures proximity[i] <= 0.0 ==> r == PressureEnergy(0.0, 0.0)
    // in contact, the material of the target triangle it points at is read
    ensures proximity[i] > 0.0 ==>
      r == TriangleDynamics(model, math, proximity[i], mesh.area[i], target[targetTri[i]], mesh.material[i])
  {
    TriangleDynamics(model, math, proximity[i], mesh.area[i],
      TargetMaterial(target, proximity, targetTri, i), mesh.material[i])
  }

  /** Pressure, energy and force for every casting triangle. */
  function MeshDynamics(model: ContactModel, math: Transcendental, mesh: CastingMesh, target: seq<Material>,
                        proximity: seq<real>, targetTri: seq<int>): (r: MeshDynamicsResult)
    requires DynamicsReady(mesh, target, proximity, targetTri)
    ensures |r.pressure| == |r.energy| == |r.force| == |proximity|
    ensures forall i :: 0 <= i < |proximity| && proximity[i] <= 0.0 ==>
      r.pressure[i] == 0.0 && r.energy[i] == 0.0 && r.force[i] == Zero
    ensures forall i :: 0 <= i < |proximity| ==>
      r.force[i] == ContactForceVector(r.pressure[i], mesh.area[i], Neg(mesh.normal[i]))
    // each triangle's pressure and energy are computed independently
    ensures forall i :: 0 <= i < |proximity| ==>
      PressureEnergy(r.pressure[i], r.energy[i]) == DynamicsAt(model, math, mesh, target, proximity, targetTri, i)
  {
    var n := |proximity|;
    var pressure := seq(n, i requires 0 <= i < n => DynamicsAt(model, math, mesh, target, proximity, targetTri, i).pressure);
    var energy := seq(n, i requires 0 <= i < n => DynamicsAt(model, math, mesh, target, proximity, targetTri, i).energy);
    TriangleForceIsContactForce();
    MeshDynamicsResult(pressure, energy,
      seq(n, i requires 0 <= i < n => TriangleForce(pressure[i], mesh.area[i], mesh.normal[i])))
  }

  /** The force of `computeMeshDynamics` is the force vector of
      `computeContactForceVector` taken along the negated normal. */
  lemma TriangleForceIsContactForce()
    ensures forall p: real, a: real, n: V3 {:trigger TriangleForce(p, a, n)} ::
      TriangleForce(p, a, n) == ContactForceVector(p, a, Neg(n))
  {
  }

  /** `computePotentialEnergy`: the sum of the triangle energies. */
  function PotentialEnergy(energy: seq<real>): (r: real)
    ensures (forall k :: 0 <= k < |energy| ==> energy[k] == 0.0) ==> r == 0.0
  {
    if |energy| == 0 then 0.0
    else
      assert forall k :: 0 <= k < |energy| - 1 ==> energy[..|energy| - 1][k] == energy[k];
      PotentialEnergy(energy[..|energy| - 1]) + energy[|energy| - 1]
  }

  /** The force pairs applied by `computeForce`: for each triangle, the
      casting force expressed in ground, then its negation on the target. */
  function AppliedForces(force: seq<V3>, toGround: V3 -> V3): (applied: seq<V3>)
    ensures |applied| == 2 * |force|
    ensures forall i :: 0 <= i < |force| ==>
      applied[2 * i] == toGround(force[i]) && applied[2 * i + 1] == Neg(toGround(force[i]))
  {
    if |force| == 0 then []
    else
      var n := |force| - 1;
      var g := toGround(force[n]);
      var init := AppliedForces(force[..n], toGround);
      assert forall i :: 0 <= i < n ==> force[..n][i] == force[i];
      init + [g, Neg(g)]
  }

  /** Lumped linear: pressure is K d / h, scales linearly with proximity,
      grows strictly with it, and the energy is half area times pressure
      times proximity. */
  lemma LumpedLinearIsLinear(c: real, d: real, area: real, target: Material, casting: Material)
    requires ValidMaterial(target) && ValidMaterial(casting)
    ensures LumpedLinearModel(c * d, area, target, casting).pressure == c * LumpedLinearModel(d, area, target, casting).pressure
    ensures LumpedLinearModel(d, area, target, casting).pressure ==
      LumpedModulus(target, casting) * d / (target.thickness + casting.thickness)
    ensures LumpedLinearModel(d, area, target, casting).energy ==
      0.5 * area * LumpedLinearModel(d, area, target, casting).pressure * d
  {
    var k := LumpedModulus(target, casting);
    var h := target.thickness + casting.thickness;
    assert k * (c * d) / h == c * (k * d / h);
    assert 0.5 * area * k * (d * d) / h == 0.5 * area * (k * d / h) * d;
  }

  lemma LumpedLinearIncreasing(d1: real, d2: real, area: real, target: Material, casting: Material)
    requires ValidMaterial(target) && ValidMaterial(casting)
    requires d1 < d2
    ensures LumpedLinearModel(d1, area, target, casting).pressure < LumpedLinearModel(d2, area, target, casting).pressure
  {
    var k := LumpedModulus(target, casting);
    var h := target.thickness + casting.thickness;
    PositiveProduct(k, d2 - d1);
    PositiveQuotientIfPositive(k * (d2 - d1), h);
    assert k * d2 / h - k * d1 / h == k * (d2 - d1) / h;
  }

  /** Variable-property linear: the two depths add up to the proximity, each
      side's spring carries the same series-spring pressure, and the energy
      is half area times pressure times proximity. */
  lemma VariableLinearSeriesSpring(d: real, area: real, target: Material, casting: Material)
    requires ValidMaterial(target) && ValidMaterial(casting)
    ensures var s := VariableLinearModel(d, area, target, casting);
      s.depthTarget + s.depthCasting == d
    ensures var s := VariableLinearModel(d, area, target, casting);
      SideStiffness(target) * s.depthTarget == s.pressure && SideStiffness(casting) * s.depthCasting == s.pressure
    ensures var s := VariableLinearModel(d, area, target, casting);
      s.energy == 0.5 * area * s.pressure * d
  {
    SeriesAlgebra(SideStiffness(target), SideStiffness(casting), d, area);
  }

  /** The series-spring identities for stiffnesses kT, kC. */
  lemma SeriesAlgebra(kT: real, kC: real, d: real, area: real)
    requires kT > 0.0 && kC > 0.0
    ensures kC / (kT + kC) * d + kT / (kT + kC) * d == d
    ensures kT * (kC / (kT + kC) * d) == (kT * kC) / (kT + kC) * d
    ensures kC * (kT / (kT + kC) * d) == (kT * kC) / (kT + kC) * d
    ensures 0.5 * area * kC * ((kT / (kT + kC) * d) * (kT / (kT + kC) * d))
          + 0.5 * area * kT * ((kC / (kT + kC) * d) * (kC / (kT + kC) * d))
         == 0.5 * area * ((kT * kC) / (kT + kC) * d) * d
  {
    var sum := kT + kC;
    var u := d / sum;
    assert kC / sum + kT / sum == 1.0;
    assert kC / sum * d + kT / sum * d == (kC / sum + kT / sum) * d;
    SeriesScaled(kT, kC, d);
    SeriesEnergy(kT, kC, u, area);
  }

  lemma SeriesScaled(kT: real, kC: real, d: real)
    requires kT > 0.0 && kC > 0.0
    ensures kC / (kT + kC) * d == kC * (d / (kT + kC))
    ensures kT / (kT + kC) * d == kT * (d / (kT + kC))
    ensures (kT * kC) / (kT + kC) * d == kT * kC * (d / (kT + kC))
    ensures (d / (kT + kC)) * (kT + kC) == d
  {
  }

  lemma SeriesEnergy(kT: real, kC: real, u: real, area: real)
    ensures 0.5 * area * kC * ((kT * u) * (kT * u)) + 0.5 * area * kT * ((kC * u) * (kC * u))
         == 0.5 * area * (kT * kC * u) * (u * (kT + kC))
  {
  }

  /** With the same material on both sides, the lumped and the variable
      linear models give the same pressure and energy. */
  lemma IdenticalMaterialsAgree(d: real, area: real, m: Material)
    requires ValidMaterial(m)
    ensures LumpedLinearModel(d, area, m, m).pressure == VariableLinearModel(d, area, m, m).pressure
    ensures LumpedLinearModel(d, area, m, m).energy == VariableLinearModel(d, area, m, m).energy
  {
    var k := SideStiffness(m);
    var big := ConfinedModulus(m.modulus, m.poisson);
    assert LumpedModulus(m, m) == big;
    assert k == big / m.thickness;
    assert (k * k) / (k + k) * d == big * d / (m.thickness + m.thickness);
    LumpedLinearIsLinear(1.0, d, area, m, m);
    VariableLinearSeriesSpring(d, area, m, m);
  }

  /** The control-flow quirks: a lumped model whose formulation is neither
      "linear" nor "nonlinear" falls through to the variable-property branch,
      and there anything but "linear" runs the nonlinear solution. */
  lemma BranchFallThrough(proximity: real, model: ContactModel)
    requires proximity > 0.0
    ensures model.formulation != "linear" && (!model.lumped || model.formulation != "nonlinear") ==>
      SelectBranch(proximity, model) == VariableNonlinear
    ensures model.formulation == "linear" ==>
      SelectBranch(proximity, model) == (if model.lumped then LumpedLinear else VariableLinear)
    ensures model.lumped && model.formulation == "nonlinear" ==> SelectBranch(proximity, model) == LumpedNonlinear
  {
  }

  /** With a linear formulation and non-negative area, pressure and energy
      are never negative, and pressure is positive in contact. */
  lemma LinearDynamicsNonNegative(model: ContactModel, math: Transcendental, d: real, area: real,
                                  target: Material, casting: Material)
    requires model.formulation == "linear" && area >= 0.0
    requires d > 0.0 ==> ValidMaterial(target) && ValidMaterial(casting)
    ensures TriangleDynamics(model, math, d, area, target, casting).pressure >= 0.0
    ensures TriangleDynamics(model, math, d, area, target, casting).energy >= 0.0
    ensures d > 0.0 ==> TriangleDynamics(model, math, d, area, target, casting).pressure > 0.0
  {
    if d > 0.0 {
      var r := TriangleDynamics(model, math, d, area, target, casting);
      if model.lumped {
        LumpedLinearIsLinear(1.0, d, area, target, casting);
        LumpedLinearIncreasing(0.0, d, area, target, casting);
        LumpedLinearIsLinear(0.0, d, area, target, casting);
        assert r.pressure > 0.0;
        PositiveIfPositive(r.pressure, d);
        assert r.energy == 0.5 * area * (r.pressure * d);
      } else {
        VariableLinearSeriesSpring(d, area, target, casting);
        var kT := SideStiffness(target);
        var kC := SideStiffness(casting);
        PositiveProduct(kT, kC);
        PositiveQuotientIfPositive(kT * kC, kT + kC);
        PositiveProduct((kT * kC) / (kT + kC), d);
        PositiveIfPositive(r.pressure, d);
        assert r.energy == 0.5 * area * (r.pressure * d);
      }
    }
  }

  /** Non-negative triangle energies, as the linear formulation yields
      (`LinearDynamicsNonNegative`), sum to a non-negative potential energy. */
  lemma {:induction false} PotentialEnergyNonNegative(energy: seq<real>)
    requires forall i :: 0 <= i < |energy| ==> energy[i] >= 0.0
    ensures PotentialEnergy(energy) >= 0.0
    decreases |energy|
  {
    if |energy| > 0 {
      PotentialEnergyNonNegative(energy[..|energy| - 1]);
    }
  }

  /** In contact, the force on a casting triangle points against its
      outward normal. */
  lemma ForceOpposesNormal(pressure: real, area: real, normal: V3)
    requires pressure > 0.0 && area > 0.0 && normal != Zero
    ensures Dot(TriangleForce(pressure, area, normal), normal) < 0.0
  {
    var pa := pressure * area;
    PositiveProduct(pressure, area);
    var f := TriangleForce(pressure, area, normal);
    var (sx, sy, sz) := (normal.x * normal.x, normal.y * normal.y, normal.z * normal.z);
    assert f.x * normal.x == -(pa * sx);
    assert f.y * normal.y == -(pa * sy);
    assert f.z * normal.z == -(pa * sz);
    assert sx >= 0.0 && sy >= 0.0 && sz >= 0.0;
    assert pa * sx >= 0.0 && pa * sy >= 0.0 && pa * sz >= 0.0;
    if normal.x != 0.0 {
      PositiveProduct(pa, sx);
    } else if normal.y != 0.0 {
      PositiveProduct(pa, sy);
    } else {
      PositiveProduct(pa, sz);
    }
  }

  /** Every casting force is applied together with its negation on the
      target, so the applied forces sum to zero. */
  lemma {:induction false} AppliedForcesBalance(force: seq<V3>, toGround: V3 -> V3)
    ensures Sum(AppliedForces(force, toGround)) == Zero
    decreases |force|
  {
    if |force| > 0 {
      var init := force[..|force| - 1];
      var g := toGround(force[|force| - 1]);
      var a := AppliedForces(init, toGround);
      AppliedForcesBalance(init, toGround);
      var all := a + [g, Neg(g)];
      assert all[..|all| - 1] == a + [g];
      assert (a + [g])[..|a|] == a;
      assert Sum(a + [g]) == Add(Sum(a), g);
      assert Sum(all) == Add(Add(Sum(a), g), Neg(g));
    }
  }
}
