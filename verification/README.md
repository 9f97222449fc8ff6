# Articular contact, joint mechanics, COMAK inverse kinematics and forward simulation — a Dafny model

This project models the computational core of the opensim-jam plugins for
OpenSim:

- **Smith2018ArticularContactForce** is the elastic-foundation contact force between a casting mesh and a target mesh.
  - The tiered ray-cast proximity search (`ContactProximity`).
  - Per-triangle pressure, strain energy and force (`ContactDynamics`).
  - Potential energy, and the force pairs applied to the two bodies.
  - The contact statistics: count, area, means, maxima, centres of proximity and pressure, resultant force and moment (`ContactStatistics`).
- **JointMechanicsTool** (`JointMechanics`):
  - the map from state-file columns to model coordinates;
  - the list of contact forces and meshes to report;
  - how per-force triangle outputs and mesh properties are collected into the data written for one mesh.
- **COMAKInverseKinematicsTool** (`ComakInverseKinematics`):
  - validation of the secondary coordinates and their name-to-path rewriting;
  - degree-to-radian conversion of the coupled coordinate;
  - the quadratic sweep of the coupled coordinate;
  - the interpolation grid for the constraint functions;
  - the inverse-kinematics time window and the per-frame marker error summary.
- **ForsimTool** (`Forsim`):
  - choosing start and stop time from the input files;
  - routing actuator-file columns to prescribed force, activation or control;
  - giving the remaining muscles a constant force.

Shared pieces:

- `Wrappers` holds `Option` and `Result`.
- `HelperFunctions` defines the string helpers the tools call: `split_string`, `contains_string` and `erase_sub_string`. Their definitions are not part of this model. Here, splitting is on every occurrence of a one-character delimiter, lookup returns the first index, and erasing removes the first occurrence.
- `Vec3` holds three-vectors.

Geometry is abstracted into a `RayOracle`:

- the frame transforms;
- the ray–triangle tests;
- the OBB-tree full-mesh search;
- the neighbour sets.

For each casting triangle the oracle answers three questions:

- does the ray hit a given target triangle, and at what distance;
- what are a target triangle's neighbours;
- what does the full-mesh search return.

The model proves everything else about the search for every answer the oracle can give.

The nonlinear contact models need the natural logarithm, the exponential and the Levenberg–Marquardt root finder. These are supplied as parameters (`Transcendental`).

## Model

| member | source | states |
|---|---|---|
| ContactProximity.SearchTriangle | src/Smith2018ArticularContactForce.cpp:295-365 | If the ray hits the previously recorded target triangle at all, that ends the search. The hit gives its distance when inside the window. Otherwise the proximity is 0 and the recorded triangle is kept. Otherwise, when some neighbour of the recorded triangle has an in-window hit, the triangle is re-targeted to the first such neighbour in visiting order, with that neighbour's distance. A neighbour-hit result arises only this way. Otherwise the full-mesh result decides, and a miss resets the index to -1. Without a previous triangle, only the full-mesh search is consulted. |
| ContactProximity.FirstNeighborHit | src/Smith2018ArticularContactForce.cpp:317-341 | A returned neighbour is in the neighbour set and its hit distance is in the window. No neighbour visited before it has an in-window hit. When nothing is returned, no neighbour has an in-window hit. |
| ContactProximity.SearchOne | src/Smith2018ArticularContactForce.cpp:287-366 | The loop body of the search, including its early exits and the neighbour loop, computes exactly the tiered outcome. |
| ContactProximity.ComputeMeshProximity | src/Smith2018ArticularContactForce.cpp:262-382 | Proximities start at 0 and each one is the outcome of its triangle's search. The carried index array is updated triangle by triangle. The same/neighbour/different counters count the outcomes of each tier. The active count is their sum. The contacting count counts active hits with positive proximity, and never exceeds the active count. |
| ContactProximity.ProximityZeroOrInWindow | src/Smith2018ArticularContactForce.cpp:272-273 | Given a full-mesh search that honours the window, every proximity is either the reset value 0 or a distance in [min_proximity, max_proximity]. Every counted (active) hit lies in the window. |
| ContactProximity.SameHitShortCircuits | src/Smith2018ArticularContactForce.cpp:297-315 | When the previous triangle is hit, the result depends on that one test only: neighbours and full mesh are never consulted. An out-of-window hit yields proximity 0 and keeps the index. |
| ContactProximity.SearchKeepsIndexValid | src/Smith2018ArticularContactForce.cpp:331-365 | The carried index stays -1 or a valid target triangle, and every active hit names a valid target triangle. |
| ContactProximity.RunFramesKeepsIndicesValid | src/Smith2018ArticularContactForce.cpp:275-276 | Across any number of evaluations, a valid previous-contacting-triangle array stays valid. |
| ContactDynamics.TriangleDynamics | src/Smith2018ArticularContactForce.cpp:437-442 | A triangle with proximity <= 0 gets zero pressure and zero energy. It reads no material and needs no target triangle. |
| ContactDynamics.SelectBranch | src/Smith2018ArticularContactForce.cpp:437-514 | No computation runs exactly when proximity <= 0. The lumped branches run only for a lumped model, and lumped nonlinear only for the "nonlinear" formulation. In contact, a linear branch runs exactly when the formulation is "linear". |
| ContactDynamics.BranchFallThrough | src/Smith2018ArticularContactForce.cpp:454-514 | A lumped model whose formulation is neither "linear" nor "nonlinear" falls into the variable-property code. There, every formulation except "linear" runs the nonlinear solution. "linear" selects the lumped or the variable linear model by the lumped flag. |
| ContactDynamics.ConfinedModulus | src/Smith2018ArticularContactForce.cpp:459 | For a positive modulus and Poisson ratio in (-1, 1/2), the confined-compression modulus is positive. |
| ContactDynamics.SideStiffness | src/Smith2018ArticularContactForce.cpp:480-481 | Each side's spring stiffness is positive for a valid material. |
| ContactDynamics.LumpedLinearIsLinear | src/Smith2018ArticularContactForce.cpp:455-466 | Lumped linear pressure is K d / (hT + hC) with averaged E and nu, and scales linearly with proximity. Its energy is half of area × pressure × proximity. |
| ContactDynamics.LumpedLinearIncreasing | src/Smith2018ArticularContactForce.cpp:462-466 | Lumped linear pressure strictly increases with proximity. |
| ContactDynamics.VariableLinearSeriesSpring | src/Smith2018ArticularContactForce.cpp:479-495 | The two depths add up to the proximity, and each side's stiffness times its depth equals the series-spring pressure. The summed energy is half of area × pressure × proximity. |
| ContactDynamics.SeriesAlgebra | src/Smith2018ArticularContactForce.cpp:483-493 | The series-spring identities behind those depths and energies hold for any positive stiffnesses. |
| ContactDynamics.IdenticalMaterialsAgree | src/Smith2018ArticularContactForce.cpp:454-495 | With the same material on both sides, the lumped and variable linear models agree on pressure and energy. |
| ContactDynamics.LinearDynamicsNonNegative | src/Smith2018ArticularContactForce.cpp:437-495 | Under a linear formulation with non-negative area, pressure and energy are never negative, and the pressure is positive in contact. |
| ContactDynamics.MeshDynamics | src/Smith2018ArticularContactForce.cpp:437-534 | One pressure, energy and force per casting triangle. Each triangle's pressure and energy are those of its own computation, so non-contacting triangles get zeros. Each force is the contact force vector along the negated normal. |
| ContactDynamics.DynamicsAt | src/Smith2018ArticularContactForce.cpp:438-451 | A triangle out of contact gets zero pressure and energy whatever target triangle it records; in contact its pressure and energy are the triangle computation applied to its own material and that of its recorded target triangle. |
| ContactDynamics.TriangleForceIsContactForce | src/Smith2018ArticularContactForce.cpp:529-534 | The force loop of the pressure stage equals the force vector of the statistics taken along -normal. |
| ContactDynamics.ForceOpposesNormal | src/Smith2018ArticularContactForce.cpp:531-532 | In contact, with positive area, a triangle's force points against its normal: the dot product is negative. |
| ContactDynamics.PotentialEnergyNonNegative | src/Smith2018ArticularContactForce.cpp:842-851 | The potential energy, summed over the triangle energies, is non-negative when every triangle energy is. |
| ContactDynamics.PotentialEnergy | src/Smith2018ArticularContactForce.cpp:842-851 | The potential energy is 0 when every triangle energy is 0, for instance when no triangle is in contact. |
| ContactDynamics.ContactForceVector | src/Smith2018ArticularContactForce.cpp:853-858 | The force is the given direction scaled by pressure × area, so it is parallel to that direction: their cross product is zero. |
| ContactDynamics.ContactMomentVector | src/Smith2018ArticularContactForce.cpp:860-867 | The moment is perpendicular to both the force direction and the centre it is taken about. |
| ContactDynamics.AppliedForces | src/Smith2018ArticularContactForce.cpp:643-656 | Two forces are applied per casting triangle, in order. Entry 2i is triangle i's force expressed in ground, applied to the casting body. Entry 2i+1 is its negation, applied to the target body. |
| ContactDynamics.AppliedForcesBalance | src/Smith2018ArticularContactForce.cpp:643-656 | Every casting force is paired with its negation on the target body, so the applied forces sum to zero. |
| ContactStatistics.Gather | src/Smith2018ArticularContactForce.cpp:906-917 | The subset's sample k holds area, normal, centre, proximity and pressure of triangle triIndices[k]. |
| ContactStatistics.ComputeContactStats | src/Smith2018ArticularContactForce.cpp:881-1001 | The contacting count is at most the subset size, and zero exactly when no listed triangle has positive pressure. The mean pressure and mean proximity are absent exactly when nothing contacts. The maximum pressure and proximity bound every listed triangle's absolute value. With non-negative areas the contact area is non-negative. |
| ContactStatistics.ContactStatsValues | src/Smith2018ArticularContactForce.cpp:903-991 | The values, as sums over the listed triangles. The count and contact area run over the triangles with positive pressure. The mean pressure and mean proximity divide the sums over all listed triangles by the contacting count. The centres of pressure and proximity are the centres weighted by pressure (or proximity) times area, over the sum of those weights. |
| ContactStatistics.Mean | src/Smith2018ArticularContactForce.cpp:932-934 | The mean is absent exactly when no triangle contacts. Otherwise it times the contacting count gives the sum. |
| ContactStatistics.Center | src/Smith2018ArticularContactForce.cpp:951-991 | A weighted centre is absent exactly when the weights sum to zero. Otherwise, scaled by the weight sum, it gives the weighted sum of centres. |
| ContactStatistics.SampleStatsBounds | src/Smith2018ArticularContactForce.cpp:912-949 | The contacting count is at most the subset size. The contact area lies between 0 and the subset's total area. The maximum pressure and proximity bound every triangle's absolute value, and the maximum pressure is attained (0 for an empty subset). The mean pressure is absent exactly when nothing contacts. |
| ContactStatistics.StatsAdditive | src/Smith2018ArticularContactForce.cpp:912-999 | For concatenated index lists, counts, contact area, force and moment add up, and the maxima take the larger of the two. |
| ContactStatistics.ForceAndMomentFromTriangleForces | src/Smith2018ArticularContactForce.cpp:994-999 | The statistics' force is the sum of the pressure stage's triangle forces over the subset. The moment is the sum of force × centre, force first. |
| ContactStatistics.RegionalAreaIsAreaOfUnion | src/Smith2018ArticularContactForce.cpp:939-947 | The regional contact areas add up to the contact area of the concatenated regions. |
| ContactStatistics.SumByPermutation | src/Smith2018ArticularContactForce.cpp:906-917 | A sum over a subset does not depend on the order of its indices. |
| ContactStatistics.RegionsPartitionContactArea | src/Smith2018ArticularContactForce.cpp:939-947 | When the regions' indices are a rearrangement of the whole-mesh index list, the regional contact areas add up to the whole-mesh contact area. |
| JointMechanics.LastMatchingColumn | src/JointMechanicsTool.cpp:230-242 | The reference definition: the last column whose '/'-pieces contain the coordinate name and end in "value" or in that name; -1 when none does. |
| JointMechanics.CoordinateColumnMap | src/JointMechanicsTool.cpp:227-242 | The labels-outer, coordinates-inner double loop leaves each coordinate mapped to its last matching column, or -1. |
| JointMechanics.CoordinateValues | src/JointMechanicsTool.cpp:244-263 | Each coordinate gets one value per frame. An unmatched coordinate is all zeros. |
| JointMechanics.CoordinateValuesDistinctLabels | src/JointMechanicsTool.cpp:254-259 | With distinct labels, a matched coordinate's values are exactly its column's first frames. |
| JointMechanics.FindForce | src/JointMechanicsTool.cpp:387 | Lookup by absolute path: a result is a force with that path. No result means no force has that path. |
| JointMechanics.LookupForces | src/JointMechanicsTool.cpp:385-414 | Every listed path is found in order. Failure happens exactly when some listed path names no force, and the error is the first such path. |
| JointMechanics.SetupContactStorage | src/JointMechanicsTool.cpp:361-415 | The storage is empty when the model has no contact force, or the contact list is empty or starts with "none". Setup fails exactly when a list that is not "all" names a missing path. The error is then the first listed contact that names no force. |
| JointMechanics.SetupRegistersSelection | src/JointMechanicsTool.cpp:368-414 | After a successful setup, the force names and paths are the selected forces' own, in order. No mesh name repeats. Every selected force's casting and target meshes are listed, and only those. |
| JointMechanics.SelectionIsRequested | src/JointMechanicsTool.cpp:368-414 | "all" selects every force. Otherwise the selection is the listed forces, in the listed order. |
| JointMechanics.RegisterKeepsInvariant | src/JointMechanicsTool.cpp:378-385 | Registering forces keeps the mesh names and paths parallel and free of repeated names. |
| JointMechanics.ParseOutputName | src/JointMechanicsTool.cpp:1094-1108 | A name parses exactly when it contains an underscore. The parsed mesh type and data type contain no underscore. |
| JointMechanics.ParseComposed | src/JointMechanicsTool.cpp:1094-1108 | Parsing `<mesh>_<data type>_<data name>` recovers the three parts when mesh and data type contain no underscore. The data name may contain underscores. |
| JointMechanics.ComposeParsed | src/JointMechanicsTool.cpp:1094-1108 | A name with at least three '_'-pieces is recomposed exactly from its parsed parts. |
| JointMechanics.ParsedNameStartsWithMeshType | src/JointMechanicsTool.cpp:1096-1110 | A parsed name begins with its mesh type followed by '_'. |
| JointMechanics.MeshRoleOf | src/JointMechanicsTool.cpp:1083-1092 | A force that does not connect the mesh is skipped. When the mesh is both casting and target, the casting role wins. |
| JointMechanics.CollectMeshContactOutputData | src/JointMechanicsTool.cpp:1063-1189 | Names and matrices stay parallel. A mesh that no contact force connects gets no triangle data at all. |
| JointMechanics.PerForceEntryPresent | src/JointMechanicsTool.cpp:1072-1118 | Each force touching the mesh gets an entry `<output>_<force>` for every requested triangle output routed to the force's role on the mesh. |
| JointMechanics.PerForceEntryValue | src/JointMechanicsTool.cpp:1072-1118 | Under `NoCollision` and distinct per-force entry names, the entry `<output>_<force>` holds exactly that force's values for the output. |
| JointMechanics.CollectOutputsHolds | src/JointMechanicsTool.cpp:1094-1130 | One force's pass over the requested outputs adds its value into the combined entry of a requested triangle output routed to its role, and leaves that entry alone otherwise. |
| JointMechanics.CombinedEntryIsSum | src/JointMechanicsTool.cpp:1072-1130 | The combined entry of a requested triangle output is the left-to-right sum of the values of the forces touching the mesh in that output's role. It is absent when no force contributes. |
| JointMechanics.PropertiesListedOnce | src/JointMechanicsTool.cpp:1132-1187 | Each property matrix (thickness, elastic modulus, Poisson's ratio, area) appears at most once. Thickness and area appear exactly when requested by key or by "all" and some force connects the mesh. |
| JointMechanics.AddPropertiesPropertyNamesUnique | src/JointMechanicsTool.cpp:1132-1187 | Adding properties for a further force never repeats a property matrix. Thickness is present afterwards exactly when it was before or was requested, and likewise for area. |
| JointMechanics.TriangleOutputRolePrefixed | src/JointMechanicsTool.cpp:1112-1128 | Triangle entries routed to a mesh, per-force or combined, start with "casting_" or "target_". They can therefore never be mistaken for a property matrix. |
| ComakInverseKinematics.ResolveName | src/COMAKInverseKinematicsTool.cpp:113-126 | The reference definition: a name resolves to the path of the first coordinate bearing it, as the first rewrite leaves a path that no later name matches. Without a bearer the name stays as given. The result is either the name itself or some coordinate's path. |
| ComakInverseKinematics.ResolveNth | src/COMAKInverseKinematicsTool.cpp:113-126 | The reference for repeated names: the j-th bearer (counting from 0) of a name gives its path. With j or fewer bearers the name stays as given. |
| ComakInverseKinematics.RewriteCoupled | src/COMAKInverseKinematicsTool.cpp:113-121 | The coupled coordinate after the walk over the model coordinates is either unchanged or some coordinate's path. |
| ComakInverseKinematics.RewriteSecondary | src/COMAKInverseKinematicsTool.cpp:113-126 | The walk keeps the list's length. Every entry afterwards is either unchanged or some coordinate's path. |
| ComakInverseKinematics.RewriteCoupledResolves | src/COMAKInverseKinematicsTool.cpp:113-121 | With coordinate names that are not paths, the rewriting walk turns the coupled coordinate's name into the path of the first coordinate bearing it. This holds even when several coordinates share the name. |
| ComakInverseKinematics.RewriteSecondaryResolves | src/COMAKInverseKinematicsTool.cpp:113-126 | With coordinate names that are not paths, the j-th occurrence of a name in the secondary list becomes the path of the j-th coordinate bearing that name. `findIndex` picks the first entry still holding the name, so occurrences beyond the number of bearers keep the name. |
| ComakInverseKinematics.RewriteSecondaryDistinct | src/COMAKInverseKinematicsTool.cpp:113-126 | With coordinate names that are not paths and a duplicate-free secondary list, every entry is rewritten to the path of the first coordinate bearing its name. |
| ComakInverseKinematics.CheckSecondary | src/COMAKInverseKinematicsTool.cpp:137-149 | No error exactly when every secondary entry names a coordinate and occurs at most once. An error is the first offending entry's: "not found" when it names no coordinate, otherwise "listed multiple times". Every entry before it is fine. |
| ComakInverseKinematics.SecondaryIndices | src/COMAKInverseKinematicsTool.cpp:163-173 | Each secondary entry's index is the position of the last model coordinate with its path. Only the first entry of a path is filled. |
| ComakInverseKinematics.ValidateCoordinates | src/COMAKInverseKinematicsTool.cpp:112-173 | A coupled coordinate missing after rewriting fails. Validation fails exactly when the coupled coordinate or a secondary entry is missing or an entry repeats. On success, the paths are the rewritten list without duplicates, and each index points at a coordinate with that path whose name is recorded. Past the coupled check, the error is the rewritten path of the first secondary entry that is missing or repeats. |
| ComakInverseKinematics.CountOnceNoDuplicates | src/COMAKInverseKinematicsTool.cpp:145-148 | An occurrence count of at most one per entry means the list has no duplicates. |
| ComakInverseKinematics.DegToRad | src/COMAKInverseKinematicsTool.cpp:264-270 | Radians times 180 equal degrees times pi. |
| ComakInverseKinematics.CoupledValueFacts | src/COMAKInverseKinematicsTool.cpp:264-275 | A translational coordinate's value passes through unchanged. A rotational one converts back to the given degrees, and 180 degrees is pi. |
| ComakInverseKinematics.SweepCoefficients | src/COMAKInverseKinematicsTool.cpp:377-389 | No sweep exists exactly when the sweep time is zero, where the source divides by zero. |
| ComakInverseKinematics.SweepEndpoints | src/COMAKInverseKinematicsTool.cpp:377-391 | The sweep passes through the start value at time 0 with zero slope, and reaches the stop value after the sweep time. |
| ComakInverseKinematics.MinOf | src/COMAKInverseKinematicsTool.cpp:479 | The minimum is one of the values and bounds all of them from below. |
| ComakInverseKinematics.MaxOf | src/COMAKInverseKinematicsTool.cpp:478 | The maximum is one of the values and bounds all of them from above. |
| ComakInverseKinematics.CoupledGrid | src/COMAKInverseKinematicsTool.cpp:478-489 | A grid of npts points, absent exactly when there is no tracked value. |
| ComakInverseKinematics.GridSpansRange | src/COMAKInverseKinematicsTool.cpp:481-489 | The grid starts at the minimum and strictly increases. It stays in [min, max), and its last point plus one step is the maximum. |
| ComakInverseKinematics.IkTimeWindow | src/COMAKInverseKinematicsTool.cpp:655-663 | The window is the intersection of the marker range and the requested range: each end is one of the two candidates and lies inside both. It fails exactly when the two ranges do not overlap or one is reversed. |
| ComakInverseKinematics.IkTimeWindowInsideMarkers | src/COMAKInverseKinematicsTool.cpp:655-659 | A requested range inside the marker data is kept unchanged. |
| ComakInverseKinematics.MarkerErrors | src/COMAKInverseKinematicsTool.cpp:704-718 | The total is the sum of squared errors. The worst marker is -1 exactly when no error is positive, and then the maximum is 0. Otherwise the worst is the first marker attaining the maximum, which bounds every error. |
| ComakInverseKinematics.MeanSquared | src/COMAKInverseKinematicsTool.cpp:716 | The mean squared error times the marker count is the total, and it is 0 without markers. |
| Forsim.StartStopTimes | src/ForsimTool.cpp:217-266 | Set times are kept. With a time unset: no input file fails, and two files with different time ranges fail. Otherwise the unset time comes from the coordinates file first, then the actuator file. |
| Forsim.StartStopAgrees | src/ForsimTool.cpp:222-266 | The source's -2 stand-in for a missing file agrees with the presence-based decision whenever no table starts or ends at time -2. |
| Forsim.StartStopStandInCollision | src/ForsimTool.cpp:229-244 | An actuator table starting at time -2 is taken for a missing file by the code as written, but yields its time range under the corrected decision. |
| Forsim.RouteOfLabel | src/ForsimTool.cpp:280-319 | A column is routed to force, activation or control exactly when the last '_'-piece of its label is "frc", "act" or "control". |
| Forsim.ActuatorPath | src/ForsimTool.cpp:283-324 | A label without "_<suffix>" is kept whole. Otherwise the first occurrence of "_<suffix>" is cut out of it. |
| Forsim.RoutedLabelEndsWithSuffix | src/ForsimTool.cpp:283-321 | A routed label ends with "_<suffix>". When that is its only occurrence, erasing it leaves the actuator path, which recomposes the label. |
| Forsim.RouteOne | src/ForsimTool.cpp:282-343 | A label fails exactly when its actuator is missing, or for "act" is not a Millard muscle. The error is then `MuscleNotFound` for an activation and `ActuatorNotFound` otherwise, naming the path. On success only the matching list gains the path. |
| Forsim.RouteLabelsFails | src/ForsimTool.cpp:279-345 | Routing fails exactly when some routed label does not resolve. |
| Forsim.RouteLabelsFirstError | src/ForsimTool.cpp:279-345 | A failed routing reports the error of the first label that does not resolve. Every earlier label resolves. |
| Forsim.RouteLabelsLists | src/ForsimTool.cpp:279-345 | A successful routing lists the force, activation and control paths of the labels in label order. |
| Forsim.RoutedPathsExist | src/ForsimTool.cpp:282-343 | Every prescribed path names an actuator of the model, and every activation path a Millard muscle. |
| Forsim.ConstantMuscleForces | src/ForsimTool.cpp:377-398 | The loop agrees with the reference walk `ConstantForces` for any rule giving the force's value. With a multiplier of -1 or less nothing is added. Otherwise every muscle ends up prescribed by force, activation or control. Each appended entry is a muscle not prescribed before, and its force is the rule's value for a muscle of that path. The existing force list is kept as a prefix, and a duplicate-free list stays duplicate-free. |
| Forsim.AsWrittenIgnoresMultiplier | src/ForsimTool.cpp:394-398 | As written, every constant force takes the default-constructed value. This holds whatever the multiplier and the muscles' maximum isometric forces. |
| Forsim.AsWrittenDiffersFromIntended | src/ForsimTool.cpp:394-398 | Take one unprescribed muscle with maximum isometric force 1000 and multiplier 0.5. The intended force is 500, but the installed force is the default. |
| Forsim.IntendedForceScales | src/ForsimTool.cpp:394 | Corrected: each constant force is the multiplier times the maximum isometric force of a muscle of its path. |
| HelperFunctions.JoinSplit | src/JointMechanicsTool.cpp:1096-1108 | Re-joining the '_'-pieces of a string restores it. This is what makes the data name of an output recoverable. |

## Left out

- Geometry is abstracted by the `RayOracle`, because it is foreign mesh code:
  - the casting-to-target frame transform;
  - ray–triangle and OBB-tree intersection;
  - triangle centres, normals and areas;
  - the neighbour sets.

  The search visits neighbours in the oracle's order; in `computeMeshProximity` that order is a `std::set`'s ascending order. The full-mesh search is assumed to honour the proximity window (`WellFormed`).
- The nonlinear contact models are represented only through their parameters: the closed forms call the supplied `ln`/`exp` and the `calcTrianglePressureVariableNonlinearModel` root finder (Levenberg–Marquardt, floating point).
- The cache-variable and stage machinery (`isCacheVariableValid`, realize calls) is left out. Each computation is modelled as a function of its inputs.
- `applyForceToPoint` and the body spatial forces are reduced to the list of applied force vectors, with the frame rotation as a parameter.
- File I/O, table loading, splines (GCVSpline, SimmSpline), integrators, the settling simulation, and the solvers (IK, COMAK) are left out.
- The vertex outputs are left out, as is the copying of model properties into matrices beyond their names.
- `getNearestRowIndexForTime` and all printing are left out.
- `getComponent` by relative path is not modelled: components are looked up by absolute path only.
- COMAKTool.h is not part of this model.
- ContactDynamics.TriangleDynamics: this assumes the materials a contacting triangle reads are physical (h > 0, E > 0, -1 < nu < 1/2), via `DynamicsReady`. The source would divide by zero otherwise.
- ContactProximity.ComputeMeshProximity: proximities are reset to 0 at the start of every pass, as the code does.
- JointMechanics.ParseOutputName: a name with fewer than two '_'-pieces yields none and is skipped. The source reads past the end of the split there.
- HelperFunctions.Split: splitting is on every occurrence of the delimiter, keeping empty and trailing pieces, since the helper's definition is not part of this model.
- HelperFunctions.EraseSubString: erasing removes the first occurrence of the substring, since the helper's definition is not part of this model.
- Forsim.RoutedLabelEndsWithSuffix: this states the recomposition only when the suffix occurs once. For a label with an earlier occurrence, erasing the first one is not the intended path.
- JointMechanics.CoordinateValues: this reads the column under the first label equal to the matched one, as a lookup by label does. `CoordinateValuesDistinctLabels` states the intended reading only for distinct labels.
- JointMechanics.CombinedEntryIsSum: this is stated under `NoCollision`, where no per-force name `<output>_<force>` equals a requested output name. It is also stated for duplicate-free output lists. Outside these, the source's first-match lookup can add into a per-force entry.
- JointMechanics.PerForceEntryValue: the value of a per-force entry is stated only under `NoCollision` and `PerForceNamesDistinct`. Where two forces or outputs build the same entry name, or a requested output name repeats one, the source's first-match lookup can add other values into it. Its presence is stated without conditions (PerForceEntryPresent).
- ComakInverseKinematics.SweepCoefficients: this computes a = (Py - Vy) / T / T. Over the reals this equals the source's division by the square. Floating-point rounding is not modelled.
- ComakInverseKinematics.MeanSquared: this models the value under the square root only. The RMS and the square root of the maximum are left out (floating-point `sqrt`).
- ContactStatistics.Mean: when nothing contacts, the mean is absent, and likewise a centre with zero weight. The source divides by zero there and stores NaN or infinity.
- ContactDynamics.ContactMomentVector: the moment is force × centre in that order, as in the source. Whether the authors meant centre × force is not decided here.
- The value of a default-constructed `Constant` (`Forsim.AsWrittenRule`) is a parameter, since its definition is not part of this model.
- The per-frame loops of the tools (reporting, storing) are left out. The model covers what one frame or one setup computes.

## Findings

| source | as written | input that shows it | evidently intended | confidence | as-written member | corrected member |
|---|---|---|---|---|---|---|
| src/ForsimTool.cpp:377-398 | the constant muscle force computes the multiplier times the maximum isometric force into `const_frc` and never uses it; the installed force function is a default-constructed `Constant`, and the simulation loop (lines 174-179) applies its value | one unprescribed muscle with maximum isometric force 1000 and multiplier 0.5 | a `Constant` of value `const_frc`, i.e. 500 | medium; not executed | Forsim.AsWrittenIgnoresMultiplier (shown by Forsim.AsWrittenDiffersFromIntended) | Forsim.IntendedForceScales (the walk Forsim.ConstantMuscleForces with Forsim.IntendedRule) |
| src/ForsimTool.cpp:222-244 | "no input file" is encoded by the time value -2, so a file whose time column starts at -2 counts as absent | start and stop unset, actuator file with times [-2, 1], no coordinates file: the code throws "No actuator_input_file or prescribed_coordinates_files defined" | test for the presence of the files, not for the value -2 | low; not executed | Forsim.StartStopAsWritten (shown by Forsim.StartStopStandInCollision) | Forsim.StartStopTimes (agreement elsewhere: Forsim.StartStopAgrees) |
