/**
 * The bookkeeping of the joint-mechanics analysis tool:
 *  - which column of the states file feeds each coordinate
 *    (`readStatesFromFile`);
 *  - which contact forces and contact meshes are reported, meshes listed
 *    once each (`setupContactStorage`);
 *  - how per-force triangle outputs are named, routed to the casting or the
 *    target mesh, and accumulated into one combined entry per output
 *    (`collectMeshContactOutputData`).
 */
module JointMechanics {

  import opened Wrappers
  import opened HelperFunctions

  // ---------------------------------------------------------------------
  // States file: column map and coordinate values

  /** A column label feeds a coordinate when one of its `/`-pieces is the
      coordinate's name and its last piece is `value` or that name. */
  predicate LabelMatches(columnLabel: string, coord: string) {
    var parts := Split(columnLabel, '/');
    coord in parts && (Last(parts) == "value" || Last(parts) == coord)
  }

  /** Reference definition: the last matching column, -1 when none does. */
  function LastMatchingColumn(labels: seq<string>, coord: string): (r: int)
    ensures -1 <= r < |labels|
    ensures r >= 0 ==> LabelMatches(labels[r], coord)
    ensures forall k :: r < k < |labels| ==> !LabelMatches(labels[k], coord)
    decreases |labels|
  {
    if |labels| == 0 then -1
    else if LabelMatches(labels[|labels| - 1], coord) then |labels| - 1
    else LastMatchingColumn(labels[..|labels| - 1], coord)
  }

  /** The double loop of `readStatesFromFile`: labels outside, coordinates
      inside, a later match overwriting an earlier one. */
  method CoordinateColumnMap(labels: seq<string>, coords: seq<string>) returns (colMap: seq<int>)
    ensures |colMap| == |coords|
    ensures forall j :: 0 <= j < |coords| ==> colMap[j] == LastMatchingColumn(labels, coords[j])
  {
    colMap := seq(|coords|, _ => -1);
    for i := 0 to |labels|
      invariant |colMap| == |coords|
      invariant forall j :: 0 <= j < |coords| ==> colMap[j] == LastMatchingColumn(labels[..i], coords[j])
    {
      var parts := Split(labels[i], '/');
      assert labels[..i + 1][..i] == labels[..i];
      for j := 0 to |coords|
        invariant |colMap| == |coords|
        invariant forall k :: 0 <= k < j ==> colMap[k] == LastMatchingColumn(labels[..i + 1], coords[k])
        invariant forall k :: j <= k < |coords| ==> colMap[k] == LastMatchingColumn(labels[..i], coords[k])
      {
        assert LastMatchingColumn(labels[..i + 1], coords[j]) ==
          if LabelMatches(labels[i], coords[j]) then i else LastMatchingColumn(labels[..i], coords[j]);
        if coords[j] in parts && (Last(parts) == "value" || Last(parts) == coords[j]) {
          colMap := colMap[j := i];
        }
      }
    }
    assert labels[..|labels|] == labels;
  }

  /** Every column holds at least `nFrames` values, one column per label. */
  predicate ColumnsCover(labels: seq<string>, columns: seq<seq<real>>, nFrames: nat) {
    |columns| == |labels| && forall c :: 0 <= c < |columns| ==> |columns[c]| >= nFrames
  }

  /** One coordinate's values over the frames: zero when no column matches,
      otherwise the data fetched by the matched column's label, which is the
      first column carrying that label. */
  function CoordinateValues(labels: seq<string>, columns: seq<seq<real>>, coord: string, nFrames: nat): (q: seq<real>)
    requires ColumnsCover(labels, columns, nFrames)
    ensures |q| == nFrames
    ensures LastMatchingColumn(labels, coord) == -1 ==> forall i :: 0 <= i < nFrames ==> q[i] == 0.0
  {
    var c := LastMatchingColumn(labels, coord);
    if c == -1 then seq(nFrames, _ => 0.0)
    else columns[IndexOf(labels, labels[c])][..nFrames]
  }

  /** With distinct labels the values are exactly the matched column's. */
  lemma CoordinateValuesDistinctLabels(labels: seq<string>, columns: seq<seq<real>>, coord: string, nFrames: nat)
    requires ColumnsCover(labels, columns, nFrames) && NoDuplicates(labels)
    requires LastMatchingColumn(labels, coord) >= 0
    ensures CoordinateValues(labels, columns, coord, nFrames) == columns[LastMatchingColumn(labels, coord)][..nFrames]
  {
    var c := LastMatchingColumn(labels, coord);
    assert labels[c] !in labels[..c];
    IndexOfUnique(labels, labels[c], c);
  }

  // ---------------------------------------------------------------------
  // Contact storage

  /** A contact force with the names and absolute paths of its two meshes. */
  datatype ContactForce = ContactForce(
    name: string, path: string,
    castingName: string, castingPath: string,
    targetName: string, targetPath: string)

  datatype ContactStorage = ContactStorage(
    forceNames: seq<string>, forcePaths: seq<string>,
    meshNames: seq<string>, meshPaths: seq<string>)

  const NoStorage := ContactStorage([], [], [], [])

  /** Name and path lists stay parallel and no mesh name repeats. */
  predicate StorageInvariant(s: ContactStorage) {
    && |s.forceNames| == |s.forcePaths|
    && |s.meshNames| == |s.meshPaths|
    && NoDuplicates(s.meshNames)
  }

  /** The force registered under `path` (absolute path lookup). */
  function FindForce(forces: seq<ContactForce>, path: string): (r: Option<ContactForce>)
    ensures r.Some? ==> r.value in forces && r.value.path == path
    ensures r.None? <==> forall k :: 0 <= k < |forces| ==> forces[k].path != path
  {
    if |forces| == 0 then None
    else if forces[0].path == path then Some(forces[0])
    else
      var r := FindForce(forces[1..], path);
      assert forall k :: 1 <= k < |forces| ==> forces[k] == forces[1..][k - 1];
      r
  }

  /** `e` is the first of the paths that names no force. */
  predicate FirstMissing(forces: seq<ContactForce>, paths: seq<string>, e: string) {
    exists i :: 0 <= i < |paths| && paths[i] == e && FindForce(forces, paths[i]).None?
      && (forall j :: 0 <= j < i ==> FindForce(forces, paths[j]).Some?)
  }

  /** Looks up every listed path in order; the first missing one is the error. */
  function LookupForces(forces: seq<ContactForce>, paths: seq<string>): (r: Result<seq<ContactForce>, string>)
    ensures r.Success? ==> |r.value| == |paths|
    ensures r.Success? ==> forall i :: 0 <= i < |paths| ==> r.value[i] in forces && r.value[i].path == paths[i]
    ensures r.Failure? <==> exists i :: 0 <= i < |paths| && FindForce(forces, paths[i]).None?
    ensures r.Failure? ==> r.error in paths && forall k :: 0 <= k < |forces| ==> forces[k].path != r.error
    ensures r.Failure? ==> FirstMissing(forces, paths, r.error)
  {
    if |paths| == 0 then Success([])
    else match FindForce(forces, paths[0])
      case None =>
        assert paths[0] == paths[0] && FindForce(forces, paths[0]).None?;
        Failure(paths[0])
      case Some(f) =>
        var rest := LookupForces(forces, paths[1..]);
        assert forall i :: 1 <= i < |paths| ==> paths[i] == paths[1..][i - 1];
        match rest
        case Failure(e) =>
          var i :| 0 <= i < |paths[1..]| && paths[1..][i] == e && FindForce(forces, paths[1..][i]).None?
            && (forall j :: 0 <= j < i ==> FindForce(forces, paths[1..][j]).Some?);
          assert paths[i + 1] == e && FindForce(forces, paths[i + 1]).None?;
          assert forall j :: 0 <= j < i + 1 ==> FindForce(forces, paths[j]).Some?;
          Failure(e)
        case Success(fs) => Success([f] + fs)
  }

  /** Adds a mesh unless one with the same name is already listed. */
  function AddMesh(s: ContactStorage, name: string, path: string): ContactStorage {
    if name in s.meshNames then s
    else s.(meshNames := s.meshNames + [name], meshPaths := s.meshPaths + [path])
  }

  function AddForce(s: ContactStorage, f: ContactForce): ContactStorage {
    var s1 := s.(forceNames := s.forceNames + [f.name], forcePaths := s.forcePaths + [f.path]);
    AddMesh(AddMesh(s1, f.castingName, f.castingPath), f.targetName, f.targetPath)
  }

  function RegisterForces(s: ContactStorage, fs: seq<ContactForce>): ContactStorage
    decreases |fs|
  {
    if |fs| == 0 then s else AddForce(RegisterForces(s, fs[..|fs| - 1]), fs[|fs| - 1])
  }

  /** `setupContactStorage`: nothing when the model has no contact force or
      the first listed contact is missing or `none`; every force for `all`;
      otherwise each listed path, failing on the first one not found. */
  function SetupContactStorage(forces: seq<ContactForce>, contacts: seq<string>): (r: Result<ContactStorage, string>)
    ensures |forces| == 0 || |contacts| == 0 || contacts[0] == "none" ==> r == Success(NoStorage)
    ensures r.Failure? <==>
      |forces| > 0 && |contacts| > 0 && contacts[0] != "none" && contacts[0] != "all"
      && exists i :: 0 <= i < |contacts| && FindForce(forces, contacts[i]).None?
    // the error names the first listed contact that is not found
    ensures r.Failure? ==> FirstMissing(forces, contacts, r.error)
  {
    if |forces| == 0 then Success(NoStorage)
    else if |contacts| == 0 || contacts[0] == "none" then Success(NoStorage)
    else if contacts[0] == "all" then Success(RegisterForces(NoStorage, forces))
    else match LookupForces(forces, contacts)
      case Failure(e) => Failure(e)
      case Success(fs) => Success(RegisterForces(NoStorage, fs))
  }

  lemma AddMeshKeepsInvariant(s: ContactStorage, name: string, path: string)
    requires StorageInvariant(s)
    ensures StorageInvariant(AddMesh(s, name, path))
  {
  }

  lemma {:induction false} RegisterKeepsInvariant(s: ContactStorage, fs: seq<ContactForce>)
    requires StorageInvariant(s)
    ensures StorageInvariant(RegisterForces(s, fs))
    decreases |fs|
  {
    if |fs| > 0 {
      var f := fs[|fs| - 1];
      RegisterKeepsInvariant(s, fs[..|fs| - 1]);
      var s0 := RegisterForces(s, fs[..|fs| - 1]);
      var s1 := s0.(forceNames := s0.forceNames + [f.name], forcePaths := s0.forcePaths + [f.path]);
      AddMeshKeepsInvariant(s1, f.castingName, f.castingPath);
      AddMeshKeepsInvariant(AddMesh(s1, f.castingName, f.castingPath), f.targetName, f.targetPath);
    }
  }

  /** Registered force names and paths are the selection's, in order. */
  lemma {:induction false} RegisterListsForces(fs: seq<ContactForce>)
    ensures |RegisterForces(NoStorage, fs).forceNames| == |fs|
    ensures |RegisterForces(NoStorage, fs).forcePaths| == |fs|
    ensures forall i :: 0 <= i < |fs| ==>
      RegisterForces(NoStorage, fs).forceNames[i] == fs[i].name && RegisterForces(NoStorage, fs).forcePaths[i] == fs[i].path
    decreases |fs|
  {
    if |fs| > 0 {
      RegisterListsForces(fs[..|fs| - 1]);
    }
  }

  /** Both meshes of every registered force are listed. */
  predicate MeshesListed(s: ContactStorage, fs: seq<ContactForce>) {
    forall i :: 0 <= i < |fs| ==> fs[i].castingName in s.meshNames && fs[i].targetName in s.meshNames
  }

  /** Every listed mesh is the casting or the target mesh of some registered
      force, with that force's path for it. */
  predicate FromSomeForce(name: string, path: string, fs: seq<ContactForce>) {
    exists i :: 0 <= i < |fs| && ConnectsMesh(fs[i], name, path)
  }

  predicate ConnectsMesh(f: ContactForce, name: string, path: string) {
    (f.castingName == name && f.castingPath == path) || (f.targetName == name && f.targetPath == path)
  }

  predicate MeshesFromForces(s: ContactStorage, fs: seq<ContactForce>)
    requires |s.meshNames| == |s.meshPaths|
  {
    forall k :: 0 <= k < |s.meshNames| ==> FromSomeForce(s.meshNames[k], s.meshPaths[k], fs)
  }

  lemma {:induction false} RegisterListsAllMeshes(fs: seq<ContactForce>)
    ensures MeshesListed(RegisterForces(NoStorage, fs), fs)
    decreases |fs|
  {
    if |fs| > 0 {
      var n := |fs| - 1;
      RegisterListsAllMeshes(fs[..n]);
      var s0 := RegisterForces(NoStorage, fs[..n]);
      var s := RegisterForces(NoStorage, fs);
      assert forall k :: k in s0.meshNames ==> k in s.meshNames;
      assert forall i :: 0 <= i < n ==> fs[..n][i] == fs[i];
    }
  }

  lemma {:induction false} RegisterListsOnlyTheirMeshes(fs: seq<ContactForce>)
    ensures StorageInvariant(RegisterForces(NoStorage, fs))
    ensures MeshesFromForces(RegisterForces(NoStorage, fs), fs)
    decreases |fs|
  {
    RegisterKeepsInvariant(NoStorage, fs);
    if |fs| > 0 {
      var n := |fs| - 1;
      var f := fs[n];
      RegisterListsOnlyTheirMeshes(fs[..n]);
      var s0 := RegisterForces(NoStorage, fs[..n]);
      var s := RegisterForces(NoStorage, fs);
      assert s == AddForce(s0, f);
      forall k | 0 <= k < |s.meshNames| ensures FromSomeForce(s.meshNames[k], s.meshPaths[k], fs) {
        if k < |s0.meshNames| {
          assert s.meshNames[k] == s0.meshNames[k] && s.meshPaths[k] == s0.meshPaths[k];
          assert FromSomeForce(s0.meshNames[k], s0.meshPaths[k], fs[..n]);
          var i :| 0 <= i < n && ConnectsMesh(fs[..n][i], s0.meshNames[k], s0.meshPaths[k]);
          assert fs[..n][i] == fs[i];
        } else {
          assert ConnectsMesh(f, s.meshNames[k], s.meshPaths[k]);
        }
      }
    }
  }

  /** The forces a setup registers: all of them for `all`, otherwise the
      looked-up list. */
  function Selection(forces: seq<ContactForce>, contacts: seq<string>): seq<ContactForce>
    requires SetupContactStorage(forces, contacts).Success?
  {
    if |forces| == 0 || |contacts| == 0 || contacts[0] == "none" then []
    else if contacts[0] == "all" then forces
    else LookupForces(forces, contacts).value
  }

  /** A successful setup registers its selection: the invariant holds, the
      force lists are the selection's names and paths in order, and the mesh
      lists hold exactly the meshes those forces connect. */
  lemma SetupRegistersSelection(forces: seq<ContactForce>, contacts: seq<string>)
    requires SetupContactStorage(forces, contacts).Success?
    ensures var s := SetupContactStorage(forces, contacts).value;
      var fs := Selection(forces, contacts);
      && StorageInvariant(s)
      && |s.forcePaths| == |fs|
      && (forall i :: 0 <= i < |fs| ==> s.forceNames[i] == fs[i].name && s.forcePaths[i] == fs[i].path)
      && MeshesListed(s, fs) && MeshesFromForces(s, fs)
  {
    var fs := Selection(forces, contacts);
    assert SetupContactStorage(forces, contacts).value == RegisterForces(NoStorage, fs);
    RegisterListsForces(fs);
    RegisterListsAllMeshes(fs);
    RegisterListsOnlyTheirMeshes(fs);
  }

  /** The selection is every force for `all`, and otherwise the forces whose
      paths are listed, in the listed order. */
  lemma SelectionIsRequested(forces: seq<ContactForce>, contacts: seq<string>)
    requires SetupContactStorage(forces, contacts).Success?
    requires |forces| > 0 && |contacts| > 0 && contacts[0] != "none"
    ensures contacts[0] == "all" ==> Selection(forces, contacts) == forces
    ensures contacts[0] != "all" ==>
      && |Selection(forces, contacts)| == |contacts|
      && forall i :: 0 <= i < |contacts| ==> Selection(forces, contacts)[i] in forces && Selection(forces, contacts)[i].path == contacts[i]
  {
  }

  // ---------------------------------------------------------------------
  // Output names

  /** `<mesh type>_<data type>_<data name>`, the data name possibly holding
      further underscores. */
  datatype OutputName = OutputName(meshType: string, dataType: string, dataName: string)

  /** Splits an output name at `_`: the first piece is the mesh type, the
      second the data type, and the remaining pieces re-joined with `_` the
      data name (empty when there are only two pieces). A name without an
      underscore has no data type. */
  function ParseOutputName(name: string): (r: Option<OutputName>)
    ensures r.None? <==> '_' !in name
    ensures r.Some? ==> '_' !in r.value.meshType && '_' !in r.value.dataType
  {
    var parts := Split(name, '_');
    SplitPiecesFree(name, '_');
    JoinSplit(name, '_');
    if |parts| < 2 then None
    else Some(OutputName(parts[0], parts[1], if |parts| == 2 then "" else Join(parts[2..], '_')))
  }

  /** A parsable name contains an underscore. */
  lemma ParsedNameHasUnderscore(name: string)
    requires ParseOutputName(name).Some?
    ensures '_' in name
  {
    if '_' !in name {
      SplitNoDelimiter(name, '_');
    }
  }

  /** Parsing inverts composing from underscore-free mesh and data types. */
  lemma ParseComposed(meshType: string, dataType: string, dataName: string)
    requires '_' !in meshType && '_' !in dataType
    ensures ParseOutputName(meshType + "_" + dataType + "_" + dataName) == Some(OutputName(meshType, dataType, dataName))
  {
    var rest := Split(dataName, '_');
    SplitPiecesFree(dataName, '_');
    JoinSplit(dataName, '_');
    var parts := [meshType, dataType] + rest;
    assert parts[1..] == [dataType] + rest;
    assert parts[1..][1..] == rest;
    assert Join(parts, '_') == meshType + "_" + dataType + "_" + dataName;
    SplitJoin(parts, '_');
    assert parts[2..] == rest;
  }

  /** Composing inverts parsing when the name has a data name. */
  lemma ComposeParsed(name: string)
    requires |Split(name, '_')| >= 3
    ensures var o := ParseOutputName(name).value;
      && '_' !in o.meshType && '_' !in o.dataType
      && o.meshType + "_" + o.dataType + "_" + o.dataName == name
  {
    var parts := Split(name, '_');
    SplitPiecesFree(name, '_');
    JoinSplit(name, '_');
    assert parts[1..][1..] == parts[2..];
    assert Join(parts, '_') == parts[0] + "_" + Join(parts[1..], '_');
    assert Join(parts[1..], '_') == parts[1] + "_" + Join(parts[2..], '_');
  }

  predicate PrefixOf(p: string, s: string) {
    |p| <= |s| && s[..|p|] == p
  }

  /** A parsed name starts with its mesh type and an underscore. */
  lemma ParsedNameStartsWithMeshType(name: string)
    requires ParseOutputName(name).Some?
    ensures PrefixOf(ParseOutputName(name).value.meshType + "_", name)
  {
    var parts := Split(name, '_');
    JoinSplit(name, '_');
    assert Join(parts, '_') == parts[0] + "_" + Join(parts[1..], '_');
    assert name[..|parts[0]| + 1] == parts[0] + "_";
  }

  // ---------------------------------------------------------------------
  // Collecting triangle outputs for one mesh

  datatype MeshRole = Casting | Target

  function RoleName(r: MeshRole): string {
    match r
    case Casting => "casting"
    case Target => "target"
  }

  /** The role the mesh plays in a force; the casting role wins when the
      force connects the mesh to itself. */
  function MeshRoleOf(meshName: string, f: ContactForce): (r: Option<MeshRole>)
    ensures r.None? <==> meshName != f.castingName && meshName != f.targetName
    ensures r == Some(Target) ==> meshName == f.targetName && meshName != f.castingName
    ensures r == Some(Casting) ==> meshName == f.castingName
  {
    if meshName == f.castingName then Some(Casting)
    else if meshName == f.targetName then Some(Target)
    else None
  }

  /** Per-triangle material and geometry of the mesh, one matrix each. */
  datatype MeshProperties<T> = MeshProperties(thickness: T, elasticModulus: T, poissonsRatio: T, area: T)

  /** Triangle data names and matrices, kept parallel. */
  datatype TriData<T> = TriData(names: seq<string>, data: seq<T>)

  /** An output that is reported for a mesh in the given role. */
  predicate IsTriangleOutputFor(name: string, role: MeshRole) {
    match ParseOutputName(name)
    case None => false
    case Some(o) => o.meshType == RoleName(role) && o.dataType == "triangle"
  }

  /** Appends `<output>_<force>` with the force's values, then adds them to
      the first entry named `<output>`, creating it when missing. */
  function AddTriangleOutput<T>(acc: TriData<T>, output: string, forceName: string, v: T, add: (T, T) -> T): TriData<T>
    requires |acc.names| == |acc.data|
  {
    var acc1 := TriData(acc.names + [output + "_" + forceName], acc.data + [v]);
    var k := IndexOf(acc1.names, output);
    if k >= 0 then acc1.(data := acc1.data[k := add(acc1.data[k], v)])
    else TriData(acc1.names + [output], acc1.data + [v])
  }

  function AddOutput<T>(acc: TriData<T>, role: MeshRole, forceName: string, output: string, v: T, add: (T, T) -> T): TriData<T>
    requires |acc.names| == |acc.data|
  {
    if IsTriangleOutputFor(output, role) then AddTriangleOutput(acc, output, forceName, v, add) else acc
  }

  /** The loop over the requested vector outputs for one force. */
  function CollectOutputs<T>(acc: TriData<T>, role: MeshRole, forceName: string, outputs: seq<string>, row: seq<T>,
                             add: (T, T) -> T): (r: TriData<T>)
    requires |acc.names| == |acc.data| && |row| == |outputs|
    ensures |r.names| == |r.data|
    decreases |outputs|
  {
    if |outputs| == 0 then acc
    else
      var n := |outputs| - 1;
      AddOutput(CollectOutputs(acc, role, forceName, outputs[..n], row[..n], add), role, forceName, outputs[n], row[n], add)
  }

  /** Adds a property matrix when it is requested by its key or by `all`
      and no entry of that name exists yet. */
  function AddProperty<T>(acc: TriData<T>, selected: seq<string>, key: string, name: string, v: T): (r: TriData<T>)
    requires |acc.names| == |acc.data|
    ensures |r.names| == |r.data|
  {
    if (key in selected || "all" in selected) && name !in acc.names then TriData(acc.names + [name], acc.data + [v])
    else acc
  }

  function AddProperties<T>(acc: TriData<T>, selected: seq<string>, props: MeshProperties<T>): (r: TriData<T>)
    requires |acc.names| == |acc.data|
    ensures |r.names| == |r.data|
  {
    var a1 := AddProperty(acc, selected, "thickness", "triangle.thickness", props.thickness);
    var a2 := AddProperty(a1, selected, "elastic_modulus", "triangle.elastic_modulus", props.elasticModulus);
    var a3 := AddProperty(a2, selected, "poissons_ratio", "triangle.poissons_ratio", props.poissonsRatio);
    AddProperty(a3, selected, "area", "triangle.area", props.area)
  }

  /** What one force contributes: nothing when it does not touch the mesh. */
  function CollectForce<T>(acc: TriData<T>, meshName: string, f: ContactForce, outputs: seq<string>, row: seq<T>,
                           selected: seq<string>, props: MeshProperties<T>, add: (T, T) -> T): (r: TriData<T>)
    requires |acc.names| == |acc.data| && |row| == |outputs|
    ensures |r.names| == |r.data|
  {
    match MeshRoleOf(meshName, f)
    case None => acc
    case Some(role) => AddProperties(CollectOutputs(acc, role, f.name, outputs, row, add), selected, props)
  }

  /** Values are indexed by force, then by requested output. */
  predicate ValuesShaped<T>(forces: seq<ContactForce>, outputs: seq<string>, values: seq<seq<T>>) {
    |values| == |forces| && forall i :: 0 <= i < |values| ==> |values[i]| == |outputs|
  }

  /** `collectMeshContactOutputData` for the mesh named `meshName`. */
  function CollectMeshContactOutputData<T>(meshName: string, forces: seq<ContactForce>, outputs: seq<string>,
                                           values: seq<seq<T>>, selected: seq<string>, props: MeshProperties<T>,
                                           add: (T, T) -> T): (r: TriData<T>)
    requires ValuesShaped(forces, outputs, values)
    ensures |r.names| == |r.data|
    // a mesh that no force connects gets no outputs at all
    ensures !Touches(meshName, forces) ==> r == TriData([], [])
    decreases |forces|
  {
    if |forces| == 0 then TriData([], [])
    else
      var n := |forces| - 1;
      TouchesExtend(meshName, forces);
      var acc := CollectMeshContactOutputData(meshName, forces[..n], outputs, values[..n], selected, props, add);
      CollectForce(acc, meshName, forces[n], outputs, values[n], selected, props, add)
  }

  // ---------------------------------------------------------------------
  // The combined entry is the sum over the forces

  /** Accumulates an optional contribution. */
  function Combine<T>(e: Option<T>, c: Option<T>, add: (T, T) -> T): Option<T> {
    match c
    case None => e
    case Some(v) => if e.None? then Some(v) else Some(add(e.value, v))
  }

  /** The value force `f` contributes to the combined entry `output`. */
  function Contribution<T>(meshName: string, f: ContactForce, outputs: seq<string>, row: seq<T>, output: string): Option<T>
    requires |row| == |outputs|
  {
    match MeshRoleOf(meshName, f)
    case None => None
    case Some(role) =>
      if output in outputs && IsTriangleOutputFor(output, role) then Some(row[IndexOf(outputs, output)]) else None
  }

  /** Reference definition: the left-to-right sum of the contributions, none
      when no force contributes. */
  function ExpectedCombined<T>(meshName: string, forces: seq<ContactForce>, outputs: seq<string>, values: seq<seq<T>>,
                               output: string, add: (T, T) -> T): Option<T>
    requires ValuesShaped(forces, outputs, values)
    decreases |forces|
  {
    if |forces| == 0 then None
    else
      var n := |forces| - 1;
      Combine(ExpectedCombined(meshName, forces[..n], outputs, values[..n], output, add),
        Contribution(meshName, forces[n], outputs, values[n], output), add)
  }

  /** The entry named `output` is absent exactly when `e` is none, and
      otherwise holds `e`'s value. */
  ghost predicate Holds<T>(acc: TriData<T>, output: string, e: Option<T>) {
    && |acc.names| == |acc.data|
    && (match e
        case None => output !in acc.names
        case Some(v) => output in acc.names && acc.data[IndexOf(acc.names, output)] == v)
  }

  /** No per-force entry name equals a requested output name. */
  predicate NoCollision(forces: seq<ContactForce>, outputs: seq<string>) {
    forall i, a, b :: 0 <= i < |forces| && 0 <= a < |outputs| && 0 <= b < |outputs| ==>
      outputs[a] + "_" + forces[i].name != outputs[b]
  }

  lemma AppendKeepsHolds<T>(acc: TriData<T>, name: string, v: T, output: string, e: Option<T>)
    requires Holds(acc, output, e) && name != output
    ensures Holds(TriData(acc.names + [name], acc.data + [v]), output, e)
  {
    IndexOfAppend(acc.names, name, output);
  }

  lemma AddTriangleOutputHolds<T>(acc: TriData<T>, o: string, forceName: string, v: T, add: (T, T) -> T,
                                  output: string, e: Option<T>)
    requires Holds(acc, output, e) && o + "_" + forceName != output
    ensures Holds(AddTriangleOutput(acc, o, forceName, v, add), output, if o == output then Combine(e, Some(v), add) else e)
  {
    var acc1 := TriData(acc.names + [o + "_" + forceName], acc.data + [v]);
    AppendKeepsHolds(acc, o + "_" + forceName, v, output, e);
    IndexOfAppend(acc.names, o + "_" + forceName, o);
    var k := IndexOf(acc1.names, o);
    if k >= 0 {
      if o != output && output in acc1.names {
        assert acc1.names[k] != acc1.names[IndexOf(acc1.names, output)];
      }
    } else if o != output {
      AppendKeepsHolds(acc1, o, v, output, e);
    } else {
      IndexOfAppend(acc1.names, o, o);
    }
  }

  lemma AddPropertiesHolds<T>(acc: TriData<T>, selected: seq<string>, props: MeshProperties<T>, output: string, e: Option<T>)
    requires Holds(acc, output, e) && RolePrefixed(output)
    ensures Holds(AddProperties(acc, selected, props), output, e)
  {
    RolePrefixedIsNoProperty(output);
    var a1 := AddProperty(acc, selected, "thickness", "triangle.thickness", props.thickness);
    var a2 := AddProperty(a1, selected, "elastic_modulus", "triangle.elastic_modulus", props.elasticModulus);
    var a3 := AddProperty(a2, selected, "poissons_ratio", "triangle.poissons_ratio", props.poissonsRatio);
    if a1 != acc { AppendKeepsHolds(acc, "triangle.thickness", props.thickness, output, e); }
    if a2 != a1 { AppendKeepsHolds(a1, "triangle.elastic_modulus", props.elasticModulus, output, e); }
    if a3 != a2 { AppendKeepsHolds(a2, "triangle.poissons_ratio", props.poissonsRatio, output, e); }
    if AddProperty(a3, selected, "area", "triangle.area", props.area) != a3 {
      AppendKeepsHolds(a3, "triangle.area", props.area, output, e);
    }
  }

  /** One force's pass over the outputs combines its value for `output`
      into the entry and leaves it alone otherwise. */
  lemma {:induction false} CollectOutputsHolds<T>(acc: TriData<T>, role: MeshRole, forceName: string, outputs: seq<string>,
                                                  row: seq<T>, add: (T, T) -> T, output: string, e: Option<T>)
    requires |acc.names| == |acc.data| && |row| == |outputs|
    requires Holds(acc, output, e) && NoDuplicates(outputs)
    requires forall a :: 0 <= a < |outputs| ==> outputs[a] + "_" + forceName != output
    ensures Holds(CollectOutputs(acc, role, forceName, outputs, row, add), output,
      if output in outputs && IsTriangleOutputFor(output, role) then Combine(e, Some(row[IndexOf(outputs, output)]), add) else e)
    decreases |outputs|
  {
    if |outputs| > 0 {
      var n := |outputs| - 1;
      var pre, preRow := outputs[..n], row[..n];
      assert forall a :: 0 <= a < n ==> pre[a] == outputs[a];
      CollectOutputsHolds(acc, role, forceName, pre, preRow, add, output, e);
      var e1 := if output in pre && IsTriangleOutputFor(output, role) then Combine(e, Some(preRow[IndexOf(pre, output)]), add) else e;
      var mid := CollectOutputs(acc, role, forceName, pre, preRow, add);
      assert CollectOutputs(acc, role, forceName, outputs, row, add) == AddOutput(mid, role, forceName, outputs[n], row[n], add);
      if IsTriangleOutputFor(outputs[n], role) {
        AddTriangleOutputHolds(mid, outputs[n], forceName, row[n], add, output, e1);
      }
      if output in pre {
        IndexOfPrefix(outputs, n, output);
        assert outputs[n] != output;
      } else if output == outputs[n] {
        assert outputs[..n] == pre;
        IndexOfUnique(outputs, output, n);
      } else {
        assert output !in outputs;
      }
    }
  }

  /** The combined entry of a requested triangle output is the sum of the
      contributions of the forces touching the mesh in the output's role,
      and is absent when none does. */
  lemma {:induction false} CombinedEntryIsSum<T>(meshName: string, forces: seq<ContactForce>, outputs: seq<string>,
                                                 values: seq<seq<T>>, selected: seq<string>, props: MeshProperties<T>,
                                                 add: (T, T) -> T, output: string)
    requires ValuesShaped(forces, outputs, values)
    requires NoDuplicates(outputs) && NoCollision(forces, outputs)
    requires output in outputs && (IsTriangleOutputFor(output, Casting) || IsTriangleOutputFor(output, Target))
    ensures Holds(CollectMeshContactOutputData(meshName, forces, outputs, values, selected, props, add), output,
      ExpectedCombined(meshName, forces, outputs, values, output, add))
    decreases |forces|
  {
    if IsTriangleOutputFor(output, Casting) {
      TriangleOutputRolePrefixed(output, Casting, "");
    } else {
      TriangleOutputRolePrefixed(output, Target, "");
    }
    if |forces| > 0 {
      var n := |forces| - 1;
      var f := forces[n];
      assert forall i :: 0 <= i < n ==> forces[..n][i] == forces[i];
      assert forall i :: 0 <= i < n ==> values[..n][i] == values[i];
      CombinedEntryIsSum(meshName, forces[..n], outputs, values[..n], selected, props, add, output);
      var acc := CollectMeshContactOutputData(meshName, forces[..n], outputs, values[..n], selected, props, add);
      var e := ExpectedCombined(meshName, forces[..n], outputs, values[..n], output, add);
      match MeshRoleOf(meshName, f)
      case None =>
      case Some(role) =>
        var k := IndexOf(outputs, output);
        assert forall a :: 0 <= a < |outputs| ==> outputs[a] + "_" + f.name != outputs[k];
        CollectOutputsHolds(acc, role, f.name, outputs, values[n], add, output, e);
        var mid := CollectOutputs(acc, role, f.name, outputs, values[n], add);
        var e1 := if IsTriangleOutputFor(output, role) then Combine(e, Some(values[n][k]), add) else e;
        AddPropertiesHolds(mid, selected, props, output, e1);
    }
  }

  // ---------------------------------------------------------------------
  // Each force also gets its own entry

  /** Entry names only ever accumulate. */
  predicate KeepsNames<T>(acc: TriData<T>, r: TriData<T>) {
    forall x :: x in acc.names ==> x in r.names
  }

  lemma {:induction false} CollectOutputsGrows<T>(acc: TriData<T>, role: MeshRole, forceName: string, outputs: seq<string>,
                                                  row: seq<T>, add: (T, T) -> T)
    requires |acc.names| == |acc.data| && |row| == |outputs|
    ensures KeepsNames(acc, CollectOutputs(acc, role, forceName, outputs, row, add))
    ensures forall a :: 0 <= a < |outputs| && IsTriangleOutputFor(outputs[a], role) ==>
      outputs[a] + "_" + forceName in CollectOutputs(acc, role, forceName, outputs, row, add).names
    decreases |outputs|
  {
    if |outputs| > 0 {
      var n := |outputs| - 1;
      CollectOutputsGrows(acc, role, forceName, outputs[..n], row[..n], add);
      assert forall a :: 0 <= a < n ==> outputs[..n][a] == outputs[a];
    }
  }

  /** Collecting one force keeps every entry and adds its per-force entries. */
  lemma CollectForceGrows<T>(acc: TriData<T>, meshName: string, f: ContactForce, outputs: seq<string>, row: seq<T>,
                             selected: seq<string>, props: MeshProperties<T>, add: (T, T) -> T)
    requires |acc.names| == |acc.data| && |row| == |outputs|
    ensures KeepsNames(acc, CollectForce(acc, meshName, f, outputs, row, selected, props, add))
    ensures MeshRoleOf(meshName, f).Some? ==> forall a :: 0 <= a < |outputs| && IsTriangleOutputFor(outputs[a], MeshRoleOf(meshName, f).value) ==>
      outputs[a] + "_" + f.name in CollectForce(acc, meshName, f, outputs, row, selected, props, add).names
  {
    match MeshRoleOf(meshName, f)
    case None =>
    case Some(role) =>
      CollectOutputsGrows(acc, role, f.name, outputs, row, add);
      var mid := CollectOutputs(acc, role, f.name, outputs, row, add);
      assert forall x :: x in mid.names ==> x in AddProperties(mid, selected, props).names;
  }

  /** Every force touching the mesh gets an entry `<output>_<force>` for each
      requested triangle output routed to its role. */
  lemma {:induction false} PerForceEntryPresent<T>(meshName: string, forces: seq<ContactForce>, outputs: seq<string>,
                                                   values: seq<seq<T>>, selected: seq<string>, props: MeshProperties<T>,
                                                   add: (T, T) -> T, i: nat, a: nat)
    requires ValuesShaped(forces, outputs, values) && i < |forces| && a < |outputs|
    requires MeshRoleOf(meshName, forces[i]).Some? && IsTriangleOutputFor(outputs[a], MeshRoleOf(meshName, forces[i]).value)
    ensures outputs[a] + "_" + forces[i].name in
      CollectMeshContactOutputData(meshName, forces, outputs, values, selected, props, add).names
    decreases |forces|
  {
    var n := |forces| - 1;
    var acc := CollectMeshContactOutputData(meshName, forces[..n], outputs, values[..n], selected, props, add);
    CollectForceGrows(acc, meshName, forces[n], outputs, values[n], selected, props, add);
    if i < n {
      assert forces[..n][i] == forces[i];
      PerForceEntryPresent(meshName, forces[..n], outputs, values[..n], selected, props, add, i, a);
    }
  }

  /** Appending `<o>_<forceName>` when it is new makes it hold the force's
      value. */
  lemma AddTriangleOutputCreates<T>(acc: TriData<T>, o: string, forceName: string, v: T, add: (T, T) -> T)
    requires Holds(acc, o + "_" + forceName, None)
    ensures Holds(AddTriangleOutput(acc, o, forceName, v, add), o + "_" + forceName, Some(v))
  {
    var name := o + "_" + forceName;
    var acc1 := TriData(acc.names + [name], acc.data + [v]);
    IndexOfAppend(acc.names, name, name);
    assert o != name;
    var k := IndexOf(acc1.names, o);
    if k < 0 {
      AppendKeepsHolds(acc1, o, v, name, Some(v));
    } else {
      assert acc1.names[k] != acc1.names[|acc.names|];
    }
  }

  /** The pass of the force that creates the entry `<outputs[a]>_<forceName>`
      leaves it holding the force's value for that output. */
  lemma {:induction false} CollectOutputsCreates<T>(acc: TriData<T>, role: MeshRole, forceName: string, outputs: seq<string>,
                                                    row: seq<T>, add: (T, T) -> T, a: nat)
    requires |acc.names| == |acc.data| && |row| == |outputs| && a < |outputs| && NoDuplicates(outputs)
    requires IsTriangleOutputFor(outputs[a], role) && Holds(acc, outputs[a] + "_" + forceName, None)
    requires outputs[a] + "_" + forceName !in outputs
    requires forall b :: 0 <= b < |outputs| && b != a ==> outputs[b] + "_" + forceName != outputs[a] + "_" + forceName
    ensures Holds(CollectOutputs(acc, role, forceName, outputs, row, add), outputs[a] + "_" + forceName, Some(row[a]))
    decreases |outputs|
  {
    var name := outputs[a] + "_" + forceName;
    var n := |outputs| - 1;
    var pre, preRow := outputs[..n], row[..n];
    assert forall b :: 0 <= b < n ==> pre[b] == outputs[b] && preRow[b] == row[b];
    var mid := CollectOutputs(acc, role, forceName, pre, preRow, add);
    assert CollectOutputs(acc, role, forceName, outputs, row, add) == AddOutput(mid, role, forceName, outputs[n], row[n], add);
    if a < n {
      CollectOutputsCreates(acc, role, forceName, pre, preRow, add, a);
      if IsTriangleOutputFor(outputs[n], role) {
        AddTriangleOutputHolds(mid, outputs[n], forceName, row[n], add, name, Some(row[a]));
      }
    } else {
      assert name !in pre;
      CollectOutputsHolds(acc, role, forceName, pre, preRow, add, name, None);
      AddTriangleOutputCreates(mid, outputs[n], forceName, row[n], add);
    }
  }

  /** A force none of whose entry names is `name` leaves that entry as it was. */
  lemma CollectForceKeeps<T>(acc: TriData<T>, meshName: string, f: ContactForce, outputs: seq<string>, row: seq<T>,
                             selected: seq<string>, props: MeshProperties<T>, add: (T, T) -> T, name: string, e: Option<T>)
    requires |acc.names| == |acc.data| && |row| == |outputs| && NoDuplicates(outputs)
    requires Holds(acc, name, e) && name !in outputs && RolePrefixed(name)
    requires forall b :: 0 <= b < |outputs| ==> outputs[b] + "_" + f.name != name
    ensures Holds(CollectForce(acc, meshName, f, outputs, row, selected, props, add), name, e)
  {
    match MeshRoleOf(meshName, f)
    case None =>
    case Some(role) =>
      CollectOutputsHolds(acc, role, f.name, outputs, row, add, name, e);
      AddPropertiesHolds(CollectOutputs(acc, role, f.name, outputs, row, add), selected, props, name, e);
  }

  /** The force whose entry `<outputs[a]>_<f.name>` is new creates it with its
      value for that output. */
  lemma CollectForceCreates<T>(acc: TriData<T>, meshName: string, f: ContactForce, outputs: seq<string>, row: seq<T>,
                               selected: seq<string>, props: MeshProperties<T>, add: (T, T) -> T, a: nat)
    requires |acc.names| == |acc.data| && |row| == |outputs| && a < |outputs| && NoDuplicates(outputs)
    requires MeshRoleOf(meshName, f).Some? && IsTriangleOutputFor(outputs[a], MeshRoleOf(meshName, f).value)
    requires Holds(acc, outputs[a] + "_" + f.name, None) && outputs[a] + "_" + f.name !in outputs
    requires RolePrefixed(outputs[a] + "_" + f.name)
    requires forall b :: 0 <= b < |outputs| && b != a ==> outputs[b] + "_" + f.name != outputs[a] + "_" + f.name
    ensures Holds(CollectForce(acc, meshName, f, outputs, row, selected, props, add), outputs[a] + "_" + f.name, Some(row[a]))
  {
    var role := MeshRoleOf(meshName, f).value;
    CollectOutputsCreates(acc, role, f.name, outputs, row, add, a);
    AddPropertiesHolds(CollectOutputs(acc, role, f.name, outputs, row, add), selected, props, outputs[a] + "_" + f.name, Some(row[a]));
  }

  /** The entry `name` holds force `i`'s value for output `a` once force `i`
      has been collected, and is absent before, when no other entry shares
      its name. */
  lemma {:induction false} PerForceEntryHoldsUpTo<T>(meshName: string, forces: seq<ContactForce>, outputs: seq<string>,
                                                     values: seq<seq<T>>, selected: seq<string>, props: MeshProperties<T>,
                                                     add: (T, T) -> T, i: nat, a: nat, name: string)
    requires ValuesShaped(forces, outputs, values) && NoDuplicates(outputs) && a < |outputs|
    requires name !in outputs && RolePrefixed(name)
    requires forall j, b :: 0 <= j < |forces| && 0 <= b < |outputs| && (j != i || b != a) ==>
      outputs[b] + "_" + forces[j].name != name
    requires i < |forces| ==> && name == outputs[a] + "_" + forces[i].name
                              && MeshRoleOf(meshName, forces[i]).Some?
                              && IsTriangleOutputFor(outputs[a], MeshRoleOf(meshName, forces[i]).value)
    ensures Holds(CollectMeshContactOutputData(meshName, forces, outputs, values, selected, props, add), name,
      if i < |forces| then Some(values[i][a]) else None)
    decreases |forces|
  {
    if |forces| > 0 {
      var n := |forces| - 1;
      assert forall j :: 0 <= j < n ==> forces[..n][j] == forces[j] && values[..n][j] == values[j];
      PerForceEntryHoldsUpTo(meshName, forces[..n], outputs, values[..n], selected, props, add, i, a, name);
      var acc := CollectMeshContactOutputData(meshName, forces[..n], outputs, values[..n], selected, props, add);
      if i == n {
        CollectForceCreates(acc, meshName, forces[n], outputs, values[n], selected, props, add, a);
      } else {
        CollectForceKeeps(acc, meshName, forces[n], outputs, values[n], selected, props, add, name,
          if i < n then Some(values[i][a]) else None);
      }
    }
  }

  /** No two (force, output) pairs build the same per-force entry name. */
  predicate PerForceNamesDistinct(forces: seq<ContactForce>, outputs: seq<string>) {
    forall i, j, a, b ::
      (0 <= i < |forces| && 0 <= j < |forces| && 0 <= a < |outputs| && 0 <= b < |outputs| &&
       outputs[a] + "_" + forces[i].name == outputs[b] + "_" + forces[j].name) ==> i == j && a == b
  }

  /** With distinct per-force entry names that no requested output name
      repeats, the entry `<output>_<force>` of a force touching the mesh holds
      exactly that force's value for the output. */
  lemma PerForceEntryValue<T>(meshName: string, forces: seq<ContactForce>, outputs: seq<string>,
                              values: seq<seq<T>>, selected: seq<string>, props: MeshProperties<T>,
                              add: (T, T) -> T, i: nat, a: nat)
    requires ValuesShaped(forces, outputs, values) && NoDuplicates(outputs)
    requires NoCollision(forces, outputs) && PerForceNamesDistinct(forces, outputs)
    requires i < |forces| && a < |outputs|
    requires MeshRoleOf(meshName, forces[i]).Some? && IsTriangleOutputFor(outputs[a], MeshRoleOf(meshName, forces[i]).value)
    ensures Holds(CollectMeshContactOutputData(meshName, forces, outputs, values, selected, props, add),
      outputs[a] + "_" + forces[i].name, Some(values[i][a]))
  {
    var name := outputs[a] + "_" + forces[i].name;
    TriangleOutputRolePrefixed(outputs[a], MeshRoleOf(meshName, forces[i]).value, forces[i].name);
    assert name !in outputs by {
      forall b | 0 <= b < |outputs| ensures outputs[b] != name {
      }
    }
    PerForceEntryHoldsUpTo(meshName, forces, outputs, values, selected, props, add, i, a, name);
  }

  // ---------------------------------------------------------------------
  // Property matrices appear at most once

  predicate IsPropertyName(name: string) {
    name in ["triangle.thickness", "triangle.elastic_modulus", "triangle.poissons_ratio", "triangle.area"]
  }

  /** Entry names that start with a mesh role are not property names. */
  predicate RolePrefixed(name: string) {
    PrefixOf("casting_", name) || PrefixOf("target_", name)
  }

  lemma RolePrefixedIsNoProperty(name: string)
    requires RolePrefixed(name)
    ensures !IsPropertyName(name)
  {
    assert name[1] == 'a';
    assert "triangle.thickness"[1] == 'r';
    assert "triangle.elastic_modulus"[1] == 'r';
    assert "triangle.poissons_ratio"[1] == 'r';
    assert "triangle.area"[1] == 'r';
  }

  /** Triangle outputs routed to a mesh, and the per-force names built from
      them, start with the mesh role. */
  lemma TriangleOutputRolePrefixed(o: string, role: MeshRole, forceName: string)
    requires IsTriangleOutputFor(o, role)
    ensures RolePrefixed(o) && RolePrefixed(o + "_" + forceName)
  {
    ParsedNameStartsWithMeshType(o);
    assert (o + "_" + forceName)[..|o|] == o;
  }

  /** No property name repeats. */
  predicate PropertyNamesUnique(names: seq<string>) {
    forall i, j :: 0 <= i < j < |names| && IsPropertyName(names[i]) ==> names[i] != names[j]
  }

  lemma AppendKeepsPropertyNamesUnique(names: seq<string>, name: string)
    requires PropertyNamesUnique(names) && (!IsPropertyName(name) || name !in names)
    ensures PropertyNamesUnique(names + [name])
  {
    var ns := names + [name];
    forall i, j | 0 <= i < j < |ns| && IsPropertyName(ns[i]) ensures ns[i] != ns[j] {
      if j == |names| {
        assert ns[i] in names;
      }
    }
  }

  lemma AddTriangleOutputPropertyNamesUnique<T>(acc: TriData<T>, o: string, role: MeshRole, forceName: string, v: T,
                                                add: (T, T) -> T)
    requires |acc.names| == |acc.data| && PropertyNamesUnique(acc.names) && IsTriangleOutputFor(o, role)
    ensures PropertyNamesUnique(AddTriangleOutput(acc, o, forceName, v, add).names)
    ensures forall p :: IsPropertyName(p) ==> (p in AddTriangleOutput(acc, o, forceName, v, add).names <==> p in acc.names)
  {
    var name := o + "_" + forceName;
    TriangleOutputRolePrefixed(o, role, forceName);
    RolePrefixedIsNoProperty(o);
    RolePrefixedIsNoProperty(name);
    AppendKeepsPropertyNamesUnique(acc.names, name);
    AppendKeepsPropertyNamesUnique(acc.names + [name], o);
    var r := AddTriangleOutput(acc, o, forceName, v, add);
    assert forall p :: p in r.names ==> p in acc.names || p == name || p == o;
  }

  lemma {:induction false} CollectOutputsPropertyNamesUnique<T>(acc: TriData<T>, role: MeshRole, forceName: string,
                                                                outputs: seq<string>, row: seq<T>, add: (T, T) -> T)
    requires |acc.names| == |acc.data| && |row| == |outputs| && PropertyNamesUnique(acc.names)
    ensures PropertyNamesUnique(CollectOutputs(acc, role, forceName, outputs, row, add).names)
    ensures forall p :: IsPropertyName(p) ==> (p in CollectOutputs(acc, role, forceName, outputs, row, add).names <==> p in acc.names)
    decreases |outputs|
  {
    if |outputs| > 0 {
      var n := |outputs| - 1;
      CollectOutputsPropertyNamesUnique(acc, role, forceName, outputs[..n], row[..n], add);
      var mid := CollectOutputs(acc, role, forceName, outputs[..n], row[..n], add);
      if IsTriangleOutputFor(outputs[n], role) {
        AddTriangleOutputPropertyNamesUnique(mid, outputs[n], role, forceName, row[n], add);
      }
    }
  }

  lemma AddPropertiesPropertyNamesUnique<T>(acc: TriData<T>, selected: seq<string>, props: MeshProperties<T>)
    requires |acc.names| == |acc.data| && PropertyNamesUnique(acc.names)
    ensures PropertyNamesUnique(AddProperties(acc, selected, props).names)
    ensures "triangle.thickness" in AddProperties(acc, selected, props).names
      <==> "triangle.thickness" in acc.names || "thickness" in selected || "all" in selected
    ensures "triangle.area" in AddProperties(acc, selected, props).names
      <==> "triangle.area" in acc.names || "area" in selected || "all" in selected
  {
    var a1 := AddProperty(acc, selected, "thickness", "triangle.thickness", props.thickness);
    var a2 := AddProperty(a1, selected, "elastic_modulus", "triangle.elastic_modulus", props.elasticModulus);
    var a3 := AddProperty(a2, selected, "poissons_ratio", "triangle.poissons_ratio", props.poissonsRatio);
    if a1 != acc { AppendKeepsPropertyNamesUnique(acc.names, "triangle.thickness"); }
    if a2 != a1 { AppendKeepsPropertyNamesUnique(a1.names, "triangle.elastic_modulus"); }
    if a3 != a2 { AppendKeepsPropertyNamesUnique(a2.names, "triangle.poissons_ratio"); }
    if AddProperty(a3, selected, "area", "triangle.area", props.area) != a3 {
      AppendKeepsPropertyNamesUnique(a3.names, "triangle.area");
    }
  }

  /** Some force connects the mesh. */
  predicate Touches(meshName: string, forces: seq<ContactForce>) {
    exists i :: 0 <= i < |forces| && MeshRoleOf(meshName, forces[i]).Some?
  }

  lemma TouchesExtend(meshName: string, forces: seq<ContactForce>)
    requires |forces| > 0
    ensures Touches(meshName, forces) <==>
      Touches(meshName, forces[..|forces| - 1]) || MeshRoleOf(meshName, forces[|forces| - 1]).Some?
  {
    var n := |forces| - 1;
    if Touches(meshName, forces[..n]) {
      var i :| 0 <= i < n && MeshRoleOf(meshName, forces[..n][i]).Some?;
      assert forces[..n][i] == forces[i];
    }
    if Touches(meshName, forces) && MeshRoleOf(meshName, forces[n]).None? {
      var i :| 0 <= i < |forces| && MeshRoleOf(meshName, forces[i]).Some?;
      assert forces[..n][i] == forces[i];
    }
  }

  /** Each property matrix is listed at most once, and it is listed exactly
      when it is requested (by key or `all`) and some force connects the
      mesh. */
  lemma {:induction false} PropertiesListedOnce<T>(meshName: string, forces: seq<ContactForce>, outputs: seq<string>,
                                                   values: seq<seq<T>>, selected: seq<string>, props: MeshProperties<T>,
                                                   add: (T, T) -> T)
    requires ValuesShaped(forces, outputs, values)
    ensures PropertyNamesUnique(CollectMeshContactOutputData(meshName, forces, outputs, values, selected, props, add).names)
    ensures "triangle.thickness" in CollectMeshContactOutputData(meshName, forces, outputs, values, selected, props, add).names
      <==> ("thickness" in selected || "all" in selected) && Touches(meshName, forces)
    ensures "triangle.area" in CollectMeshContactOutputData(meshName, forces, outputs, values, selected, props, add).names
      <==> ("area" in selected || "all" in selected) && Touches(meshName, forces)
    decreases |forces|
  {
    if |forces| > 0 {
      var n := |forces| - 1;
      var f := forces[n];
      assert forall i :: 0 <= i < n ==> values[..n][i] == values[i];
      PropertiesListedOnce(meshName, forces[..n], outputs, values[..n], selected, props, add);
      var acc := CollectMeshContactOutputData(meshName, forces[..n], outputs, values[..n], selected, props, add);
      TouchesExtend(meshName, forces);
      match MeshRoleOf(meshName, f)
      case None =>
      case Some(role) =>
        CollectOutputsPropertyNamesUnique(acc, role, f.name, outputs, values[n], add);
        var mid := CollectOutputs(acc, role, f.name, outputs, values[n], add);
        AddPropertiesPropertyNamesUnique(mid, selected, props);
    }
  }
}
