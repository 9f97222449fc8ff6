/**
 * The set-up decisions of the forward-simulation tool: the simulated time
 * range, the routing of actuator-file columns to prescribed force,
 * activation or control, and the muscles that receive a constant force.
 */
module Forsim {

  import opened Wrappers
  import opened HelperFunctions

  // ---------------------------------------------------------------------
  // Start and stop times

  /** First and last time of a loaded table's time column. */
  datatype TimeRange = TimeRange(first: real, last: real)

  datatype TimeError = NoTimeSource | TimesDoNotMatch

  /** The settings' "not set" value for start and stop time. */
  const Unset: real := -1.0

  /** The stand-in the tool uses for "no such file". */
  const NoFile: real := -2.0

  /** `initializeStartStopTimes` as written: missing files are encoded by
      the time value -2, and an unset start or stop is taken from the
      coordinate file when it has one, else from the actuator file. */
  function StartStopAsWritten(start: real, stop: real, act: Option<TimeRange>, coord: Option<TimeRange>): Result<(real, real), TimeError> {
    if start != Unset && stop != Unset then Success((start, stop))
    else
      var actStart := if act.Some? then act.value.first else NoFile;
      var actEnd := if act.Some? then act.value.last else NoFile;
      var coordStart := if coord.Some? then coord.value.first else NoFile;
      var coordEnd := if coord.Some? then coord.value.last else NoFile;
      if actStart == NoFile && coordStart == NoFile then Failure(NoTimeSource)
      else if actStart != NoFile && coordStart != NoFile && (actStart != coordStart || actEnd != coordEnd) then
        Failure(TimesDoNotMatch)
      else
        var s := if start == Unset then (if coordStart != NoFile then coordStart else actStart) else start;
        var e := if stop == Unset then (if coordEnd != NoFile then coordEnd else actEnd) else stop;
        Success((s, e))
  }

  /** The same decision with file presence decided directly. */
  function StartStopTimes(start: real, stop: real, act: Option<TimeRange>, coord: Option<TimeRange>): (r: Result<(real, real), TimeError>)
    ensures start != Unset && stop != Unset ==> r == Success((start, stop))
    ensures r == Failure(NoTimeSource) <==> (start == Unset || stop == Unset) && act.None? && coord.None?
    ensures r == Failure(TimesDoNotMatch) <==> (start == Unset || stop == Unset) && act.Some? && coord.Some? && act != coord
    ensures r.Success? && start != Unset ==> r.value.0 == start
    ensures r.Success? && stop != Unset ==> r.value.1 == stop
    ensures r.Success? && start == Unset ==>
      r.value.0 == (if coord.Some? then coord.value.first else act.value.first)
    ensures r.Success? && stop == Unset ==>
      r.value.1 == (if coord.Some? then coord.value.last else act.value.last)
  {
    if start != Unset && stop != Unset then Success((start, stop))
    else if act.None? && coord.None? then Failure(NoTimeSource)
    else if act.Some? && coord.Some? && act.value != coord.value then Failure(TimesDoNotMatch)
    else
      var source := if coord.Some? then coord.value else act.value;
      Success((if start == Unset then source.first else start, if stop == Unset then source.last else stop))
  }

  /** A table whose times never hit the "no file" stand-in. */
  predicate AvoidsStandIn(t: Option<TimeRange>) {
    t.Some? ==> t.value.first != NoFile && t.value.last != NoFile
  }

  /** As long as no table starts or ends at time -2, the sentinel-based
      decision agrees with the presence-based one. */
  lemma StartStopAgrees(start: real, stop: real, act: Option<TimeRange>, coord: Option<TimeRange>)
    requires AvoidsStandIn(act) && AvoidsStandIn(coord)
    ensures StartStopAsWritten(start, stop, act, coord) == StartStopTimes(start, stop, act, coord)
  {
    if act.Some? && coord.Some? && act.value != coord.value {
      assert act.value.first != coord.value.first || act.value.last != coord.value.last;
    }
  }

  /** An actuator file whose time column starts at -2 is taken for a
      missing file. */
  lemma StartStopStandInCollision()
    ensures StartStopAsWritten(Unset, Unset, Some(TimeRange(-2.0, 1.0)), None) == Failure(NoTimeSource)
    ensures StartStopTimes(Unset, Unset, Some(TimeRange(-2.0, 1.0)), None) == Success((-2.0, 1.0))
  {
  }

  // ---------------------------------------------------------------------
  // Routing actuator-file columns

  datatype Route = PrescribedForce | PrescribedActivation | PrescribedControl

  function Suffix(r: Route): string {
    match r
    case PrescribedForce => "frc"
    case PrescribedActivation => "act"
    case PrescribedControl => "control"
  }

  /** A column is routed by the last `_`-piece of its label. */
  function RouteOfLabel(columnLabel: string): (r: Option<Route>)
    ensures r.Some? ==> Last(Split(columnLabel, '_')) == Suffix(r.value)
    ensures r.None? ==> forall q: Route :: Last(Split(columnLabel, '_')) != Suffix(q)
  {
    var last := Last(Split(columnLabel, '_'));
    if last == "frc" then Some(PrescribedForce)
    else if last == "act" then Some(PrescribedActivation)
    else if last == "control" then Some(PrescribedControl)
    else None
  }

  /** The actuator path: the label with `_<suffix>` erased. */
  function ActuatorPath(columnLabel: string, r: Route): (path: string)
    // without an occurrence of `_<suffix>` the label is kept whole
    ensures (forall j :: 0 <= j <= |columnLabel| ==> !OccursAt(columnLabel, "_" + Suffix(r), j)) ==> path == columnLabel
    // otherwise its first occurrence is cut out
    ensures forall i ::
      (0 <= i <= |columnLabel| && OccursAt(columnLabel, "_" + Suffix(r), i) &&
       (forall j :: 0 <= j < i ==> !OccursAt(columnLabel, "_" + Suffix(r), j))) ==>
        path == columnLabel[..i] + columnLabel[i + |"_" + Suffix(r)|..]
  {
    var suf := "_" + Suffix(r);
    var path := EraseSubString(columnLabel, suf);
    match FindFrom(columnLabel, suf, 0)
    case None => path
    case Some(k) =>
      assert columnLabel[..k] + columnLabel[k + |suf|..] == path by {
        assert columnLabel == path[..k] + suf + path[k..];
        assert columnLabel[..k] == path[..k];
        assert columnLabel[k + |suf|..] == path[k..];
        assert path == path[..k] + path[k..];
      }
      path
  }

  lemma SplitEndsWithLast(s: string, d: char)
    requires |Split(s, d)| >= 2
    ensures |Last(Split(s, d))| + 1 <= |s|
    ensures s == s[..|s| - |Last(Split(s, d))| - 1] + [d] + Last(Split(s, d))
  {
    var parts := Split(s, d);
    JoinSplit(s, d);
    JoinLast(parts, d);
  }

  /** A routed label that contains an underscore ends with `_<suffix>`,
      and when that is the only place `_<suffix>` occurs the actuator path
      is the label without it. */
  lemma RoutedLabelEndsWithSuffix(columnLabel: string)
    requires RouteOfLabel(columnLabel).Some? && '_' in columnLabel
    ensures var suf := "_" + Suffix(RouteOfLabel(columnLabel).value);
      && |suf| <= |columnLabel|
      && columnLabel[|columnLabel| - |suf|..] == suf
      && ((forall j :: 0 <= j < |columnLabel| - |suf| ==> !OccursAt(columnLabel, suf, j)) ==>
          ActuatorPath(columnLabel, RouteOfLabel(columnLabel).value) + suf == columnLabel)
  {
    SplitPiecesFree(columnLabel, '_');
    JoinSplit(columnLabel, '_');
    SplitEndsWithLast(columnLabel, '_');
    var r := RouteOfLabel(columnLabel).value;
    var suf := "_" + Suffix(r);
    var n := |columnLabel| - |suf|;
    assert columnLabel[n..] == suf;
    if forall j :: 0 <= j < n ==> !OccursAt(columnLabel, suf, j) {
      EraseOnlySuffix(columnLabel, suf);
    }
  }

  /** A model actuator; `millard` marks a Millard2012 equilibrium muscle. */
  datatype Actuator = Actuator(path: string, millard: bool)

  datatype RouteError = ActuatorNotFound(path: string) | MuscleNotFound(path: string)

  /** The three prescribed lists, in label order. */
  datatype Prescribed = Prescribed(frc: seq<string>, act: seq<string>, control: seq<string>)

  predicate HasActuator(actuators: seq<Actuator>, path: string) {
    exists k :: 0 <= k < |actuators| && actuators[k].path == path
  }

  predicate HasMillardMuscle(actuators: seq<Actuator>, path: string) {
    exists k :: 0 <= k < |actuators| && actuators[k].path == path && actuators[k].millard
  }

  /** Whether the actuator a label prescribes exists with the right type. */
  predicate Resolves(actuators: seq<Actuator>, columnLabel: string) {
    match RouteOfLabel(columnLabel)
    case None => true
    case Some(r) =>
      if r == PrescribedActivation then HasMillardMuscle(actuators, ActuatorPath(columnLabel, r))
      else HasActuator(actuators, ActuatorPath(columnLabel, r))
  }

  /** The error a label that does not resolve raises: a missing Millard
      muscle for an activation, a missing actuator otherwise. */
  function LabelError(columnLabel: string): RouteError
    requires RouteOfLabel(columnLabel).Some?
  {
    var r := RouteOfLabel(columnLabel).value;
    if r == PrescribedActivation then MuscleNotFound(ActuatorPath(columnLabel, r))
    else ActuatorNotFound(ActuatorPath(columnLabel, r))
  }

  function RouteOne(p: Prescribed, actuators: seq<Actuator>, columnLabel: string): (r: Result<Prescribed, RouteError>)
    ensures r.Failure? <==> !Resolves(actuators, columnLabel)
    ensures r.Failure? ==> RouteOfLabel(columnLabel).Some? && r.error == LabelError(columnLabel)
    ensures r.Success? ==> r.value == Prescribed(
      p.frc + (if RouteOfLabel(columnLabel) == Some(PrescribedForce) then [ActuatorPath(columnLabel, PrescribedForce)] else []),
      p.act + (if RouteOfLabel(columnLabel) == Some(PrescribedActivation) then [ActuatorPath(columnLabel, PrescribedActivation)] else []),
      p.control + (if RouteOfLabel(columnLabel) == Some(PrescribedControl) then [ActuatorPath(columnLabel, PrescribedControl)] else []))
  {
    match RouteOfLabel(columnLabel)
    case None => Success(p)
    case Some(r) =>
      var path := ActuatorPath(columnLabel, r);
      match r
      case PrescribedForce =>
        if HasActuator(actuators, path) then Success(p.(frc := p.frc + [path])) else Failure(ActuatorNotFound(path))
      case PrescribedActivation =>
        if HasMillardMuscle(actuators, path) then Success(p.(act := p.act + [path])) else Failure(MuscleNotFound(path))
      case PrescribedControl =>
        if HasActuator(actuators, path) then Success(p.(control := p.control + [path])) else Failure(ActuatorNotFound(path))
  }

  /** The loop over the actuator file's labels, stopping at the first
      actuator that is not in the model. */
  function RouteLabels(actuators: seq<Actuator>, labels: seq<string>): Result<Prescribed, RouteError>
    decreases |labels|
  {
    if |labels| == 0 then Success(Prescribed([], [], []))
    else
      var n := |labels| - 1;
      match RouteLabels(actuators, labels[..n])
      case Failure(e) => Failure(e)
      case Success(p) => RouteOne(p, actuators, labels[n])
  }

  /** Reference definition: the paths of the labels routed to `r`, in order. */
  function PathsFor(labels: seq<string>, r: Route): seq<string>
    decreases |labels|
  {
    if |labels| == 0 then []
    else
      var n := |labels| - 1;
      PathsFor(labels[..n], r) + (if RouteOfLabel(labels[n]) == Some(r) then [ActuatorPath(labels[n], r)] else [])
  }

  /** Every label of the list resolves. */
  predicate AllResolve(actuators: seq<Actuator>, labels: seq<string>)
    decreases |labels|
  {
    |labels| == 0 || (AllResolve(actuators, labels[..|labels| - 1]) && Resolves(actuators, labels[|labels| - 1]))
  }

  lemma {:induction false} AllResolveEvery(actuators: seq<Actuator>, labels: seq<string>)
    ensures AllResolve(actuators, labels) <==> forall i :: 0 <= i < |labels| ==> Resolves(actuators, labels[i])
    decreases |labels|
  {
    if |labels| > 0 {
      var n := |labels| - 1;
      var init := labels[..n];
      AllResolveEvery(actuators, init);
      if AllResolve(actuators, labels) {
        forall i | 0 <= i < |labels| ensures Resolves(actuators, labels[i]) {
          if i < n {
            assert labels[i] == init[i];
          }
        }
      }
      if forall i :: 0 <= i < |labels| ==> Resolves(actuators, labels[i]) {
        forall i | 0 <= i < n ensures Resolves(actuators, init[i]) {
          assert init[i] == labels[i];
        }
      }
    }
  }

  lemma RouteLabelsFails(actuators: seq<Actuator>, labels: seq<string>)
    ensures RouteLabels(actuators, labels).Failure? <==> exists i :: 0 <= i < |labels| && !Resolves(actuators, labels[i])
  {
    RouteLabelsFailsUnlessAll(actuators, labels);
    AllResolveEvery(actuators, labels);
  }

  lemma {:induction false} RouteLabelsFailsUnlessAll(actuators: seq<Actuator>, labels: seq<string>)
    ensures RouteLabels(actuators, labels).Failure? <==> !AllResolve(actuators, labels)
    decreases |labels|
  {
    if |labels| > 0 {
      RouteLabelsFailsUnlessAll(actuators, labels[..|labels| - 1]);
    }
  }

  /** A failed routing reports the error of the first label that does not
      resolve. */
  lemma {:induction false} RouteLabelsFirstError(actuators: seq<Actuator>, labels: seq<string>)
    requires RouteLabels(actuators, labels).Failure?
    ensures exists i :: (0 <= i < |labels| && !Resolves(actuators, labels[i])
      && (forall j :: 0 <= j < i ==> Resolves(actuators, labels[j]))
      && RouteOfLabel(labels[i]).Some? && RouteLabels(actuators, labels).error == LabelError(labels[i]))
    decreases |labels|
  {
    var n := |labels| - 1;
    var init := labels[..n];
    assert forall j :: 0 <= j < n ==> init[j] == labels[j];
    if RouteLabels(actuators, init).Failure? {
      RouteLabelsFirstError(actuators, init);
      var i :| (0 <= i < n && !Resolves(actuators, init[i]) && (forall j :: 0 <= j < i ==> Resolves(actuators, init[j]))
        && RouteOfLabel(init[i]).Some? && RouteLabels(actuators, init).error == LabelError(init[i]));
      assert labels[i] == init[i];
    } else {
      RouteLabelsFailsUnlessAll(actuators, init);
      AllResolveEvery(actuators, init);
      assert !Resolves(actuators, labels[n]);
    }
  }

  lemma {:induction false} RouteLabelsLists(actuators: seq<Actuator>, labels: seq<string>)
    requires RouteLabels(actuators, labels).Success?
    ensures RouteLabels(actuators, labels).value == Prescribed(
      PathsFor(labels, PrescribedForce), PathsFor(labels, PrescribedActivation), PathsFor(labels, PrescribedControl))
    decreases |labels|
  {
    if |labels| > 0 {
      RouteLabelsLists(actuators, labels[..|labels| - 1]);
    }
  }

  /** Every prescribed path names an actuator of the model, and every
      activation path a Millard muscle. */
  lemma {:induction false} RoutedPathsExist(actuators: seq<Actuator>, labels: seq<string>)
    requires RouteLabels(actuators, labels).Success?
    ensures var p := RouteLabels(actuators, labels).value;
      && (forall i :: 0 <= i < |p.frc| ==> HasActuator(actuators, p.frc[i]))
      && (forall i :: 0 <= i < |p.act| ==> HasMillardMuscle(actuators, p.act[i]))
      && (forall i :: 0 <= i < |p.control| ==> HasActuator(actuators, p.control[i]))
    decreases |labels|
  {
    if |labels| > 0 {
      RoutedPathsExist(actuators, labels[..|labels| - 1]);
    }
  }

  // ---------------------------------------------------------------------
  // Constant muscle force

  datatype Muscle = Muscle(path: string, maxIsometricForce: real)

  /** A muscle given a constant force, with the force's value. */
  datatype ConstantForce = ConstantForce(path: string, force: real)

  /** How the value of a muscle's constant force is chosen. */
  type ForceRule = Muscle -> real

  /** The value the multiplier evidently intends: the multiplier times the
      muscle's maximum isometric force. */
  function IntendedRule(multiplier: real): ForceRule {
    (m: Muscle) => multiplier * m.maxIsometricForce
  }

  /** The value the code installs: the product it computes is never used and
      the force function is a default-constructed constant, whose value
      `defaultValue` is the same for every muscle. */
  function AsWrittenRule(defaultValue: real): ForceRule {
    (m: Muscle) => defaultValue
  }

  /** The constant force belongs to one of the muscles and has the value the
      rule gives that muscle. */
  predicate FromMuscle(c: ConstantForce, muscles: seq<Muscle>, rule: ForceRule) {
    exists m :: 0 <= m < |muscles| && muscles[m].path == c.path && c.force == rule(muscles[m])
  }

  /** Reference for the walk over the muscles in order: a muscle whose path is
      already prescribed by force (including one appended earlier in the walk),
      activation or control is skipped; any other is appended to the force list
      with a constant force. */
  function Appended(p: Prescribed, muscles: seq<Muscle>, rule: ForceRule): (seq<string>, seq<ConstantForce>)
    decreases |muscles|
  {
    if |muscles| == 0 then (p.frc, [])
    else
      var prev := Appended(p, muscles[..|muscles| - 1], rule);
      var last := muscles[|muscles| - 1];
      if last.path in prev.0 || last.path in p.act || last.path in p.control then prev
      else (prev.0 + [last.path], prev.1 + [ConstantForce(last.path, rule(last))])
  }

  /** The walk runs only for a multiplier above -1. */
  function ConstantForces(p: Prescribed, muscles: seq<Muscle>, multiplier: real, rule: ForceRule): (seq<string>, seq<ConstantForce>)
  {
    if multiplier > -1.0 then Appended(p, muscles, rule) else (p.frc, [])
  }

  /** Every appended constant force has the rule's value for a muscle of its
      path. */
  lemma {:induction false} AppendedFromMuscle(p: Prescribed, muscles: seq<Muscle>, rule: ForceRule)
    ensures forall k :: 0 <= k < |Appended(p, muscles, rule).1| ==> FromMuscle(Appended(p, muscles, rule).1[k], muscles, rule)
    decreases |muscles|
  {
    if |muscles| > 0 {
      var n := |muscles| - 1;
      AppendedFromMuscle(p, muscles[..n], rule);
      var prev := Appended(p, muscles[..n], rule);
      forall k | 0 <= k < |prev.1| ensures FromMuscle(prev.1[k], muscles, rule) {
        var m :| 0 <= m < n && muscles[..n][m].path == prev.1[k].path && prev.1[k].force == rule(muscles[..n][m]);
        assert muscles[..n][m] == muscles[m];
      }
    }
  }

  /** As written, every constant force has the default value, whatever the
      multiplier and the muscle's maximum isometric force. */
  lemma AsWrittenIgnoresMultiplier(p: Prescribed, muscles: seq<Muscle>, multiplier: real, defaultValue: real)
    ensures var cs := ConstantForces(p, muscles, multiplier, AsWrittenRule(defaultValue)).1;
      forall k :: 0 <= k < |cs| ==> cs[k].force == defaultValue
  {
    AppendedFromMuscle(p, muscles, AsWrittenRule(defaultValue));
  }

  /** One unprescribed muscle of maximum isometric force 1000 with multiplier
      0.5: the intended force is 500, the installed one is the default. */
  lemma AsWrittenDiffersFromIntended(defaultValue: real)
    requires defaultValue != 500.0
    ensures var p := Prescribed([], [], []);
      var muscles := [Muscle("/m", 1000.0)];
      && ConstantForces(p, muscles, 0.5, AsWrittenRule(defaultValue)).1 == [ConstantForce("/m", defaultValue)]
      && ConstantForces(p, muscles, 0.5, IntendedRule(0.5)).1 == [ConstantForce("/m", 500.0)]
  {
    var muscles := [Muscle("/m", 1000.0)];
    assert muscles[..0] == [];
  }

  /** Corrected: each constant force is the multiplier times the maximum
      isometric force of a muscle of its path. */
  lemma IntendedForceScales(p: Prescribed, muscles: seq<Muscle>, multiplier: real)
    ensures var cs := ConstantForces(p, muscles, multiplier, IntendedRule(multiplier)).1;
      forall k :: 0 <= k < |cs| ==>
        exists m :: 0 <= m < |muscles| && muscles[m].path == cs[k].path && cs[k].force == multiplier * muscles[m].maxIsometricForce
  {
    AppendedFromMuscle(p, muscles, IntendedRule(multiplier));
  }

  /** With a multiplier above -1, every muscle not yet prescribed by force,
      activation or control is prescribed a constant force whose value the
      rule gives; the force list grows as it goes. */
  method ConstantMuscleForces(p: Prescribed, muscles: seq<Muscle>, multiplier: real, rule: ForceRule)
    returns (frc: seq<string>, constants: seq<ConstantForce>)
    ensures (frc, constants) == ConstantForces(p, muscles, multiplier, rule)
    ensures multiplier <= -1.0 ==> frc == p.frc && constants == []
    ensures |frc| == |p.frc| + |constants| && frc[..|p.frc|] == p.frc
    ensures forall k :: 0 <= k < |constants| ==> frc[|p.frc| + k] == constants[k].path
    ensures forall k :: 0 <= k < |constants| ==>
      constants[k].path !in p.act && constants[k].path !in p.control && constants[k].path !in p.frc
    ensures forall k :: 0 <= k < |constants| ==> FromMuscle(constants[k], muscles, rule)
    ensures multiplier > -1.0 ==>
      forall m :: 0 <= m < |muscles| ==> muscles[m].path in frc || muscles[m].path in p.act || muscles[m].path in p.control
    ensures NoDuplicates(p.frc) ==> NoDuplicates(frc)
  {
    frc, constants := p.frc, [];
    if multiplier <= -1.0 {
      return;
    }
    for m := 0 to |muscles|
      invariant |frc| == |p.frc| + |constants| && frc[..|p.frc|] == p.frc
      invariant forall k :: 0 <= k < |constants| ==> frc[|p.frc| + k] == constants[k].path
      invariant forall k :: 0 <= k < |constants| ==>
        constants[k].path !in p.act && constants[k].path !in p.control && constants[k].path !in p.frc
      invariant forall k :: 0 <= k < |constants| ==> FromMuscle(constants[k], muscles, rule)
      invariant forall i :: 0 <= i < m ==> muscles[i].path in frc || muscles[i].path in p.act || muscles[i].path in p.control
      invariant NoDuplicates(p.frc) ==> NoDuplicates(frc)
      invariant (frc, constants) == Appended(p, muscles[..m], rule)
    {
      assert muscles[..m + 1][..m] == muscles[..m];
      var path := muscles[m].path;
      if Contains(frc, path) || Contains(p.act, path) || Contains(p.control, path) {
        continue;
      }
      frc := frc + [path];
      constants := constants + [ConstantForce(path, rule(muscles[m]))];
    }
    assert muscles[..|muscles|] == muscles;
  }
}
