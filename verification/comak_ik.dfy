/**
 * The pre- and post-processing arithmetic of the COMAK inverse-kinematics
 * tool: resolving and validating the secondary coordinates, the quadratic
 * sweep of the coupled coordinate, the interpolation grid of the secondary
 * constraint functions, the inverse-kinematics time window and the
 * per-frame marker error summary.
 */
module ComakInverseKinematics {

  import opened Wrappers
  import opened HelperFunctions

  /** A model coordinate: its name, its absolute path, and whether it is
      rotational (its values are given in degrees in the settings). */
  datatype Coordinate = Coordinate(name: string, path: string, rotational: bool)

  // ---------------------------------------------------------------------
  // Resolving coordinate names to paths

  /** How many coordinates are named `x`. */
  function NameCount(coords: seq<Coordinate>, x: string): nat
    decreases |coords|
  {
    if |coords| == 0 then 0
    else NameCount(coords[..|coords| - 1], x) + (if coords[|coords| - 1].name == x then 1 else 0)
  }

  /** A coordinate named `x` is counted before any later one. */
  lemma {:induction false} NameCountGrows(coords: seq<Coordinate>, x: string, k: nat, m: nat)
    requires k < m <= |coords| && coords[k].name == x
    ensures NameCount(coords[..m], x) >= NameCount(coords[..k], x) + 1
    decreases m
  {
    assert coords[..m][..m - 1] == coords[..m - 1];
    if k < m - 1 {
      NameCountGrows(coords, x, k, m - 1);
    }
  }

  lemma NameCountGrowsBefore(coords: seq<Coordinate>, x: string, n: nat)
    requires n <= |coords|
    ensures forall k :: 0 <= k < n && coords[k].name == x ==> NameCount(coords[..n], x) >= NameCount(coords[..k], x) + 1
  {
    forall k | 0 <= k < n && coords[k].name == x ensures NameCount(coords[..n], x) >= NameCount(coords[..k], x) + 1 {
      NameCountGrows(coords, x, k, n);
    }
  }

  /** Without an earlier coordinate named `x`, none has been counted. */
  lemma {:induction false} NameCountNone(coords: seq<Coordinate>, x: string, k: nat)
    requires k <= |coords| && forall i :: 0 <= i < k ==> coords[i].name != x
    ensures NameCount(coords[..k], x) == 0
    decreases k
  {
    if k > 0 {
      assert coords[..k][..k - 1] == coords[..k - 1];
      NameCountNone(coords, x, k - 1);
    }
  }

  /** The path of the `j`-th coordinate (counting from 0) named `x`, or `x`
      itself when fewer coordinates have that name. */
  function ResolveNth(coords: seq<Coordinate>, x: string, j: nat): (r: string)
    ensures j >= NameCount(coords, x) ==> r == x
    ensures j < NameCount(coords, x) ==> exists k :: 0 <= k < |coords| && coords[k].name == x && r == coords[k].path
    ensures forall k :: 0 <= k < |coords| && coords[k].name == x && NameCount(coords[..k], x) == j ==> r == coords[k].path
    decreases |coords|
  {
    if |coords| == 0 then x
    else
      var n := |coords| - 1;
      assert forall k :: 0 <= k < n ==> coords[..n][k] == coords[k];
      assert forall k :: 0 <= k <= n ==> coords[..n][..k] == coords[..k];
      NameCountGrowsBefore(coords, x, n);
      if coords[n].name == x && NameCount(coords[..n], x) == j then coords[n].path
      else ResolveNth(coords[..n], x, j)
  }

  /** The path of the first coordinate named `x`, or `x` itself when no
      coordinate has that name. */
  function ResolveName(coords: seq<Coordinate>, x: string): (r: string)
    ensures r == x || exists k :: 0 <= k < |coords| && coords[k].name == x && r == coords[k].path
    ensures (forall k :: 0 <= k < |coords| ==> coords[k].name != x) ==> r == x
    ensures forall k :: 0 <= k < |coords| && coords[k].name == x && (forall i :: 0 <= i < k ==> coords[i].name != x) ==>
      r == coords[k].path
  {
    forall k | 0 <= k <= |coords| && (forall i :: 0 <= i < k ==> coords[i].name != x) ensures NameCount(coords[..k], x) == 0 {
      NameCountNone(coords, x, k);
    }
    assert coords[..|coords|] == coords;
    ResolveNth(coords, x, 0)
  }

  /** The walk over the coordinates that replaces the coupled coordinate's
      name by its path: each coordinate compares its name with the current
      value. */
  function RewriteCoupled(coupled: string, coords: seq<Coordinate>): (r: string)
    ensures r == coupled || exists k :: 0 <= k < |coords| && r == coords[k].path
    decreases |coords|
  {
    if |coords| == 0 then coupled
    else
      var n := |coords| - 1;
      var cur := RewriteCoupled(coupled, coords[..n]);
      assert forall k :: 0 <= k < n ==> coords[..n][k] == coords[k];
      if cur == coords[n].name then coords[n].path else cur
  }

  /** The same walk over the secondary list: each coordinate replaces the
      first entry equal to its name by its path. */
  function RewriteSecondary(secondary: seq<string>, coords: seq<Coordinate>): (r: seq<string>)
    ensures |r| == |secondary|
    ensures forall i :: 0 <= i < |r| ==> r[i] == secondary[i] || exists k :: 0 <= k < |coords| && r[i] == coords[k].path
    decreases |coords|
  {
    if |coords| == 0 then secondary
    else
      var n := |coords| - 1;
      var cur := RewriteSecondary(secondary, coords[..n]);
      assert forall k :: 0 <= k < n ==> coords[..n][k] == coords[k];
      var ind := IndexOf(cur, coords[n].name);
      if ind > -1 then cur[ind := coords[n].path] else cur
  }

  /** No coordinate name is also a coordinate path (paths start with `/`). */
  predicate NamesAreNotPaths(coords: seq<Coordinate>) {
    forall i, j :: 0 <= i < |coords| && 0 <= j < |coords| ==> coords[i].name != coords[j].path
  }

  lemma NamesAreNotPathsPrefix(coords: seq<Coordinate>, n: nat)
    requires NamesAreNotPaths(coords) && n <= |coords|
    ensures NamesAreNotPaths(coords[..n])
  {
    assert forall k :: 0 <= k < n ==> coords[..n][k] == coords[k];
  }

  /** With names that are not paths, the coupled walk resolves the name to
      the path of the first coordinate bearing it. */
  lemma {:induction false} RewriteCoupledResolves(coupled: string, coords: seq<Coordinate>)
    requires NamesAreNotPaths(coords)
    ensures RewriteCoupled(coupled, coords) == ResolveName(coords, coupled)
    decreases |coords|
  {
    if |coords| > 0 {
      var n := |coords| - 1;
      var c := coords[n];
      NamesAreNotPathsPrefix(coords, n);
      RewriteCoupledResolves(coupled, coords[..n]);
      var r := ResolveNth(coords[..n], coupled, 0);
      if NameCount(coords[..n], coupled) > 0 {
        var k :| 0 <= k < n && coords[..n][k].name == coupled && r == coords[..n][k].path;
        assert coords[..n][k] == coords[k];
        assert r != c.name;
        assert ResolveNth(coords, coupled, 0) == r;
        assert RewriteCoupled(coupled, coords) == r;
      } else {
        assert RewriteCoupled(coupled, coords) == if coupled == c.name then c.path else coupled;
      }
    }
  }

  /** How many of the first `i` entries of `s` equal `x`. */
  function CountBefore(s: seq<string>, x: string, i: nat): nat
    requires i <= |s|
  {
    if i == 0 then 0 else CountBefore(s, x, i - 1) + (if s[i - 1] == x then 1 else 0)
  }

  /** A later occurrence of `x` has more occurrences before it. */
  lemma {:induction false} CountBeforeGrows(s: seq<string>, x: string, j: nat, i: nat)
    requires j < i <= |s| && s[j] == x
    ensures CountBefore(s, x, i) >= CountBefore(s, x, j) + 1
    decreases i
  {
    if j < i - 1 {
      CountBeforeGrows(s, x, j, i - 1);
    }
  }

  /** When no occurrence of `x` before `i` has exactly `m` occurrences before
      it, at most `m` occurrences precede `i`. */
  lemma {:induction false} CountBeforeBound(s: seq<string>, x: string, i: nat, m: nat)
    requires i <= |s|
    requires forall j :: 0 <= j < i && s[j] == x ==> CountBefore(s, x, j) != m
    ensures CountBefore(s, x, i) <= m
    decreases i
  {
    if i > 0 {
      CountBeforeBound(s, x, i - 1, m);
    }
  }

  /** What the rewriting walk leaves at entry `i`: an entry that is the
      `j`-th occurrence of its name gets the path of the `j`-th coordinate
      bearing that name, and keeps its name when there is none. */
  function Rewritten(secondary: seq<string>, coords: seq<Coordinate>, i: nat): string
    requires i < |secondary|
  {
    ResolveNth(coords, secondary[i], CountBefore(secondary, secondary[i], i))
  }

  /** Before the last coordinate is visited, an entry holds the last name
      exactly when it was listed as that name and no earlier coordinate of
      that name was left for it. */
  lemma MatchesLastName(secondary: seq<string>, coords: seq<Coordinate>, cur: seq<string>, n: nat)
    requires NamesAreNotPaths(coords) && n + 1 == |coords| && |cur| == |secondary|
    requires forall i :: 0 <= i < |secondary| ==> cur[i] == Rewritten(secondary, coords[..n], i)
    ensures forall i :: 0 <= i < |secondary| ==>
      (cur[i] == coords[n].name <==>
        secondary[i] == coords[n].name && CountBefore(secondary, coords[n].name, i) >= NameCount(coords[..n], coords[n].name))
  {
    var y := coords[n].name;
    forall i | 0 <= i < |secondary|
      ensures cur[i] == y <==> secondary[i] == y && CountBefore(secondary, y, i) >= NameCount(coords[..n], y)
    {
      var x := secondary[i];
      var o := CountBefore(secondary, x, i);
      assert cur[i] == ResolveNth(coords[..n], x, o);
      if o < NameCount(coords[..n], x) {
        var k :| 0 <= k < n && coords[..n][k].name == x && cur[i] == coords[..n][k].path;
        assert coords[..n][k] == coords[k];
        assert cur[i] != y;
      }
    }
  }

  /** Visiting the last coordinate completes the rewriting. */
  lemma RewriteSecondaryStep(secondary: seq<string>, coords: seq<Coordinate>, n: nat)
    requires NamesAreNotPaths(coords) && n + 1 == |coords|
    requires forall i :: 0 <= i < |secondary| ==> RewriteSecondary(secondary, coords[..n])[i] == Rewritten(secondary, coords[..n], i)
    ensures forall i :: 0 <= i < |secondary| ==> RewriteSecondary(secondary, coords)[i] == Rewritten(secondary, coords, i)
  {
    var c := coords[n];
    var y := c.name;
    var cur := RewriteSecondary(secondary, coords[..n]);
    var b := NameCount(coords[..n], y);
    assert NameCount(coords, y) == b + 1;
    MatchesLastName(secondary, coords, cur, n);
    var ind := IndexOf(cur, y);
    assert forall k :: 0 <= k < ind ==> cur[..ind][k] == cur[k];
    if ind > -1 {
      // the entry replaced is the occurrence of `y` with `b` before it
      CountBeforeBound(secondary, y, ind, b);
    }
    forall i | 0 <= i < |secondary| ensures RewriteSecondary(secondary, coords)[i] == Rewritten(secondary, coords, i) {
      var x := secondary[i];
      var o := CountBefore(secondary, x, i);
      if x != y || o < b {
        assert cur[i] != y;
        assert ResolveNth(coords, x, o) == ResolveNth(coords[..n], x, o);
      } else if i == ind {
        assert ResolveNth(coords, y, o) == c.path;
      } else {
        assert cur[i] == y && cur[i] in cur;
        assert ind < i;
        CountBeforeGrows(secondary, y, ind, i);
        assert ResolveNth(coords, y, o) == y;
      }
    }
  }

  /** With names that are not paths, the `j`-th occurrence (counting from 0)
      of a name in the secondary list is rewritten to the path of the `j`-th
      coordinate bearing that name, and keeps the name when fewer coordinates
      bear it. */
  lemma {:induction false} RewriteSecondaryResolves(secondary: seq<string>, coords: seq<Coordinate>)
    requires NamesAreNotPaths(coords)
    ensures forall i :: 0 <= i < |secondary| ==>
      RewriteSecondary(secondary, coords)[i] == ResolveNth(coords, secondary[i], CountBefore(secondary, secondary[i], i))
    decreases |coords|
  {
    if |coords| > 0 {
      NamesAreNotPathsPrefix(coords, |coords| - 1);
      RewriteSecondaryResolves(secondary, coords[..|coords| - 1]);
      RewriteSecondaryStep(secondary, coords, |coords| - 1);
    }
  }

  /** On a duplicate-free list every entry is rewritten to its resolved path. */
  lemma RewriteSecondaryDistinct(secondary: seq<string>, coords: seq<Coordinate>)
    requires NamesAreNotPaths(coords) && NoDuplicates(secondary)
    ensures forall i :: 0 <= i < |secondary| ==> RewriteSecondary(secondary, coords)[i] == ResolveName(coords, secondary[i])
  {
    RewriteSecondaryResolves(secondary, coords);
    forall i | 0 <= i < |secondary| ensures CountBefore(secondary, secondary[i], i) == 0 {
      CountBeforeBound(secondary, secondary[i], i, 0);
    }
  }

  // ---------------------------------------------------------------------
  // Validation

  datatype ValidationError =
    | CoupledNotFound(name: string)
    | SecondaryNotFound(name: string)
    | ListedMultipleTimes(name: string)

  /** Component lookup by absolute path. */
  predicate HasPath(coords: seq<Coordinate>, path: string) {
    exists k :: 0 <= k < |coords| && coords[k].path == path
  }

  /** The first coordinate with the given path. */
  function CoordinateAt(coords: seq<Coordinate>, path: string): (c: Coordinate)
    requires HasPath(coords, path)
    ensures c in coords && c.path == path
  {
    if coords[0].path == path then coords[0]
    else
      assert forall k :: 1 <= k < |coords| ==> coords[k] == coords[1..][k - 1];
      CoordinateAt(coords[1..], path)
  }

  /** Secondary entry `i` names a coordinate and is listed only once. */
  predicate EntryValid(sec: seq<string>, coords: seq<Coordinate>, i: nat)
    requires i < |sec|
  {
    HasPath(coords, sec[i]) && Count(sec, sec[i]) <= 1
  }

  /** The error reported for entry `i`: existence is checked before repetition. */
  function EntryError(sec: seq<string>, coords: seq<Coordinate>, i: nat): ValidationError
    requires i < |sec|
  {
    if !HasPath(coords, sec[i]) then SecondaryNotFound(sec[i]) else ListedMultipleTimes(sec[i])
  }

  /** The entries are checked in order, each for existence and then for
      being listed more than once. */
  function CheckSecondary(sec: seq<string>, coords: seq<Coordinate>, from: nat): (r: Option<ValidationError>)
    requires from <= |sec|
    ensures r.None? <==> forall i :: from <= i < |sec| ==> HasPath(coords, sec[i]) && Count(sec, sec[i]) <= 1
    ensures r.Some? ==>
      exists i :: from <= i < |sec| && (r.value == SecondaryNotFound(sec[i]) || r.value == ListedMultipleTimes(sec[i]))
    // the error is that of the first offending entry
    ensures r.Some? ==>
      exists i :: from <= i < |sec| && !EntryValid(sec, coords, i) && r.value == EntryError(sec, coords, i) &&
        (forall j :: from <= j < i ==> EntryValid(sec, coords, j))
    decreases |sec| - from
  {
    if from == |sec| then None
    else if !EntryValid(sec, coords, from) then
      assert EntryError(sec, coords, from) == if !HasPath(coords, sec[from]) then SecondaryNotFound(sec[from]) else ListedMultipleTimes(sec[from]);
      Some(EntryError(sec, coords, from))
    else
      var r := CheckSecondary(sec, coords, from + 1);
      assert EntryValid(sec, coords, from);
      r
  }

  /** The validated secondary coordinates: their paths, names and positions
      among the model's coordinates. */
  datatype SecondarySetup = SecondarySetup(coupledPath: string, paths: seq<string>, names: seq<string>, indices: seq<int>)

  /** The last position of a coordinate with the given path, -1 when none. */
  function LastPathIndex(coords: seq<Coordinate>, path: string): (r: int)
    ensures -1 <= r < |coords|
    ensures r >= 0 ==> coords[r].path == path
    ensures forall k :: r < k < |coords| ==> coords[k].path != path
    decreases |coords|
  {
    if |coords| == 0 then -1
    else if coords[|coords| - 1].path == path then |coords| - 1
    else LastPathIndex(coords[..|coords| - 1], path)
  }

  /** The loop that fills the index of every secondary coordinate: each
      model coordinate writes its position into the first entry with its
      path. An entry never written keeps its initial value, which the
      source's resizing leaves unspecified and which is -1 here; once the
      presence and duplicate checks pass, every entry is written (see
      `ValidateCoordinates`). */
  method SecondaryIndices(paths: seq<string>, coords: seq<Coordinate>) returns (idx: seq<int>)
    ensures |idx| == |paths|
    ensures forall i :: 0 <= i < |paths| ==>
      idx[i] == if paths[i] in paths[..i] then -1 else LastPathIndex(coords, paths[i])
  {
    idx := seq(|paths|, _ => -1);
    for k := 0 to |coords|
      invariant |idx| == |paths|
      invariant forall i :: 0 <= i < |paths| ==>
        idx[i] == if paths[i] in paths[..i] then -1 else LastPathIndex(coords[..k], paths[i])
    {
      assert coords[..k + 1][..k] == coords[..k];
      var ind := IndexOf(paths, coords[k].path);
      if ind > -1 {
        idx := idx[ind := k];
      }
      forall i | 0 <= i < |paths| && paths[i] !in paths[..i] && paths[i] == coords[k].path ensures i == ind {
        IndexOfUnique(paths, paths[i], i);
      }
    }
    assert coords[..|coords|] == coords;
  }

  /** A second occurrence of a value is counted. */
  lemma {:induction false} CountTwice<T>(xs: seq<T>, i: nat, j: nat)
    requires i < j < |xs| && xs[i] == xs[j]
    ensures Count(xs, xs[i]) >= 2
    decreases |xs|
  {
    if i > 0 {
      CountTwice(xs[1..], i - 1, j - 1);
    } else {
      CountAtLeastOnce(xs[1..], j - 1, xs[0]);
    }
  }

  lemma {:induction false} CountAtLeastOnce<T>(xs: seq<T>, j: nat, x: T)
    requires j < |xs| && xs[j] == x
    ensures Count(xs, x) >= 1
    decreases |xs|
  {
    if j > 0 {
      CountAtLeastOnce(xs[1..], j - 1, x);
    }
  }

  lemma CountOnceNoDuplicates<T>(xs: seq<T>)
    requires forall i :: 0 <= i < |xs| ==> Count(xs, xs[i]) <= 1
    ensures NoDuplicates(xs)
  {
    forall i, j | 0 <= i < j < |xs| ensures xs[i] != xs[j] {
      if xs[i] == xs[j] {
        CountTwice(xs, i, j);
      }
    }
  }

  /** Rewrites names to paths, checks the coupled coordinate, then each
      secondary coordinate in order, and records names and indices. */
  method ValidateCoordinates(coupled: string, secondary: seq<string>, coords: seq<Coordinate>)
    returns (r: Result<SecondarySetup, ValidationError>)
    ensures var c := RewriteCoupled(coupled, coords);
      !HasPath(coords, c) ==> r == Failure(CoupledNotFound(c))
    ensures r.Success? ==>
      && r.value.coupledPath == RewriteCoupled(coupled, coords) && HasPath(coords, r.value.coupledPath)
      && r.value.paths == RewriteSecondary(secondary, coords)
      && NoDuplicates(r.value.paths)
      && |r.value.names| == |r.value.indices| == |r.value.paths|
      && forall i :: 0 <= i < |r.value.paths| ==>
        && 0 <= r.value.indices[i] < |coords|
        && coords[r.value.indices[i]].path == r.value.paths[i]
        && r.value.names[i] == CoordinateAt(coords, r.value.paths[i]).name
    ensures r.Failure? <==>
      !HasPath(coords, RewriteCoupled(coupled, coords))
      || CheckSecondary(RewriteSecondary(secondary, coords), coords, 0).Some?
    // past the coupled check, the error is the first offending secondary entry's
    ensures r.Failure? && HasPath(coords, RewriteCoupled(coupled, coords)) ==>
      r.error == CheckSecondary(RewriteSecondary(secondary, coords), coords, 0).value
  {
    var c := RewriteCoupled(coupled, coords);
    var sec := RewriteSecondary(secondary, coords);
    if !HasPath(coords, c) {
      return Failure(CoupledNotFound(c));
    }
    var check := CheckSecondary(sec, coords, 0);
    if check.Some? {
      return Failure(check.value);
    }
    CountOnceNoDuplicates(sec);
    var names := seq(|sec|, i requires 0 <= i < |sec| => CoordinateAt(coords, sec[i]).name);
    var idx := SecondaryIndices(sec, coords);
    forall i | 0 <= i < |sec| ensures 0 <= idx[i] < |coords| && coords[idx[i]].path == sec[i] {
      assert sec[i] !in sec[..i];
      var k :| 0 <= k < |coords| && coords[k].path == sec[i];
    }
    r := Success(SecondarySetup(c, sec, names, idx));
  }

  // ---------------------------------------------------------------------
  // Degrees to radians

  /** `SimTK::Pi` as a double. */
  const Pi: real := 3.141592653589793

  function DegToRad(deg: real): (rad: real)
    ensures rad * 180.0 == deg * Pi
  {
    deg * Pi / 180.0
  }

  /** The start or stop value of the coupled coordinate: converted from
      degrees only for a rotational coordinate. */
  function CoupledValue(c: Coordinate, v: real): real {
    if c.rotational then DegToRad(v) else v
  }

  lemma CoupledValueFacts(c: Coordinate, v: real)
    ensures !c.rotational ==> CoupledValue(c, v) == v
    ensures c.rotational ==> CoupledValue(c, v) * 180.0 / Pi == v
    ensures c.rotational && v == 180.0 ==> CoupledValue(c, v) == Pi
  {
    if c.rotational {
      assert CoupledValue(c, v) * 180.0 == v * Pi;
    }
  }

  // ---------------------------------------------------------------------
  // Quadratic sweep of the coupled coordinate

  /** Coefficients from the highest order down: p(t) = c1 t^2 + c2 t + c3. */
  datatype Quadratic = Quadratic(c1: real, c2: real, c3: real)

  function Eval(q: Quadratic, t: real): real {
    q.c1 * t * t + q.c2 * t + q.c3
  }

  /** Vertex time of the sweep. */
  const SweepStart: real := 0.0

  /** The parabola with its vertex at (`SweepStart`, `start`) through
      (`SweepStart + sweepTime`, `stop`); none for a zero sweep time, where
      `performIKSecondaryConstraintSimulation` divides by zero. */
  function SweepCoefficients(start: real, stop: real, sweepTime: real): (q: Option<Quadratic>)
    ensures q.None? <==> sweepTime == 0.0
  {
    var vx, vy := SweepStart, start;
    var px, py := vx + sweepTime, stop;
    var width := px - vx;
    if width == 0.0 then None
    else
      var a := (py - vy) / width / width;
      Some(Quadratic(a, -2.0 * a * vx, a * vx * vx + vy))
  }

  /** The sweep starts at `start` with zero speed and reaches `stop` after
      the sweep time. */
  lemma SweepEndpoints(start: real, stop: real, sweepTime: real)
    requires sweepTime != 0.0
    ensures var q := SweepCoefficients(start, stop, sweepTime).value;
      && Eval(q, SweepStart) == start
      && Eval(q, SweepStart + sweepTime) == stop
      && 2.0 * q.c1 * SweepStart + q.c2 == 0.0
  {
    var q := SweepCoefficients(start, stop, sweepTime).value;
    var b := (stop - start) / sweepTime;
    var a := b / sweepTime;
    assert q == Quadratic(a, 0.0, start);
    assert a * sweepTime == b;
    assert b * sweepTime == stop - start;
  }

  // ---------------------------------------------------------------------
  // Interpolation grid of the secondary constraint functions

  function MinOf(xs: seq<real>): (m: real)
    requires |xs| > 0
    ensures m in xs && forall k :: 0 <= k < |xs| ==> m <= xs[k]
  {
    if |xs| == 1 then xs[0]
    else
      var r := MinOf(xs[1..]);
      assert forall k :: 1 <= k < |xs| ==> xs[k] == xs[1..][k - 1];
      if xs[0] < r then xs[0] else r
  }

  function MaxOf(xs: seq<real>): (m: real)
    requires |xs| > 0
    ensures m in xs && forall k :: 0 <= k < |xs| ==> xs[k] <= m
  {
    if |xs| == 1 then xs[0]
    else
      var r := MaxOf(xs[1..]);
      assert forall k :: 1 <= k < |xs| ==> xs[k] == xs[1..][k - 1];
      if xs[0] > r then xs[0] else r
  }

  /** `npts` evenly spaced points from the minimum, step (max - min) / npts;
      the maximum itself is not a grid point. */
  function InterpolationGrid(lo: real, hi: real, npts: nat): (g: seq<real>)
    ensures |g| == npts
  {
    if npts == 0 then []
    else
      var step := (hi - lo) / (npts as real);
      seq(npts, i => lo + (i as real) * step)
  }

  /** The grid of the coupled coordinate's tracked values; none when there
      are no values. */
  function CoupledGrid(values: seq<real>, npts: nat): (g: Option<seq<real>>)
    ensures g.None? <==> |values| == 0
    ensures g.Some? ==> |g.value| == npts
  {
    if |values| == 0 then None else Some(InterpolationGrid(MinOf(values), MaxOf(values), npts))
  }

  lemma ScaleLess(x: real, y: real, s: real)
    requires x < y && s > 0.0
    ensures x * s < y * s
  {
    assert y * s - x * s == (y - x) * s;
  }

  /** Over a range of positive width, the grid starts at the minimum, is
      strictly increasing, stays below the maximum, and its last step lands
      on the maximum. */
  lemma GridSpansRange(lo: real, hi: real, npts: nat)
    requires lo < hi && npts > 0
    ensures var g := InterpolationGrid(lo, hi, npts);
      && g[0] == lo
      && (forall i, j :: 0 <= i < j < npts ==> g[i] < g[j])
      && (forall i :: 0 <= i < npts ==> lo <= g[i] < hi)
      && g[npts - 1] + (hi - lo) / (npts as real) == hi
  {
    var g := InterpolationGrid(lo, hi, npts);
    var n := npts as real;
    var step := (hi - lo) / n;
    assert step * n == hi - lo;
    assert step > 0.0;
    forall i, j | 0 <= i < j < npts ensures g[i] < g[j] {
      ScaleLess(i as real, j as real, step);
    }
    forall i | 0 <= i < npts ensures lo <= g[i] < hi {
      ScaleLess(i as real, n, step);
      assert (i as real) * step >= 0.0;
    }
    assert g[npts - 1] + step == lo + ((npts - 1) as real) * step + step;
    assert ((npts - 1) as real) * step + step == n * step;
  }

  // ---------------------------------------------------------------------
  // Inverse-kinematics time window

  /** The requested range clipped to the marker data's range; a final time
      before the start time is an error. */
  function IkTimeWindow(markerStart: real, markerEnd: real, rangeStart: real, rangeEnd: real): (r: Result<(real, real), string>)
    ensures r.Success? ==>
      && r.value.0 >= markerStart && r.value.0 >= rangeStart
      && (r.value.0 == markerStart || r.value.0 == rangeStart)
      && r.value.1 <= markerEnd && r.value.1 <= rangeEnd
      && (r.value.1 == markerEnd || r.value.1 == rangeEnd)
      && r.value.0 <= r.value.1
    ensures r.Failure? <==> markerEnd < rangeStart || rangeEnd < markerStart || markerEnd < markerStart || rangeEnd < rangeStart
  {
    var start := if markerStart > rangeStart then markerStart else rangeStart;
    var final := if markerEnd < rangeEnd then markerEnd else rangeEnd;
    if final >= start then Success((start, final))
    else Failure("final time is before start time")
  }

  /** A requested range inside the marker data is kept as requested. */
  lemma IkTimeWindowInsideMarkers(markerStart: real, markerEnd: real, rangeStart: real, rangeEnd: real)
    requires markerStart <= rangeStart <= rangeEnd <= markerEnd
    ensures IkTimeWindow(markerStart, markerEnd, rangeStart, rangeEnd) == Success((rangeStart, rangeEnd))
  {
  }

  // ---------------------------------------------------------------------
  // Marker errors of one frame

  function Sum(xs: seq<real>): real
    decreases |xs|
  {
    if |xs| == 0 then 0.0 else Sum(xs[..|xs| - 1]) + xs[|xs| - 1]
  }

  /** Total, largest (never below zero) and the first marker attaining the
      largest squared error; -1 when no error exceeds zero. */
  method MarkerErrors(squaredErrors: seq<real>) returns (total: real, maxSquared: real, worst: int)
    ensures total == Sum(squaredErrors)
    ensures -1 <= worst < |squaredErrors|
    ensures worst == -1 <==> forall k :: 0 <= k < |squaredErrors| ==> squaredErrors[k] <= 0.0
    ensures worst == -1 ==> maxSquared == 0.0
    ensures worst >= 0 ==> maxSquared == squaredErrors[worst] > 0.0
    ensures forall k :: 0 <= k < |squaredErrors| ==> squaredErrors[k] <= maxSquared
    ensures worst >= 0 ==> forall k :: 0 <= k < worst ==> squaredErrors[k] < maxSquared
  {
    total, maxSquared, worst := 0.0, 0.0, -1;
    for j := 0 to |squaredErrors|
      invariant total == Sum(squaredErrors[..j])
      invariant -1 <= worst < j
      invariant worst == -1 <==> forall k :: 0 <= k < j ==> squaredErrors[k] <= 0.0
      invariant worst == -1 ==> maxSquared == 0.0
      invariant worst >= 0 ==> maxSquared == squaredErrors[worst] > 0.0
      invariant forall k :: 0 <= k < j ==> squaredErrors[k] <= maxSquared
      invariant worst >= 0 ==> forall k :: 0 <= k < worst ==> squaredErrors[k] < maxSquared
    {
      assert squaredErrors[..j + 1][..j] == squaredErrors[..j];
      total := total + squaredErrors[j];
      if squaredErrors[j] > maxSquared {
        maxSquared := squaredErrors[j];
        worst := j;
      }
    }
    assert squaredErrors[..|squaredErrors|] == squaredErrors;
  }

  /** Mean squared error; the RMS reported is its square root. */
  function MeanSquared(total: real, nm: nat): (m: real)
    ensures nm > 0 ==> m * (nm as real) == total
    ensures nm == 0 ==> m == 0.0
  {
    if nm > 0 then total / (nm as real) else 0.0
  }
}
