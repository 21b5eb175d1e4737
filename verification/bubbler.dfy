/** The dispatcher (bubbler/bubbler.py): running one backend on a
    potential and turning its raw output into a `Solution`, or into the
    failure record when anything goes wrong; and running several backends
    into a dictionary keyed by backend name. */
module Bubbler {

  import opened Results
  import opened Tables
  import opened Potentials
  import BubbleProfiler
  import AnyBubble

  // ---------------------------------------------------------------------
  // Backends: globals()[backend]
  // ---------------------------------------------------------------------

  /** The three backend modules `bubbler.py` imports. */
  datatype Backend = CosmoTransitions | BubbleProfilerCode | AnyBubbleCode

  /** `BACKENDS`: the names `bubblers` uses by default. */
  const Backends: seq<string> := ["cosmotransitions", "bubbleprofiler", "anybubble"]

  /** The module's global name. */
  function Name(b: Backend): string {
    match b
    case CosmoTransitions => "cosmotransitions"
    case BubbleProfilerCode => "bubbleprofiler"
    case AnyBubbleCode => "anybubble"
  }

  /** The module a name refers to; any other name raises `KeyError`, whose
      message is the name. */
  function Lookup(name: string): (r: Result<Backend>)
    ensures r.Ok? <==> name in Backends
    ensures r.Ok? ==> Name(r.value) == name
    ensures r.Err? ==> r.message == name
  {
    if name == "cosmotransitions" then Ok(CosmoTransitions)
    else if name == "bubbleprofiler" then Ok(BubbleProfilerCode)
    else if name == "anybubble" then Ok(AnyBubbleCode)
    else Err(name)
  }

  /** Every backend is found under its own name, and the default list
      holds each backend once. */
  lemma LookupName(b: Backend)
    ensures Lookup(Name(b)) == Ok(b)
    ensures Name(b) in Backends
  {
  }

  /** The two adapters that exist but are not imported cannot be reached. */
  lemma UnimportedBackends()
    ensures Lookup("simplebounce") == Err("simplebounce")
    ensures Lookup("shooting") == Err("shooting")
  {
  }

  // ---------------------------------------------------------------------
  // Linear interpolation of the profiles, clamped to the end samples
  // ---------------------------------------------------------------------

  /** scipy's `ValueError` for fewer than two samples. */
  const TooFewEntries := "x and y arrays must have at least 2 entries"

  /** A linear interpolant through the samples `(xs[k], ys[k])`. */
  datatype Interpolant = Interpolant(xs: seq<Num>, ys: seq<Num>)
  {
    predicate Valid() {
      |xs| >= 2 && |ys| == |xs|
    }
  }

  /** The value of an interpolant at a point: outside the sampled range
      it is one of the two fill values; inside, a linear interpolation
      that is not modelled here. */
  datatype Sample = Clamped(value: Num) | Interior

  /** `interp(x, y)`: `y[0]` is taken first (an empty `y` raises), then
      scipy rejects fewer than two samples. */
  function Interp(xs: seq<Num>, ys: seq<Num>): (r: Result<Interpolant>)
    requires |xs| == |ys|
    ensures r.Ok? <==> |xs| >= 2
    ensures |xs| == 0 ==> r == Err(IndexOutOfBounds)
    ensures |xs| == 1 ==> r == Err(TooFewEntries)
    ensures r.Ok? ==> r.value.Valid() && r.value.xs == xs && r.value.ys == ys
  {
    if |ys| == 0 then Err(IndexOutOfBounds)
    else if |xs| < 2 then Err(TooFewEntries)
    else Ok(Interpolant(xs, ys))
  }

  /** Calling the interpolant: below the smallest sample point it gives
      the first sample's value, above the largest the last sample's. */
  function Evaluate(f: Interpolant, x: Num): (r: Sample)
    requires f.Valid()
    ensures (forall k :: 0 <= k < |f.xs| ==> x < f.xs[k]) ==> r == Clamped(f.ys[0])
    ensures (forall k :: 0 <= k < |f.xs| ==> f.xs[k] < x) ==> r == Clamped(f.ys[|f.ys| - 1])
    ensures (exists k :: 0 <= k < |f.xs| && f.xs[k] <= x) && (exists k :: 0 <= k < |f.xs| && x <= f.xs[k])
            ==> r == Interior
  {
    var lo := Min(f.xs);
    var hi := Max(f.xs);
    if x < lo then Clamped(f.ys[0])
    else if x > hi then Clamped(f.ys[|f.ys| - 1])
    else Interior
  }

  predicate Ascending(xs: seq<Num>) {
    forall i, j :: 0 <= i < j < |xs| ==> xs[i] < xs[j]
  }

  /** With ascending sample points, the profile holds its first value
      before the first point and its last value after the last point, and
      is interpolated in between. */
  lemma EvaluateAscending(f: Interpolant, x: Num)
    requires f.Valid() && Ascending(f.xs)
    ensures x < f.xs[0] ==> Evaluate(f, x) == Clamped(f.ys[0])
    ensures x > f.xs[|f.xs| - 1] ==> Evaluate(f, x) == Clamped(f.ys[|f.ys| - 1])
    ensures f.xs[0] <= x <= f.xs[|f.xs| - 1] ==> Evaluate(f, x) == Interior
  {
    var n := |f.xs|;
    if x < f.xs[0] {
      forall k | 0 <= k < n
        ensures x < f.xs[k]
      {
        if k > 0 {
          assert f.xs[0] < f.xs[k];
        }
      }
    }
    if x > f.xs[n - 1] {
      forall k | 0 <= k < n
        ensures f.xs[k] < x
      {
        if k < n - 1 {
          assert f.xs[k] < f.xs[n - 1];
        }
      }
    }
  }

  // ---------------------------------------------------------------------
  // From the raw output to a Solution
  // ---------------------------------------------------------------------

  /** The interpolant `f` runs along the table's radius column (column 0)
      with column `j` as values. */
  predicate Pairs(f: Interpolant, t: Table, j: nat) {
    |f.xs| == |t| && |f.ys| == |t|
    && forall k :: 0 <= k < |t| ==> 0 < |t[k]| && j < |t[k]| && f.xs[k] == t[k][0] && f.ys[k] == t[k][j]
  }

  /** The profiles of fields `i` to `n - 1`:
      `interp(t[:, 0], t[:, i + 1])`, stopping at the first failure. */
  function Profiles(t: Table, i: nat, n: nat): (r: Result<seq<Interpolant>>)
    requires i <= n
    ensures r.Ok? <==> i == n || (HasColumn(t, 0) && (forall c :: i < c <= n ==> HasColumn(t, c)) && |t| >= 2)
    ensures r.Err? ==> r.message == IndexOutOfBounds || r.message == TooFewEntries
    ensures r.Ok? ==> |r.value| == n - i
    ensures r.Ok? ==> forall k :: 0 <= k < n - i ==> r.value[k].Valid() && Pairs(r.value[k], t, i + k + 1)
    decreases n - i
  {
    if i == n then Ok([])
    else if !HasColumn(t, 0) || !HasColumn(t, i + 1) then Err(IndexOutOfBounds)
    else
      match Interp(Column(t, 0), Column(t, i + 1))
      case Err(m) => Err(m)
      case Ok(f) =>
        match Profiles(t, i + 1, n)
        case Err(m) => Err(m)
        case Ok(rest) =>
          var r := [f] + rest;
          assert forall k :: 1 <= k < n - i ==> r[k] == rest[k - 1];
          Ok(r)
  }

  /** `Solution(backend, action, trajectory, rho_end, time, command)`;
      a failure leaves every field but the backend and the command `None`,
      and the command holds the error's message. */
  datatype Solution = Solution(
    backend: string,
    action: Option<Num>,
    trajectory: Option<seq<Interpolant>>,
    rhoEnd: Option<Num>,
    time: Option<Num>,
    command: string)

  function Failure(backend: string, message: string): Solution {
    Solution(backend, None, None, None, None, message)
  }

  /** `s` reports the backend's run `raw` of a potential with `n` fields:
      its action, time and command, the last radius of the trajectory, and
      for each field the interpolant through (radius, field value). */
  predicate Reports(s: Solution, backend: string, raw: Raw, n: nat) {
    && s.backend == backend && s.command == raw.command
    && s.action == Some(raw.action) && s.time == Some(raw.time)
    && |raw.trajectory| > 0 && |raw.trajectory[|raw.trajectory| - 1]| > 0
    && s.rhoEnd == Some(raw.trajectory[|raw.trajectory| - 1][0])
    && s.trajectory.Some? && |s.trajectory.value| == n
    && forall i :: 0 <= i < n ==> Pairs(s.trajectory.value[i], raw.trajectory, i + 1)
  }

  /** The `try` body after `module.solve` returned: the profiles, then
      `rho_end = t[-1, 0]`. */
  function Finish(backend: string, raw: Raw, n: nat): (r: Result<Solution>)
    ensures r.Ok? <==> (Profiles(raw.trajectory, 0, n).Ok? && |raw.trajectory| > 0
                        && |raw.trajectory[|raw.trajectory| - 1]| > 0)
    ensures r.Ok? ==> Reports(r.value, backend, raw, n)
  {
    var t := raw.trajectory;
    match Profiles(t, 0, n)
    case Err(m) => Err(m)
    case Ok(profiles) =>
      if |t| == 0 || |t[|t| - 1]| == 0 then Err(IndexOutOfBounds)
      else Ok(Solution(backend, Some(raw.action), Some(profiles), Some(t[|t| - 1][0]), Some(raw.time), raw.command))
  }

  // ---------------------------------------------------------------------
  // bubbler and bubblers
  // ---------------------------------------------------------------------

  /** A potential as the caller passes it: a ginac string (with the
      symbolic facts sympy would derive from it) or a built object. */
  datatype PotentialInput = Text(ginac: string, algebra: Algebra) | Built(potential: Potential)

  /** `Potential(potential) if isinstance(potential, str) else potential`. */
  function Convert(input: PotentialInput): (r: Result<Potential>)
    ensures input.Built? ==> r == Ok(input.potential)
    ensures input.Text? ==> (r.Err? <==> |input.algebra.extrema| < 3)
    ensures input.Text? && r.Ok? ==> r.value.ginac == input.ginac && r.value.FieldNames() == input.algebra.fieldNames
  {
    match input
    case Text(g, alg) => MakePotential(g, alg, None, None, true)
    case Built(p) => Ok(p)
  }

  /** The outside world of the three backends. CosmoTransitions is a
      foreign solver and appears only as its outcome. */
  datatype World = World(
    cosmo: Potential -> Result<Raw>,
    bubbleProfiler: BubbleProfiler.Io,
    anyBubble: AnyBubble.Io,
    formats: Formats)

  /** `module.solve(potential)` with the module's default arguments. No
      output directory is given, so both external backends work in a fresh
      temporary directory, and BubbleProfiler runs with its default
      options. */
  function SolveWith(b: Backend, p: Potential, w: World): (r: Result<Raw>)
    ensures b == CosmoTransitions ==> r == w.cosmo(p)
    ensures b == BubbleProfilerCode && "BUBBLEPROFILER" !in w.bubbleProfiler.env ==> r == Err("BUBBLEPROFILER")
    ensures b == BubbleProfilerCode && r.Ok? ==>
      r.value.command == BubbleProfiler.Command(w.bubbleProfiler.env["BUBBLEPROFILER"], p, w.bubbleProfiler.tempDir,
                                                BubbleProfiler.DefaultOptions, w.formats.str)
    ensures b == AnyBubbleCode && "ANYBUBBLE" !in w.anyBubble.env ==> r == Err("ANYBUBBLE")
    ensures b == AnyBubbleCode && r.Ok? ==>
      r.value.command == "math -script " + w.anyBubble.tempDir + "/anybubble.ws"
  {
    match b
    case CosmoTransitions => w.cosmo(p)
    case BubbleProfilerCode => BubbleProfiler.Solve(p, None, BubbleProfiler.DefaultOptions, w.formats.str, w.bubbleProfiler)
    case AnyBubbleCode => AnyBubble.Solve(p, None, AnyBubble.DefaultDimension, w.formats.repr, w.anyBubble)
  }

  /** The chain of steps `bubbler` takes, up to the first error: look the
      backend up, convert the potential, solve, finish. */
  function Attempt(input: PotentialInput, backend: string, w: World): Result<Solution> {
    match Lookup(backend)
    case Err(m) => Err(m)
    case Ok(b) =>
      match Convert(input)
      case Err(m) => Err(m)
      case Ok(p) =>
        match SolveWith(b, p, w)
        case Err(m) => Err(m)
        case Ok(raw) => Finish(backend, raw, p.FieldCount())
  }

  /** `bubbler(potential, backend)`: never raises; any error becomes the
      failure record. */
  function Run(input: PotentialInput, backend: string, w: World): (r: Solution)
    ensures r.backend == backend
    ensures r.action.None? ==> r == Failure(backend, r.command)
    ensures r.action.None? <==> Attempt(input, backend, w).Err?
    ensures backend !in Backends ==> r == Failure(backend, backend)
    ensures backend in Backends && Convert(input).Err? ==> r == Failure(backend, Convert(input).message)
    ensures r.action.Some? ==> backend in Backends && Convert(input).Ok?
    ensures r.action.Some? ==>
      var raw := SolveWith(Lookup(backend).value, Convert(input).value, w);
      raw.Ok? && Reports(r, backend, raw.value, Convert(input).value.FieldCount())
  {
    match Attempt(input, backend, w)
    case Err(m) => Failure(backend, m)
    case Ok(s) => s
  }

  /** Converting the potential before dispatching, as `bubblers` does,
      gives the same result as letting `bubbler` convert it. */
  lemma RunConvertedFirst(input: PotentialInput, backend: string, w: World)
    requires input.Text? ==> |input.algebra.extrema| >= 3
    ensures Convert(input).Ok?
    ensures Run(Built(Convert(input).value), backend, w) == Run(input, backend, w)
  {
    assert Convert(input).Ok?;
    var p := Convert(input).value;
    assert Convert(Built(p)) == Ok(p);
    assert Attempt(Built(p), backend, w) == Attempt(input, backend, w);
  }

  /** `backends if backends else BACKENDS`: `None` and the empty list both
      mean every backend. */
  function Requested(backends: Option<seq<string>>): (r: seq<string>)
    ensures backends.None? || backends.value == [] ==> r == Backends
    ensures backends.Some? && backends.value != [] ==> r == backends.value
    ensures |r| > 0
  {
    match backends
    case Some(names) => if names != [] then names else Backends
    case None => Backends
  }

  /** `bubblers(potential, backends)`: the potential is converted once,
      outside any `try`, so a conversion error propagates; otherwise one
      entry per requested name. */
  function RunAll(input: PotentialInput, backends: Option<seq<string>>, w: World): (r: Result<map<string, Solution>>)
    ensures r.Err? <==> Convert(input).Err?
    ensures r.Err? ==> r.message == Convert(input).message
    ensures r.Ok? ==> r.value.Keys == set name | name in Requested(backends)
    ensures r.Ok? ==> forall name :: name in r.value ==>
      r.value[name] == Run(input, name, w) && r.value[name].backend == name
  {
    match Convert(input)
    case Err(m) => Err(m)
    case Ok(p) =>
      var names := Requested(backends);
      Ok(map name | name in names :: Run(Built(p), name, w))
  }

  lemma DefaultNames()
    ensures (set name | name in Backends) == {"cosmotransitions", "bubbleprofiler", "anybubble"}
  {
    var defaults := {"cosmotransitions", "bubbleprofiler", "anybubble"};
    assert forall name :: name in Backends <==> name in defaults;
  }

  /** With the default list, every backend has an entry, and only
      backends do. */
  lemma RunAllDefaults(input: PotentialInput, w: World)
    requires input.Text? ==> |input.algebra.extrema| >= 3
    ensures RunAll(input, None, w).Ok?
    ensures RunAll(input, None, w).value.Keys == {"cosmotransitions", "bubbleprofiler", "anybubble"}
  {
    DefaultNames();
  }

  /** `one_dim_bubblers(E, alpha, backends)`: the one-dimensional
      potential's guards raise before any backend runs. */
  function OneDimRunAll(E: Num, alpha: Num, fmt: Num -> string, alg: Algebra,
                        backends: Option<seq<string>>, w: World): (r: Result<map<string, Solution>>)
    ensures r.Ok? <==> 0.5 <= alpha <= 0.75 && E > 0.0
    ensures r.Ok? ==> r.value.Keys == set name | name in Requested(backends)
  {
    match OneDimPotential(E, alpha, fmt, alg)
    case Err(m) => Err(m)
    case Ok(p) => RunAll(Built(p), backends, w)
  }
}
