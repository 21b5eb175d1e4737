/** The AnyBubble adapter (bubbler/anybubble.py): the potential in
    Mathematica variables `chi[i]`, vacua in curly-brace list syntax, the
    wolframscript program, and the trajectory table with the radius moved
    to the front. The script run and the files it writes are inputs. */
module AnyBubble {

  import opened Results
  import opened Text
  import opened Tables
  import opened Shell
  import opened Potentials

  /** The Mathematica variable of field `i`: one-based, `chi[i+1]`. */
  function ChiRef(i: nat): string {
    "chi[" + NatToString(i + 1) + "]"
  }

  /** The replacement loop from field `i` on: plain substring replacement,
      one field after the other, with no boundary check. */
  function ChiFrom(names: seq<string>, i: nat, s: string): (r: string)
    requires i <= |names|
    ensures (forall k :: i <= k < |names| ==> !Contains(s, names[k])) ==> r == s
    decreases |names| - i
  {
    if i == |names| then s
    else
      assert !Contains(s, names[i]) ==> |names[i]| > 0 by {
        assert s[..0] == "";
      }
      ChiFrom(names, i + 1, ReplaceAll(s, names[i], ChiRef(i)))
  }

  /** `math_potential` in `solve`: a ginac text that mentions none of the
      field names is passed to Mathematica unchanged. */
  function MathPotential(p: Potential): (r: string)
    ensures (forall k :: 0 <= k < |p.FieldNames()| ==> !Contains(p.ginac, p.FieldNames()[k])) ==> r == p.ginac
  {
    ChiFrom(p.FieldNames(), 0, p.ginac)
  }

  /** For a single field, the rewriting is undone by replacing `chi[1]`
      back by the name, as long as the text holds no 'c'. */
  lemma MathPotentialSingleRoundTrip(p: Potential)
    requires p.FieldCount() == 1 && |p.FieldNames()[0]| > 0
    requires 'c' !in p.ginac
    ensures ReplaceAll(MathPotential(p), "chi[1]", p.FieldNames()[0]) == p.ginac
  {
    MathPotentialSingle(p);
    ReplaceAllRoundTrip(p.ginac, p.FieldNames()[0], "chi[1]");
  }

  /** With one field, the loop is a single `str.replace` by `chi[1]`. */
  lemma MathPotentialSingle(p: Potential)
    requires p.FieldCount() == 1
    ensures MathPotential(p) == ReplaceAll(p.ginac, p.FieldNames()[0], "chi[1]")
  {
    var names := p.FieldNames();
    assert ChiRef(0) == "chi[1]";
    var once := ReplaceAll(p.ginac, names[0], ChiRef(0));
    assert ChiFrom(names, 1, once) == once;
    assert MathPotential(p) == ChiFrom(names, 0, p.ginac) == once;
  }

  /** For a single field, the first mention of its name, however long,
      becomes `chi[1]`: the text before it is kept and the rest of the text
      is rewritten in the same way. */
  lemma MathPotentialFirstMention(p: Potential, q: nat)
    requires p.FieldCount() == 1 && |p.FieldNames()[0]| > 0
    requires OccursAt(p.ginac, q, p.FieldNames()[0])
    requires forall j: nat :: j < q ==> !OccursAt(p.ginac, j, p.FieldNames()[0])
    ensures MathPotential(p)
      == p.ginac[..q] + "chi[1]" + ReplaceAll(p.ginac[q + |p.FieldNames()[0]|..], p.FieldNames()[0], "chi[1]")
  {
    var g, n := p.ginac, p.FieldNames()[0];
    var tail := ReplaceAll(g[q + |n|..], n, "chi[1]");
    assert MathPotential(p) == ReplaceAll(g, n, "chi[1]") by {
      MathPotentialSingle(p);
    }
    assert ReplaceAll(g, n, "chi[1]") == g[..q] + "chi[1]" + tail by {
      ReplaceAllFirstMatch(g, n, "chi[1]", q);
    }
  }

  /** A two-character name mentioned twice: `ab*ab` becomes
      `chi[1]*chi[1]`. */
  lemma LongNameExample(p: Potential)
    requires p.ginac == "ab*ab" && p.FieldNames() == ["ab"]
    ensures MathPotential(p) == "chi[1]*chi[1]"
  {
    var n := "ab";
    assert OccursAt(p.ginac, 0, n) by {
      assert p.ginac[0..2] == n;
    }
    MathPotentialFirstMention(p, 0);
    var rest := p.ginac[2..];
    assert rest == "*ab";
    assert !OccursAt(rest, 0, n) by {
      assert rest[0..2][0] == '*';
    }
    assert OccursAt(rest, 1, n) by {
      assert rest[1] == 'a' && rest[2] == 'b';
      assert rest[1..3] == n;
    }
    ReplaceAllFirstMatch(rest, n, "chi[1]", 1);
    assert rest[..1] == "*" && rest[3..] == "";
    assert ReplaceAll("", n, "chi[1]") == "";
  }

  /** With no boundary check, a name is rewritten inside longer words too:
      the x of "exp" becomes a variable. */
  lemma NoBoundaryExample()
    ensures ReplaceAll("exp", "x", "chi[1]") == "echi[1]p"
  {
    ReplaceAllOneChar("exp", 'x', "chi[1]");
  }

  lemma SecondPass()
    ensures ReplaceAll("chi[1]", "h", "chi[2]") == "cchi[2]i[1]"
  {
    ReplaceAllOneChar("chi[1]", 'h', "chi[2]");
  }

  /** The replacement is sequential: a later field name occurring inside an
      earlier `chi[...]` is rewritten there as well ("h" in "chi"). */
  lemma SequentialExample()
    ensures ChiFrom(["x", "h"], 0, "x") == "cchi[2]i[1]"
  {
    var names := ["x", "h"];
    assert ChiRef(0) == "chi[1]" && ChiRef(1) == "chi[2]";
    assert ReplaceAll("x", "x", "chi[1]") == "chi[1]";
    SecondPass();
    assert ChiFrom(names, 0, "x") == ChiFrom(names, 1, "chi[1]");
    assert ChiFrom(names, 1, "chi[1]") == ChiFrom(names, 2, "cchi[2]i[1]");
  }

  function CurlyChar(c: char): char {
    if c == '[' then '{' else if c == ']' then '}' else c
  }

  /** `curly`'s character replacement: every '[' becomes '{' and every ']'
      becomes '}'; the length and all other characters are unchanged. */
  function Curly(s: string): (r: string)
    ensures |r| == |s|
    ensures forall i :: 0 <= i < |s| ==> r[i] == CurlyChar(s[i])
  {
    var t := ReplaceAll(s, "[", "{");
    ReplaceAllChar(s, '[', '{');
    ReplaceAllChar(t, ']', '}');
    ReplaceAll(t, "]", "}")
  }

  /** Turning the braces back into brackets recovers a text that had no
      braces of its own. */
  lemma CurlyRoundTrip(s: string)
    requires '{' !in s && '}' !in s
    ensures ReplaceAll(ReplaceAll(Curly(s), "{", "["), "}", "]") == s
  {
    var c := Curly(s);
    var t := ReplaceAll(c, "{", "[");
    ReplaceAllChar(c, '{', '[');
    ReplaceAllChar(t, '}', ']');
    var u := ReplaceAll(t, "}", "]");
    assert |u| == |s|;
    forall i | 0 <= i < |s|
      ensures u[i] == s[i]
    {
      assert s[i] != '{' && s[i] != '}';
    }
  }

  /** `curly(array)`: `str(array.tolist())` with brackets made braces; the
      list text is `[` + the elements' `repr` joined by ", " + `]`. */
  function VacuumText(v: Vacuum, repr: Num -> string): (r: string)
    ensures |r| >= 2 && r[0] == '{' && r[|r| - 1] == '}'
    ensures (forall k :: 0 <= k < |v.Components(repr)| ==>
               '[' !in v.Components(repr)[k] && ']' !in v.Components(repr)[k]) ==>
            r == "{" + Join(v.Components(repr), ", ") + "}"
  {
    var parts := v.Components(repr);
    if forall k :: 0 <= k < |parts| ==> '[' !in parts[k] && ']' !in parts[k] then
      JoinAvoids(parts, ", ", '[');
      JoinAvoids(parts, ", ", ']');
      CurlyBracketed(Join(parts, ", "));
      Curly("[" + Join(parts, ", ") + "]")
    else
      Curly("[" + Join(parts, ", ") + "]")
  }

  /** Wrapping a bracket-free text in brackets and bracing it gives the
      text between braces. */
  lemma CurlyBracketed(s: string)
    requires '[' !in s && ']' !in s
    ensures Curly("[" + s + "]") == "{" + s + "}"
  {
    var inner := "[" + s + "]";
    var c := Curly(inner);
    forall i | 0 <= i < |c|
      ensures c[i] == ("{" + s + "}")[i]
    {
      if 0 < i < |c| - 1 {
        assert inner[i] == s[i - 1];
      }
    }
  }

  function ScriptHead(home: string): string {
    "\n#!/usr/bin/env wolframscript\nSetDirectory[\"" + home + "\"]\n<< anybubble`\n"
  }

  function PotentialLine(math: string): string {
    "potential = ToExpression[\"" + math + "\"];\n"
  }

  function FindBubbleLine(trueVacuum: string, falseVacuum: string, dim: nat): string {
    "sol = FindBubble[potential, chi, " + trueVacuum + ", " + falseVacuum
    + ", SpaceTimeDimension -> " + NatToString(dim) + ", PowellVerbosity -> 0, Verbose -> False];\n"
  }

  function ScriptTail(dir: string): string {
    "action = sol[[1]];\nR = Subdivide[0, 100, 1000] // N;\nfields = Map[sol[[2]], R];\n"
    + "traj = MapThread[Append, {fields, R}];\n"
    + "Export[\"" + dir + "/traj.txt\", traj, \"Table\"];\n"
    + "Export[\"" + dir + "/action.txt\", action];\nQuit[];\n"
  }

  /** The wolframscript program `SCRIPT.format(...)`: it opens by moving
      to the AnyBubble home and loading the package, and closes by
      exporting the results to `dir` and quitting. */
  function Script(home: string, math: string, trueVacuum: string, falseVacuum: string,
                  dim: nat, dir: string): (r: string)
    ensures StartsWith(r, ScriptHead(home)) && EndsWith(r, ScriptTail(dir))
  {
    var pieces := [ScriptHead(home), PotentialLine(math), FindBubbleLine(trueVacuum, falseVacuum, dim), ScriptTail(dir)];
    ConcatStartsWith(pieces);
    ConcatEndsWith(pieces);
    Concat(pieces)
  }

  /** The program reads the potential in `chi` variables and passes the
      true vacuum before the false one, then the dimension. */
  lemma ScriptContents(home: string, math: string, tv: string, fv: string, dim: nat, dir: string)
    ensures Contains(Script(home, math, tv, fv, dim, dir), PotentialLine(math))
    ensures Contains(Script(home, math, tv, fv, dim, dir), FindBubbleLine(tv, fv, dim))
  {
    var pieces := [ScriptHead(home), PotentialLine(math), FindBubbleLine(tv, fv, dim), ScriptTail(dir)];
    ContainsSelf(PotentialLine(math));
    ContainsInPiece(pieces, 1, PotentialLine(math));
    ContainsSelf(FindBubbleLine(tv, fv, dim));
    ContainsInPiece(pieces, 2, FindBubbleLine(tv, fv, dim));
  }

  /** A row as the script exports it: the field values, then the radius. */
  function ExportedRow(fields: seq<Num>, radius: Num): Row {
    fields + [radius]
  }

  /** `trajectory_data[:, [n] + range(n)]`: the radius column `n` moves to
      the front and the field columns follow in order; a row without
      column `n` raises. */
  function ReorderColumns(t: Table, n: nat): (r: Result<Table>)
    ensures r.Err? <==> !HasColumn(t, n)
    ensures r.Err? ==> r.message == IndexOutOfBounds
    ensures r.Ok? ==> |r.value| == |t|
    ensures r.Ok? ==> forall k :: 0 <= k < |t| ==>
      |r.value[k]| == n + 1 && r.value[k][0] == t[k][n]
      && forall j :: 0 <= j < n ==> r.value[k][j + 1] == t[k][j]
  {
    if !HasColumn(t, n) then Err(IndexOutOfBounds)
    else Ok(seq(|t|, k requires 0 <= k < |t| => [t[k][n]] + t[k][..n]))
  }

  /** Rows exported as (fields, radius) come back as (radius, fields):
      the reorder completes the round trip of the script's export. */
  lemma ReorderExported(fields: seq<seq<Num>>, radii: seq<Num>, n: nat)
    requires |fields| == |radii|
    requires forall k :: 0 <= k < |fields| ==> |fields[k]| == n
    ensures var t := seq(|fields|, k requires 0 <= k < |fields| => ExportedRow(fields[k], radii[k]));
      ReorderColumns(t, n) == Ok(seq(|fields|, k requires 0 <= k < |fields| => [radii[k]] + fields[k]))
  {
    var t := seq(|fields|, k requires 0 <= k < |fields| => ExportedRow(fields[k], radii[k]));
    var expected := seq(|fields|, k requires 0 <= k < |fields| => [radii[k]] + fields[k]);
    assert HasColumn(t, n);
    var r := ReorderColumns(t, n).value;
    forall k | 0 <= k < |t|
      ensures r[k] == expected[k]
    {
      assert t[k][..n] == fields[k];
    }
    assert r == expected;
  }

  /** What the outside world supplies to one AnyBubble run. */
  datatype Io = Io(
    env: map<string, string>,       // the process environment
    tempDir: string,                // what `tempfile.mkdtemp()` returns
    run: Run,                       // how `math -script` ended
    trajectoryFile: Result<Table>,  // `np.loadtxt` of traj.txt
    actionFile: Result<Num>,        // `float(np.loadtxt(...))` of action.txt
    time: Num)                      // the clock's reading

  const CrashPrefix := "AnyBubble crashed"

  /** The names bound at the top level of the `anybubble` module: its
      imports, the script template and `solve`. `curly` is local to
      `solve`, so it is not among them. */
  const ModuleNames: set<string> := {"clock", "check_output", "os", "np", "tempfile", "SCRIPT", "solve"}

  /** The default space-time dimension of `solve`. */
  const DefaultDimension: nat := 3

  /** `anybubble.solve`. The script it writes, which is where `dim` and
      `repr` enter, is modelled in `SolveScript`; the result depends on it
      only through the process run that `io` describes. */
  function Solve(p: Potential, output: Option<string>, dim: nat, repr: Num -> string, io: Io): (r: Result<Raw>)
    ensures "ANYBUBBLE" !in io.env ==> r == Err("ANYBUBBLE")
    ensures "ANYBUBBLE" in io.env && io.run.Crashed? ==> r == Err(CrashPrefix + ": " + io.run.message)
    ensures r.Ok? <==> ("ANYBUBBLE" in io.env && io.run.Completed? && io.trajectoryFile.Ok?
                        && HasColumn(io.trajectoryFile.value, p.FieldCount()) && io.actionFile.Ok?)
    ensures r.Ok? ==> r.value.command == "math -script " + OutputDir(output, io.tempDir) + "/anybubble.ws"
    ensures r.Ok? ==> r.value.action == io.actionFile.value && r.value.time == io.time
    ensures r.Ok? ==> r.value.trajectory == ReorderColumns(io.trajectoryFile.value, p.FieldCount()).value
  {
    var dir := OutputDir(output, io.tempDir);
    match Getenv(io.env, "ANYBUBBLE")
    case Err(m) => Err(m)
    case Ok(home) =>
      var command := "math -script " + dir + "/anybubble.ws";
      match Wrap(io.run, CrashPrefix)
      case Err(m) => Err(m)
      case Ok(_) =>
        match io.trajectoryFile
        case Err(m) => Err(m)
        case Ok(table) =>
          match ReorderColumns(table, p.FieldCount())
          case Err(m) => Err(m)
          case Ok(trajectory) =>
            match io.actionFile
            case Err(m) => Err(m)
            case Ok(action) => Ok(Raw(action, trajectory, io.time, command))
  }

  /** The script `Solve` writes to `<dir>/anybubble.ws` before running it. */
  function SolveScript(p: Potential, output: Option<string>, dim: nat, repr: Num -> string, io: Io): (r: Result<string>)
    ensures r.Ok? <==> "ANYBUBBLE" in io.env
    ensures r.Ok? ==> Contains(r.value, PotentialLine(MathPotential(p)))
    ensures r.Ok? ==> Contains(r.value, FindBubbleLine(VacuumText(p.trueVacuum, repr), VacuumText(p.falseVacuum, repr), dim))
  {
    match Getenv(io.env, "ANYBUBBLE")
    case Err(m) => Err(m)
    case Ok(home) =>
      var tv := VacuumText(p.trueVacuum, repr);
      var fv := VacuumText(p.falseVacuum, repr);
      var dir := OutputDir(output, io.tempDir);
      ScriptContents(home, MathPotential(p), tv, fv, dim, dir);
      Ok(Script(home, MathPotential(p), tv, fv, dim, dir))
  }
}
