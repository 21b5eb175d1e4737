/** The BubbleProfiler adapter (bubbler/bubbleprofiler.py): the command
    line of `run_cmd_line_potential`, and the reading of its output files,
    keeping only the last iteration of the field profiles. The process run
    and the files it writes are inputs. */
module BubbleProfiler {

  import opened Results
  import opened Text
  import opened Tables
  import opened Shell
  import opened Potentials

  // ---------------------------------------------------------------------
  // Repeated flags: " ".join(["<flag> {}".format(v) for v in values])
  // ---------------------------------------------------------------------

  /** One `<flag> <value>` pair per value, separated by single spaces:
      nothing for no values, and otherwise the flag and the first value
      open the list. */
  function FlagList(flag: string, values: seq<string>): (r: string)
    ensures |values| == 0 ==> r == ""
    ensures |values| > 0 ==> StartsWith(r, flag + " " + values[0])
  {
    Join(seq(|values|, i requires 0 <= i < |values| => flag + " " + values[i]), " ")
  }

  /** The words of a flag list: the flag before each value. */
  function Interleave(flag: string, values: seq<string>): (r: seq<string>)
    ensures |r| == 2 * |values|
    ensures forall i :: 0 <= i < |values| ==> r[2 * i] == flag && r[2 * i + 1] == values[i]
    decreases |values|
  {
    if |values| == 0 then []
    else
      var rest := Interleave(flag, values[1..]);
      var r := [flag, values[0]] + rest;
      assert forall i :: 1 <= i < |values| ==> r[2 * i] == rest[2 * (i - 1)] && values[1..][i - 1] == values[i];
      assert forall i :: 1 <= i < |values| ==> r[2 * i + 1] == rest[2 * (i - 1) + 1];
      r
  }

  /** The flag list is its words joined by spaces. */
  lemma {:induction false} FlagListWords(flag: string, values: seq<string>)
    ensures FlagList(flag, values) == Join(Interleave(flag, values), " ")
    decreases |values|
  {
    if |values| >= 2 {
      FlagListWords(flag, values[1..]);
      FlagListWordsStep(flag, values);
    } else if |values| == 1 {
      var words := Interleave(flag, values);
      assert words == [flag, values[0]];
      assert words[1..] == [values[0]];
    }
  }

  /** The inductive step of `FlagListWords`: one more value adds its flag
      and itself in front. */
  lemma FlagListWordsStep(flag: string, values: seq<string>)
    requires |values| >= 2
    requires FlagList(flag, values[1..]) == Join(Interleave(flag, values[1..]), " ")
    ensures FlagList(flag, values) == Join(Interleave(flag, values), " ")
  {
    var pairs := seq(|values|, i requires 0 <= i < |values| => flag + " " + values[i]);
    var rest := values[1..];
    var words := Interleave(flag, values);
    var tail := Interleave(flag, rest);
    var jt := Join(tail, " ");
    assert Join(pairs[1..], " ") == jt by {
      assert pairs[1..] == seq(|rest|, i requires 0 <= i < |rest| => flag + " " + rest[i]);
    }
    assert Join(pairs, " ") == (flag + " " + values[0]) + " " + jt by {
      JoinCons(pairs, " ");
    }
    assert Join(words, " ") == flag + " " + (values[0] + " " + jt) by {
      assert words[1..] == [values[0]] + tail;
      assert ([values[0]] + tail)[1..] == tail;
      JoinCons(words, " ");
      JoinCons(words[1..], " ");
    }
    assert (flag + " " + values[0]) + " " + jt == flag + " " + (values[0] + " " + jt);
  }

  /** When neither the flag nor any value holds a space, splitting the flag
      list at spaces gives back the words, so every value can be read back
      after its flag. */
  lemma FlagListRoundTrip(flag: string, values: seq<string>)
    requires |values| >= 1
    requires ' ' !in flag
    requires forall i :: 0 <= i < |values| ==> ' ' !in values[i]
    ensures Split(FlagList(flag, values), ' ') == Interleave(flag, values)
    ensures forall i :: 0 <= i < |values| ==>
      Split(FlagList(flag, values), ' ')[2 * i] == flag
      && Split(FlagList(flag, values), ' ')[2 * i + 1] == values[i]
  {
    FlagListWords(flag, values);
    var words := Interleave(flag, values);
    forall k | 0 <= k < |words|
      ensures ' ' !in words[k]
    {
      if k % 2 == 0 {
        assert words[2 * (k / 2)] == flag;
      } else {
        assert words[2 * (k / 2) + 1] == values[k / 2];
      }
    }
    SplitJoin(words, ' ');
  }

  /** `--field '<name>'` for every field, in field order. */
  function FieldFlags(names: seq<string>): string {
    FlagList("--field", seq(|names|, i requires 0 <= i < |names| => "'" + names[i] + "'"))
  }

  /** `--local-minimum <x>` for every component of the false vacuum. */
  function LocalMinimumFlags(v: Vacuum, str: Num -> string): string {
    FlagList("--local-minimum", v.Components(str))
  }

  /** `--global-minimum <x>` for every component of the true vacuum. */
  function GlobalMinimumFlags(v: Vacuum, str: Num -> string): string {
    FlagList("--global-minimum", v.Components(str))
  }

  // ---------------------------------------------------------------------
  // The command line
  // ---------------------------------------------------------------------

  /** The keyword arguments of `solve` after the potential and the output
      directory. */
  datatype Options = Options(
    splineSamples: nat,
    knots: nat,
    rhoMin: Num,
    rhoMax: Num,
    rtolAction: Num,
    rtolFields: Num,
    integrationMethod: string)

  /** The defaults of `solve`. */
  const DefaultOptions := Options(1000, 10, 0.0001, 1000.0, 0.1, 0.1, "runge-kutta-4")

  const Discard := " > /dev/null 2>&1"

  function CommandHead(home: string, ginac: string): string {
    home + "/bin/run_cmd_line_potential --force-output --potential '" + ginac + "' "
  }

  /** The output directory, then the grid and the radial domain. */
  function OutputAndGrid(dir: string, o: Options, str: Num -> string): string {
    " --output-path " + dir + " --grid-points " + NatToString(o.splineSamples) + " --knots " + NatToString(o.knots)
    + " --domain-start " + str(o.rhoMin) + " --domain-end " + str(o.rhoMax)
  }

  /** The false vacuum's flags come before the true vacuum's. */
  function VacuumFlags(p: Potential, str: Num -> string): string {
    " " + LocalMinimumFlags(p.falseVacuum, str) + " " + GlobalMinimumFlags(p.trueVacuum, str)
  }

  function TolerancesAndMethod(o: Options, str: Num -> string): string {
    " --rtol-action " + str(o.rtolAction) + " --rtol-fields " + str(o.rtolFields)
    + " --integration-method " + o.integrationMethod
  }

  /** The pieces of the command line, in order. */
  function CommandPieces(home: string, p: Potential, dir: string, o: Options, str: Num -> string): seq<string> {
    [CommandHead(home, p.ginac), FieldFlags(p.FieldNames()), OutputAndGrid(dir, o, str),
     VacuumFlags(p, str), TolerancesAndMethod(o, str), Discard]
  }

  /** The shell command `solve` runs, `template.format(...)`: it passes
      every field name, quoted, after its own `--field` flag. */
  function Command(home: string, p: Potential, dir: string, o: Options, str: Num -> string): (r: string)
    ensures Contains(r, FieldFlags(p.FieldNames()))
  {
    var pieces := CommandPieces(home, p, dir, o, str);
    ContainsSelf(FieldFlags(p.FieldNames()));
    ContainsInPiece(pieces, 1, FieldFlags(p.FieldNames()));
    Concat(pieces)
  }

  /** The command starts the executable under the BubbleProfiler home with
      the quoted potential and silences the program's output. */
  lemma CommandEnds(home: string, p: Potential, dir: string, o: Options, str: Num -> string)
    ensures StartsWith(Command(home, p, dir, o, str),
                       home + "/bin/run_cmd_line_potential --force-output --potential '" + p.ginac + "' ")
    ensures EndsWith(Command(home, p, dir, o, str), " > /dev/null 2>&1")
  {
    ConcatStartsWith(CommandPieces(home, p, dir, o, str));
    ConcatEndsWith(CommandPieces(home, p, dir, o, str));
  }

  /** The output directory is passed right before the grid size, and the
      local minima (false vacuum) are listed before the global minima
      (true vacuum). */
  lemma CommandContents(home: string, p: Potential, dir: string, o: Options, str: Num -> string)
    ensures Contains(Command(home, p, dir, o, str), " --output-path " + dir + " --grid-points ")
    ensures Contains(Command(home, p, dir, o, str),
                     LocalMinimumFlags(p.falseVacuum, str) + " " + GlobalMinimumFlags(p.trueVacuum, str))
  {
    var pieces := CommandPieces(home, p, dir, o, str);
    var og := OutputAndGrid(dir, o, str);
    var out := " --output-path " + dir + " --grid-points ";
    var lg := LocalMinimumFlags(p.falseVacuum, str) + " " + GlobalMinimumFlags(p.trueVacuum, str);
    assert og[..|out|] == out;
    ContainsInPiece(pieces, 2, out);
    assert VacuumFlags(p, str) == " " + lg + "";
    ContainsMiddle(" ", lg, "");
    ContainsInPiece(pieces, 3, lg);
  }

  // ---------------------------------------------------------------------
  // Reading the output files
  // ---------------------------------------------------------------------

  /** numpy's `ValueError` for the maximum of an empty column. */
  const EmptyReduction := "zero-size array to reduction operation maximum which has no identity"

  /** `t[np.where(t[:, 0] == level), 1:][0]`: the rows whose first column
      is `level`, in order, without that column. */
  function Keep(t: Table, level: Num): (r: Table)
    requires HasColumn(t, 0)
    ensures |r| <= |t|
    ensures |r| == |t| <==> forall k :: 0 <= k < |t| ==> t[k][0] == level
    decreases |t|
  {
    if |t| == 0 then []
    else
      var rest := Keep(t[1..], level);
      assert forall k :: 1 <= k < |t| ==> t[1..][k - 1] == t[k];
      (if t[0][0] == level then [t[0][1..]] else []) + rest
  }

  /** A row is kept exactly when some row at that level carries it. */
  lemma {:induction false} KeepMembers(t: Table, level: Num, row: Row)
    requires HasColumn(t, 0)
    ensures row in Keep(t, level) <==> exists k :: 0 <= k < |t| && t[k][0] == level && t[k][1..] == row
    decreases |t|
  {
    if |t| > 0 {
      KeepMembers(t[1..], level, row);
      if exists k :: 0 <= k < |t| && t[k][0] == level && t[k][1..] == row {
        var k :| 0 <= k < |t| && t[k][0] == level && t[k][1..] == row;
        if k > 0 {
          assert t[1..][k - 1] == t[k];
        }
      }
      if exists k :: 0 <= k < |t| - 1 && t[1..][k][0] == level && t[1..][k][1..] == row {
        var k :| 0 <= k < |t| - 1 && t[1..][k][0] == level && t[1..][k][1..] == row;
        assert t[k + 1] == t[1..][k];
      }
    }
  }

  /** Filtering distributes over the concatenation of two tables. */
  lemma {:induction false} KeepAppend(a: Table, b: Table, level: Num)
    requires HasColumn(a, 0) && HasColumn(b, 0)
    ensures HasColumn(a + b, 0)
    ensures Keep(a + b, level) == Keep(a, level) + Keep(b, level)
    decreases |a|
  {
    if |a| > 0 {
      KeepAppend(a[1..], b, level);
      assert (a + b)[1..] == a[1..] + b;
    } else {
      assert a + b == b;
    }
  }

  /** Rows of other levels are all dropped. */
  lemma {:induction false} KeepNone(t: Table, level: Num)
    requires HasColumn(t, 0)
    requires forall k :: 0 <= k < |t| ==> t[k][0] != level
    ensures Keep(t, level) == []
    decreases |t|
  {
    if |t| > 0 {
      KeepNone(t[1..], level);
    }
  }

  /** Rows at the level are all kept, each without its first column. */
  lemma {:induction false} KeepAll(t: Table, level: Num)
    requires HasColumn(t, 0)
    requires forall k :: 0 <= k < |t| ==> t[k][0] == level
    ensures Keep(t, level) == seq(|t|, k requires 0 <= k < |t| => t[k][1..])
    decreases |t|
  {
    if |t| > 0 {
      KeepAll(t[1..], level);
      var rest := t[1..];
      assert seq(|t|, k requires 0 <= k < |t| => t[k][1..])
          == [t[0][1..]] + seq(|rest|, k requires 0 <= k < |rest| => rest[k][1..]);
    }
  }

  /** The profile of the last iteration: the rows with the largest
      iteration number in column 0, with that column removed. */
  function LastIteration(t: Table): (r: Result<Table>)
    ensures r.Err? <==> |t| == 0 || !HasColumn(t, 0)
    ensures r.Err? && !HasColumn(t, 0) ==> r.message == IndexOutOfBounds
    ensures r.Err? && HasColumn(t, 0) ==> r.message == EmptyReduction
    ensures r.Ok? ==> |r.value| >= 1
    ensures r.Ok? ==> forall row :: row in r.value ==>
      exists k :: 0 <= k < |t| && t[k][1..] == row && forall j :: 0 <= j < |t| ==> t[j][0] <= t[k][0]
    ensures r.Ok? ==> forall k :: 0 <= k < |t| && (forall j :: 0 <= j < |t| ==> t[j][0] <= t[k][0]) ==>
      t[k][1..] in r.value
  {
    if !HasColumn(t, 0) then Err(IndexOutOfBounds)
    else if |t| == 0 then Err(EmptyReduction)
    else
      var column := Column(t, 0);
      var top := Max(column);
      var kept := Keep(t, top);
      var k :| 0 <= k < |column| && column[k] == top;
      KeepMembers(t, top, t[k][1..]);
      forall row | row in kept
        ensures exists k :: 0 <= k < |t| && t[k][1..] == row && forall j :: 0 <= j < |t| ==> t[j][0] <= t[k][0]
      {
        KeepMembers(t, top, row);
      }
      forall i | 0 <= i < |t| && (forall j :: 0 <= j < |t| ==> t[j][0] <= t[i][0])
        ensures t[i][1..] in kept
      {
        assert column[i] == t[i][0];
        assert column[k] == t[k][0];
        KeepMembers(t, top, t[i][1..]);
      }
      Ok(kept)
  }

  /** When the earlier iterations all carry smaller numbers than the last
      block, the filter returns exactly the last block's rows. */
  lemma LastIterationOfBlocks(earlier: Table, last: Table, m: Num)
    requires HasColumn(earlier, 0) && HasColumn(last, 0)
    requires |last| >= 1
    requires forall k :: 0 <= k < |earlier| ==> earlier[k][0] < m
    requires forall k :: 0 <= k < |last| ==> last[k][0] == m
    ensures LastIteration(earlier + last) == Ok(seq(|last|, k requires 0 <= k < |last| => last[k][1..]))
  {
    var t := earlier + last;
    KeepAppend(earlier, last, m);
    var column := Column(t, 0);
    var top := Max(column);
    assert column[|earlier|] == t[|earlier|][0] == last[0][0] == m;
    forall k | 0 <= k < |t|
      ensures t[k][0] <= m
    {
      if k >= |earlier| {
        assert t[k] == last[k - |earlier|];
      }
    }
    assert top == m;
    KeepNone(earlier, m);
    KeepAll(last, m);
    assert Keep(t, m) == seq(|last|, k requires 0 <= k < |last| => last[k][1..]);
    assert LastIteration(t) == Ok(Keep(t, top));
  }

  /** `np.loadtxt(action_file, usecols=[1])[-1]`: the second column of the
      last row. */
  function FinalAction(t: Table): (r: Result<Num>)
    ensures r.Ok? <==> |t| > 0 && HasColumn(t, 1)
    ensures r.Err? ==> r.message == IndexOutOfBounds
    ensures r.Ok? ==> r.value == Column(t, 1)[|t| - 1]
  {
    if |t| == 0 || !HasColumn(t, 1) then Err(IndexOutOfBounds)
    else Ok(t[|t| - 1][1])
  }

  // ---------------------------------------------------------------------
  // solve
  // ---------------------------------------------------------------------

  /** What the outside world supplies to one BubbleProfiler run. */
  datatype Io = Io(
    env: map<string, string>,       // the process environment
    tempDir: string,                // what `tempfile.mkdtemp()` returns
    run: Run,                       // how `check_call(command)` ended
    actionFile: Result<Table>,      // `np.loadtxt` of action.txt
    profileFile: Result<Table>,     // `np.loadtxt` of field_profiles.txt
    time: Num)                      // the clock's reading

  const CrashPrefix := "BubbleProfiler crashed"

  /** `bubbleprofiler.solve`. */
  function Solve(p: Potential, output: Option<string>, o: Options, str: Num -> string, io: Io): (r: Result<Raw>)
    ensures "BUBBLEPROFILER" !in io.env ==> r == Err("BUBBLEPROFILER")
    ensures "BUBBLEPROFILER" in io.env && io.run.Crashed? ==> r == Err(CrashPrefix + ": " + io.run.message)
    ensures r.Ok? <==> ("BUBBLEPROFILER" in io.env && io.run.Completed?
                        && io.actionFile.Ok? && |io.actionFile.value| > 0 && HasColumn(io.actionFile.value, 1)
                        && io.profileFile.Ok? && |io.profileFile.value| > 0 && HasColumn(io.profileFile.value, 0))
    ensures r.Ok? ==> r.value.command == Command(io.env["BUBBLEPROFILER"], p, OutputDir(output, io.tempDir), o, str)
    ensures r.Ok? ==> r.value.action == io.actionFile.value[|io.actionFile.value| - 1][1]
    ensures r.Ok? ==> r.value.time == io.time
    ensures r.Ok? ==> Ok(r.value.trajectory) == LastIteration(io.profileFile.value)
  {
    var dir := OutputDir(output, io.tempDir);
    match Getenv(io.env, "BUBBLEPROFILER")
    case Err(m) => Err(m)
    case Ok(home) =>
      var command := Command(home, p, dir, o, str);
      match Wrap(io.run, CrashPrefix)
      case Err(m) => Err(m)
      case Ok(_) =>
        match io.actionFile
        case Err(m) => Err(m)
        case Ok(actions) =>
          match FinalAction(actions)
          case Err(m) => Err(m)
          case Ok(action) =>
            match io.profileFile
            case Err(m) => Err(m)
            case Ok(profiles) =>
              match LastIteration(profiles)
              case Err(m) => Err(m)
              case Ok(trajectory) => Ok(Raw(action, trajectory, io.time, command))
  }
}
