/** The SimpleBounce adapter (bubbler/simplebounce.py): the C++ program
    generated for the potential, and the parsing of the program's standard
    output into the action and the trajectory. Building and running the
    program are inputs. */
module SimpleBounce {

  import opened Results
  import opened Text
  import opened Tables
  import opened Shell
  import opened Potentials
  import AnyBubble

  /** Python 2's `from module import name`: it succeeds exactly when the
      module binds the name at its top level, and otherwise raises
      `ImportError` with the message below. */
  function ImportFrom(names: set<string>, name: string): (r: Result<()>)
    ensures r.Ok? <==> name in names
    ensures r.Err? ==> r.message == "cannot import name " + name
  {
    if name in names then Ok(()) else Err("cannot import name " + name)
  }

  /** Importing `curly` from `anybubble`, as this module does before
      anything else, fails: `curly` is a local of `anybubble.solve`. The
      model uses `AnyBubble.VacuumText` for the vacua instead. */
  lemma CurlyImportFails()
    ensures ImportFrom(AnyBubble.ModuleNames, "curly") == Err("cannot import name curly")
    ensures ImportFrom(AnyBubble.ModuleNames, "solve").Ok?
  {
  }

  // ---------------------------------------------------------------------
  // The generated program: CODE.format(n_fields, c_potential, c_gradient,
  // dim, true_vacuum, false_vacuum)
  // ---------------------------------------------------------------------

  const Preamble := "\n#include<iostream>\n#include <cmath>\n#include \"simplebounce.h\"\n\n"
    + "using namespace std;\nusing namespace simplebounce;\n\n"
    + "class BubblerModel : public GenericModel {\n  public:\n\tBubblerModel() {\n\t\t"

  /** The constructor statement fixing the number of fields. */
  function NphiCall(n: nat): string {
    "setNphi(" + NatToString(n) + ");"
  }

  const VpotHead := "\n\t}\n\tdouble vpot (const double* q) const {\n\t\t"

  /** The body of `vpot`: the potential in C syntax. */
  function ReturnStatement(vpot: string): string {
    "return " + vpot + ";"
  }

  const CloseMethod := "\n\t}\n\t"

  /** The gradient method's header followed by the gradient statements. */
  function GradientMethod(gradient: string): string {
    "void calcDvdphi(const double *q, double *dvdq) const {\n\t\t" + gradient
  }

  const MainHead := "\n\t}\n};\n\nint main() {\n\n  // Settings from example provided with code\n"
    + "\tBounceCalculator bounce;\n\tbounce.verboseOff();\n\tbounce.setRmax(1.);\n\tbounce.setN(100);\n"
    + "\tBubblerModel model;\n\tbounce.setModel(&model);\n\n  // Contains our input\n\t"

  function DimensionCall(dim: nat): string {
    "bounce.setDimension(" + NatToString(dim) + ");"
  }

  const NextLine := "\n\t"

  /** A vacuum declared as an array of `n` doubles. */
  function ArrayDecl(name: string, n: nat, value: string): string {
    "double " + name + "[" + NatToString(n) + "] = " + value + ";"
  }

  const MainTail := "\n\n\tbounce.setVacuum(phiTV, phiFV);\n\tbounce.solve();\n\tbounce.printBounce();\n"
    + "\tstd::cout << bounce.action();\n\n\treturn 0;\n}\n"

  /** The pieces of the program text, in order: fixed template text
      alternating with the six formatted values. */
  function CodePieces(n: nat, vpot: string, gradient: string, dim: nat, trueVacuum: string, falseVacuum: string): seq<string> {
    [Preamble, NphiCall(n), VpotHead, ReturnStatement(vpot), CloseMethod, GradientMethod(gradient), MainHead,
     DimensionCall(dim), NextLine, ArrayDecl("phiTV", n, trueVacuum), NextLine, ArrayDecl("phiFV", n, falseVacuum), MainTail]
  }

  /** The program text written to `bubbler.cc`: it opens with the
      includes and the model class, and closes with the main program
      solving the bounce and printing the action. */
  function Code(n: nat, vpot: string, gradient: string, dim: nat, trueVacuum: string, falseVacuum: string): (r: string)
    ensures StartsWith(r, Preamble) && EndsWith(r, MainTail)
  {
    var pieces := CodePieces(n, vpot, gradient, dim, trueVacuum, falseVacuum);
    ConcatStartsWith(pieces);
    ConcatEndsWith(pieces);
    Concat(pieces)
  }

  /** The model class fixes the number of fields to `n`. */
  lemma CodeSetsFieldCount(n: nat, vpot: string, gradient: string, dim: nat, tv: string, fv: string)
    ensures Contains(Code(n, vpot, gradient, dim, tv, fv), NphiCall(n))
  {
    ContainsSelf(NphiCall(n));
    ContainsInPiece(CodePieces(n, vpot, gradient, dim, tv, fv), 1, NphiCall(n));
  }

  /** The model's `vpot` returns the given potential code. */
  lemma CodeReturnsPotential(n: nat, vpot: string, gradient: string, dim: nat, tv: string, fv: string)
    ensures Contains(Code(n, vpot, gradient, dim, tv, fv), ReturnStatement(vpot))
  {
    ContainsSelf(ReturnStatement(vpot));
    ContainsInPiece(CodePieces(n, vpot, gradient, dim, tv, fv), 3, ReturnStatement(vpot));
  }

  /** The model's `calcDvdphi` holds the given gradient code. */
  lemma CodeHoldsGradient(n: nat, vpot: string, gradient: string, dim: nat, tv: string, fv: string)
    ensures Contains(Code(n, vpot, gradient, dim, tv, fv), GradientMethod(gradient))
  {
    ContainsSelf(GradientMethod(gradient));
    ContainsInPiece(CodePieces(n, vpot, gradient, dim, tv, fv), 5, GradientMethod(gradient));
  }

  /** The main program sets the dimension. */
  lemma CodeSetsDimension(n: nat, vpot: string, gradient: string, dim: nat, tv: string, fv: string)
    ensures Contains(Code(n, vpot, gradient, dim, tv, fv), DimensionCall(dim))
  {
    ContainsSelf(DimensionCall(dim));
    ContainsInPiece(CodePieces(n, vpot, gradient, dim, tv, fv), 7, DimensionCall(dim));
  }

  /** The main program declares the true vacuum as an array of `n`
      doubles. */
  lemma CodeDeclaresTrueVacuum(n: nat, vpot: string, gradient: string, dim: nat, tv: string, fv: string)
    ensures Contains(Code(n, vpot, gradient, dim, tv, fv), ArrayDecl("phiTV", n, tv))
  {
    ContainsSelf(ArrayDecl("phiTV", n, tv));
    ContainsInPiece(CodePieces(n, vpot, gradient, dim, tv, fv), 9, ArrayDecl("phiTV", n, tv));
  }

  /** The main program declares the false vacuum as an array of `n`
      doubles. */
  lemma CodeDeclaresFalseVacuum(n: nat, vpot: string, gradient: string, dim: nat, tv: string, fv: string)
    ensures Contains(Code(n, vpot, gradient, dim, tv, fv), ArrayDecl("phiFV", n, fv))
  {
    ContainsSelf(ArrayDecl("phiFV", n, fv));
    ContainsInPiece(CodePieces(n, vpot, gradient, dim, tv, fv), 11, ArrayDecl("phiFV", n, fv));
  }

  /** Everything the generated program is promised to contain: the field
      count, the potential, the gradient, the dimension and both vacua. */
  predicate Declares(code: string, n: nat, vpot: string, gradient: string, dim: nat, tv: string, fv: string) {
    && Contains(code, NphiCall(n)) && Contains(code, ReturnStatement(vpot))
    && Contains(code, GradientMethod(gradient)) && Contains(code, DimensionCall(dim))
    && Contains(code, ArrayDecl("phiTV", n, tv)) && Contains(code, ArrayDecl("phiFV", n, fv))
  }

  lemma CodeContents(n: nat, vpot: string, gradient: string, dim: nat, tv: string, fv: string)
    ensures Declares(Code(n, vpot, gradient, dim, tv, fv), n, vpot, gradient, dim, tv, fv)
  {
    CodeSetsFieldCount(n, vpot, gradient, dim, tv, fv);
    CodeReturnsPotential(n, vpot, gradient, dim, tv, fv);
    CodeHoldsGradient(n, vpot, gradient, dim, tv, fv);
    CodeSetsDimension(n, vpot, gradient, dim, tv, fv);
    CodeDeclaresTrueVacuum(n, vpot, gradient, dim, tv, fv);
    CodeDeclaresFalseVacuum(n, vpot, gradient, dim, tv, fv);
  }

  // ---------------------------------------------------------------------
  // Parsing the standard output
  // ---------------------------------------------------------------------

  /** Python's `lines[1:-1]`: everything but the first and the last line
      (nothing when there are fewer than three). */
  function Inner(lines: seq<string>): (r: seq<string>)
    ensures |lines| >= 2 ==> |r| == |lines| - 2
    ensures |lines| <= 2 ==> r == []
    ensures forall k :: 0 <= k < |r| ==> k + 1 < |lines| && r[k] == lines[k + 1]
  {
    if |lines| <= 2 then [] else lines[1..|lines| - 1]
  }

  /** `output.split("\n")`, then the last line (the action's text) and the
      lines between the first and the last joined back by newlines (the
      trajectory's text). */
  function SplitOutput(output: string): (r: (string, string))
    ensures '\n' !in r.0
    ensures EndsWith(output, r.0)
    ensures '\n' !in output ==> r == (output, "")
  {
    var lines := Split(output, '\n');
    JoinSplit(output, '\n');
    var last := lines[|lines| - 1];
    SplitLastPiece(lines, output);
    if '\n' !in output then
      SplitWithoutSeparator(output, '\n');
      (last, "")
    else (last, Join(Inner(lines), "\n"))
  }

  /** The last piece of a split is a newline-free suffix of the text. */
  lemma SplitLastPiece(lines: seq<string>, output: string)
    requires lines == Split(output, '\n')
    ensures '\n' !in lines[|lines| - 1]
    ensures EndsWith(output, lines[|lines| - 1])
  {
    SplitPiecesFree(output, '\n');
    SplitEndsWithLast(output);
  }

  lemma {:induction false} SplitEndsWithLast(s: string)
    ensures EndsWith(s, Split(s, '\n')[|Split(s, '\n')| - 1])
    decreases |s|
  {
    if |s| > 0 {
      var r := Split(s, '\n');
      var rest := Split(s[1..], '\n');
      assert [s[0]] + s[1..] == s;
      if s[0] != '\n' && |rest| == 1 {
        JoinSplit(s[1..], '\n');
        assert r[|r| - 1] == [s[0]] + s[1..];
      } else {
        assert r[|r| - 1] == rest[|rest| - 1];
        SplitEndsWithLast(s[1..]);
        EndsWithPrepend([s[0]], s[1..], rest[|rest| - 1]);
      }
    }
  }

  /** A program output of a header line, trajectory rows and the action
      line splits back into the action line and the rows. */
  lemma SplitOutputRoundTrip(header: string, rows: seq<string>, action: string)
    requires '\n' !in header && '\n' !in action
    requires forall k :: 0 <= k < |rows| ==> '\n' !in rows[k]
    ensures SplitOutput(Join([header] + rows + [action], "\n")) == (action, Join(rows, "\n"))
  {
    var lines := [header] + rows + [action];
    var output := Join(lines, "\n");
    assert forall k :: 0 <= k < |lines| ==> '\n' !in lines[k] by {
      forall k | 0 <= k < |lines|
        ensures '\n' !in lines[k]
      {
        if 0 < k < |lines| - 1 {
          assert lines[k] == rows[k - 1];
        }
      }
    }
    SplitJoin(lines, '\n');
    assert '\n' in output by {
      if '\n' !in output {
        CountAbsent(output, '\n');
        assert false;
      }
    }
    assert Inner(lines) == rows;
    assert lines[|lines| - 1] == action;
    assert SplitOutput(output) == (lines[|lines| - 1], Join(Inner(lines), "\n"));
  }

  /** `[:, :-1]`: every row loses its last column. */
  function DropLastColumn(t: Table): (r: Table)
    ensures |r| == |t|
    ensures forall k :: 0 <= k < |t| ==> r[k] == DropLast(t[k])
  {
    seq(|t|, k requires 0 <= k < |t| => DropLast(t[k]))
  }

  /** Dropping the last column undoes appending a column. */
  lemma DropAppendedColumn(rows: Table, extra: seq<Num>)
    requires |rows| == |extra|
    ensures DropLastColumn(seq(|rows|, k requires 0 <= k < |rows| => rows[k] + [extra[k]])) == rows
  {
    var t := seq(|rows|, k requires 0 <= k < |rows| => rows[k] + [extra[k]]);
    var r := DropLastColumn(t);
    forall k | 0 <= k < |rows|
      ensures r[k] == rows[k]
    {
      assert DropLast(t[k]) == rows[k];
    }
  }

  // ---------------------------------------------------------------------
  // solve
  // ---------------------------------------------------------------------

  /** What the outside world supplies to one SimpleBounce run. */
  datatype Io = Io(
    env: map<string, string>,                  // the process environment
    build: Run,                                // how `make -C <home> bubbler.x` ended
    run: Run,                                  // how `<home>/bubbler.x` ended
    stdout: string,                            // what the program printed
    readNumber: string -> Result<Num>,         // Python's `float(text)`
    readTable: string -> Result<Table>,        // `np.genfromtxt` of a text
    time: Num)                                 // the clock's reading

  const BuildCrashPrefix := "SimpleBounce build crashed"

  const CrashPrefix := "SimpleBounce crashed"

  /** The program `solve` writes to `<home>/bubbler.cc`: it fails exactly
      when the potential cannot be written in C, and otherwise sets the
      field count, returns the C potential, holds the C gradient, sets the
      dimension and declares both vacua. */
  function SolveCode(p: Potential, dim: nat, repr: Num -> string): (r: Result<string>)
    ensures r.Err? <==> exists k :: 0 <= k < p.FieldCount() && Contains(p.FieldNames()[k], "q")
    ensures r.Ok? ==> Declares(r.value, p.FieldCount(), CPotential(p).value, CGradient(p).value, dim,
                               AnyBubble.VacuumText(p.trueVacuum, repr), AnyBubble.VacuumText(p.falseVacuum, repr))
  {
    var tv := AnyBubble.VacuumText(p.trueVacuum, repr);
    var fv := AnyBubble.VacuumText(p.falseVacuum, repr);
    match CPotential(p)
    case Err(m) => Err(m)
    case Ok(vpot) =>
      match CGradient(p)
      case Err(m) => Err(m)
      case Ok(gradient) =>
        var n := p.FieldCount();
        CodeContents(n, vpot, gradient, dim, tv, fv);
        Ok(Code(n, vpot, gradient, dim, tv, fv))
  }

  /** `simplebounce.solve`. */
  function Solve(p: Potential, dim: nat, repr: Num -> string, io: Io): (r: Result<Raw>)
    ensures CPotential(p).Err? ==> r == Err(CPotential(p).message)
    ensures CPotential(p).Ok? && "SIMPLEBOUNCE" !in io.env ==> r == Err("SIMPLEBOUNCE")
    ensures CPotential(p).Ok? && "SIMPLEBOUNCE" in io.env && io.build.Crashed? ==>
      r == Err(BuildCrashPrefix + ": " + io.build.message)
    ensures CPotential(p).Ok? && "SIMPLEBOUNCE" in io.env && io.build.Completed? && io.run.Crashed? ==>
      r == Err(CrashPrefix + ": " + io.run.message)
    ensures r.Ok? <==> (CPotential(p).Ok? && "SIMPLEBOUNCE" in io.env && io.build.Completed? && io.run.Completed?
                        && io.readNumber(SplitOutput(io.stdout).0).Ok?
                        && io.readTable(SplitOutput(io.stdout).1).Ok?)
    ensures r.Ok? ==> r.value.command == io.env["SIMPLEBOUNCE"] + "/bubbler.x"
    ensures r.Ok? ==> r.value.action == io.readNumber(SplitOutput(io.stdout).0).value
    ensures r.Ok? ==> var t := io.readTable(SplitOutput(io.stdout).1).value;
      |r.value.trajectory| == |t| && forall k :: 0 <= k < |t| ==> r.value.trajectory[k] == DropLast(t[k])
    ensures r.Ok? ==> r.value.time == io.time
  {
    match SolveCode(p, dim, repr)
    case Err(m) => Err(m)
    case Ok(_) =>
      match Getenv(io.env, "SIMPLEBOUNCE")
      case Err(m) => Err(m)
      case Ok(home) =>
        match Wrap(io.build, BuildCrashPrefix)
        case Err(m) => Err(m)
        case Ok(_) =>
          var command := home + "/bubbler.x";
          match Wrap(io.run, CrashPrefix)
          case Err(m) => Err(m)
          case Ok(_) =>
            var (actionText, body) := SplitOutput(io.stdout);
            match io.readNumber(actionText)
            case Err(m) => Err(m)
            case Ok(action) =>
              match io.readTable(body)
              case Err(m) => Err(m)
              case Ok(table) => Ok(Raw(action, DropLastColumn(table), io.time, command))
  }
}
