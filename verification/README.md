# bubbler, modelled in Dafny

bubbler is a small Python 2 package. It solves for the bounce ("bubble") of a
scalar potential by handing the potential to one of several external solvers
and collecting what each returns into a common `Solution` record. This project
models the package's own logic:

- the `Potential` object (`bubbler/potential.py`). This covers renaming field
  names into array elements with `re.sub`, the C and Mathematica renderings,
  the C gradient text, choosing the true and false vacuum from guesses or from
  the sorted extrema, and the one-dimensional test potential;
- the three adapters (`bubbler/bubbleprofiler.py`, `bubbler/anybubble.py`,
  `bubbler/simplebounce.py`). For each, the text it generates (a command line,
  a wolframscript program, a C++ program), how it handles errors around the
  external process, and how it reads the process's output back into a
  trajectory table;
- the dispatcher (`bubbler/bubbler.py`). `bubbler` looks a backend up by name,
  converts the potential, solves, and interpolates the profiles; any error
  becomes a failure record. `bubblers` runs several backends into a
  dictionary, and `one_dim_bubblers` does the same for the test potential.

Everything outside Python is an input to the model:

- The computer-algebra layer (sympy) is `Potentials.Algebra`. It supplies the
  free symbols, the `cxxcode` texts, the extrema with the potential's value
  at each, and numerical polishing.
- Each backend's environment, process outcome, clock reading and loaded
  files form an `Io` record.
- CosmoTransitions appears only as a function from potential to outcome.
- Python's `str`/`repr` of a float are the functions in `Tables.Formats`.

Modules follow the package: `Results` (Option/Result), `Text` (Python string
operations), `Tables` (numpy tables), `Shell` (environment, output directory,
crash wrapping), `Potentials`, `BubbleProfiler`, `AnyBubble`, `SimpleBounce`,
`Bubbler`.

The model departs from the implementation in three places:

- The constructor's false-vacuum branch tests the *true*-vacuum guess
  (`bubbler/potential.py:73`). `Potentials.ChooseFalseVacuumAsWritten` and
  `Potentials.MakePotentialAsWritten` model the code as written.
  `Potentials.MakePotential`, which the rest of the model uses, applies the
  intended test instead (see Findings). Every caller inside the package passes both
  guesses or neither, and there the two agree (`Potentials.FalseVacuumAgreement`).
- `simplebounce.py` imports `curly` from `anybubble`, but there `curly` is a
  local lambda inside `solve` (`bubbler/anybubble.py:52`), so the import as
  written cannot succeed (`SimpleBounce.CurlyImportFails`). The model gives SimpleBounce the evidently intended
  function, `AnyBubble.VacuumText`.
- `bubbler` looks a backend up in the module's globals. Any name other than
  the three imported backend modules is modelled as the `KeyError` of a
  missing key, so `simplebounce` and `shooting` cannot be reached.

## Model

| member | source | states |
|---|---|---|
| Text.Join | bubbler/potential.py:147 | `sep.join(parts)`: no parts give the empty text, otherwise the result opens with the first part; `SplitJoin` shows that splitting undoes a join of separator-free parts |
| Text.JoinEndsWith | bubbler/potential.py:147 | a join closes with its last part |
| Text.Split | bubbler/simplebounce.py:111 | `s.split(sep)` gives one more piece than there are separators (`SplitPiecesFree`: none of them holds the separator); `JoinSplit` shows that joining the pieces restores the text |
| Text.ReplaceAll | bubbler/anybubble.py:48 | `str.replace` leaves a text that does not mention the target unchanged; `ReplaceAllRoundTrip` undoes it when the replacement's first character is fresh |
| Text.ReplaceAllCopiesPrefix | bubbler/anybubble.py:48 | `str.replace` copies the text before the first occurrence of the target unchanged |
| Text.ReplaceAllFirstMatch | bubbler/anybubble.py:48 | at the leftmost occurrence of a non-empty target of any length, the prefix is kept, the target becomes the replacement, and the scan resumes right after the target; with the unchanged-if-absent clause this fixes the result for every text |
| Shell.Getenv | bubbler/anybubble.py:58 | reading a missing environment variable fails with the variable's name as message (KeyError); a present one gives its value |
| Shell.OutputDir | bubbler/anybubble.py:41 | `None` and the empty string both fall back to the fresh temporary directory; any other output directory is used as given |
| Shell.Wrap | bubbler/anybubble.py:74-78 | a process that completes passes; a crash becomes an error reading `<prefix>: <error>` |
| Tables.Max | bubbler/bubbleprofiler.py:87 | the maximum of a non-empty column is one of its entries and bounds every entry |
| Potentials.SubFlanked | bubbler/potential.py:121-123 | one `re.sub` pass: the empty text stays empty, any other text gives a non-empty result with the same first and last characters; the lemmas below state the matching itself |
| Potentials.SubFlankedFirstMatch | bubbler/potential.py:121-123 | leftmost matching: text before the first `(\W)name(\W)` match is copied, the name there is replaced, and the scan resumes after the right flank |
| Potentials.SubFlankedNoMatch | bubbler/potential.py:121-123 | where the pattern matches nowhere, `re.sub` returns the text unchanged |
| Potentials.SubFlankedUnmentioned | bubbler/potential.py:121-123 | a text that does not mention the name is returned unchanged |
| Potentials.SubFlankedKeepsLeadingWord | bubbler/potential.py:121-123 | a word of word characters that starts the text still starts it after the substitution, since no match can begin inside it |
| Potentials.SubFlankedLeadingWordBack | bubbler/potential.py:121-123 | conversely, a non-empty word starting the result already started the original text |
| Potentials.SubFlankedKeepsTrailingWord | bubbler/potential.py:121-123 | a word of word characters that ends the text still ends it after the substitution |
| Potentials.SubFlankedNewWords | bubbler/potential.py:121-123 | every word found in the result was already in the text or comes from the replacement |
| Potentials.ConsumedFlankExample | bubbler/potential.py:121-123 | in "(x*x)" both x's are flanked, but the '*' consumed by the first match cannot open the second, so the result is "(q[0]*x)" |
| Potentials.SubFlankedRoundTrip | bubbler/potential.py:121-123 | rewriting the name to the array element and back restores the text, when the element's first character does not occur in it |
| Potentials.SubFlankedKeepsCount | bubbler/potential.py:121-123 | a character in neither the name nor the replacement occurs equally often before and after |
| Potentials.RenameFrom | bubbler/potential.py:118-123 | the loop fails exactly when a remaining field name contains the array name, with message "Field name cannot contain <array>" |
| Potentials.NamesToArray | bubbler/potential.py:112-125 | `names_to_array` raises exactly when some field name contains the array name, and its message names that array |
| Potentials.NamesToArrayUnmentioned | bubbler/potential.py:112-125 | a text mentioning no field comes back unchanged |
| Potentials.RenameFromOnlyField | bubbler/potential.py:118-123 | when the text mentions only field k among the remaining fields, the loop's result is the text with just that name rewritten to element k plus the shift |
| Potentials.NamesToArrayOnlyField | bubbler/potential.py:112-125 | for any number of fields, a text mentioning only field k becomes the text with that name rewritten to `q[k]` (zero-based) or `q[k+1]` (one-based) |
| Potentials.TwoFieldExample | bubbler/potential.py:112-125 | with fields x and y, "(x*y)" becomes "(q[0]*q[1])": each field goes to its own element |
| Potentials.NamesToArraySingleRoundTrip | bubbler/potential.py:112-125 | for one field, rewriting the array element back into the name recovers the original text |
| Potentials.RenameFromKeepsCount | bubbler/potential.py:118-123 | the renaming keeps the count of any character outside names, brackets, digits and the array name; newlines are such a character |
| Potentials.MathematicaPotential | bubbler/potential.py:127-132 | fails exactly when a field name contains "q"; for one field, the one-based element `q[1]` maps back to the ginac text |
| Potentials.CPotential | bubbler/potential.py:134-139 | fails exactly when a field name contains "q"; for one field, the zero-based element `q[0]` maps back to the C code |
| Potentials.MathematicaPotentialOnlyField | bubbler/potential.py:127-132 | for any number of fields, a ginac text mentioning only field k gets that name replaced by the one-based `q[k+1]` and nothing else changed |
| Potentials.CPotentialOnlyField | bubbler/potential.py:134-139 | for any number of fields, C code mentioning only field k gets that name replaced by the zero-based `q[k]` and nothing else changed |
| Potentials.GradientTextLines | bubbler/potential.py:141-147 | splitting the joined gradient text gives one `dvdq[i] = <expr>;` line per field, in field order |
| Potentials.CGradient | bubbler/potential.py:141-148 | fails exactly when a field name contains "q"; otherwise the renamed gradient still has one line per field |
| Potentials.Insert | bubbler/potential.py:95 | inserting into a sorted list keeps it sorted and adds exactly the one element |
| Potentials.SortByValue | bubbler/potential.py:95 | the sorted extrema are ordered by potential value and are a permutation of the input |
| Potentials.LowestTwo | bubbler/potential.py:93-97 | after sorting, the first extremum has the lowest value and the second the lowest value of the rest |
| Potentials.SolvedExtrema | bubbler/potential.py:88-97 | `_solve` fails (an empty assertion) exactly when fewer than three extrema exist; otherwise it returns them sorted by value as a permutation |
| Potentials.ChooseTrueVacuum | bubbler/potential.py:64-69 | a polished guess becomes `nsolve(guess)`, an unpolished one stays as given; without a guess, a lowest extremum is taken, failing when fewer than three exist |
| Potentials.ChooseFalseVacuumAsWritten | bubbler/potential.py:71-76 | the false-vacuum branch as written: its second test looks at the true guess, so a true guess without a false one gives `[None]` |
| Potentials.ChooseFalseVacuum | bubbler/potential.py:71-76 | the branch as intended: a given guess is always honoured, the result is never `[None]`, and without a guess the second-lowest extremum is taken |
| Potentials.FalseVacuumAgreement | bubbler/potential.py:64-76 | when both guesses are given or both are absent, the written and the intended false vacuum agree |
| Potentials.FalseVacuumMismatch | bubbler/potential.py:73 | concrete inputs where they differ: a true guess alone gives `[None]`, and an unpolished false guess alone is ignored |
| Potentials.MakePotentialAsWritten | bubbler/potential.py:44-76 | the constructor as written fails exactly when the true vacuum has no guess and fewer than three extrema exist; it stores the ginac text, the field names and the two vacua its branches choose, `[None]` for a true guess alone; with both guesses or neither it equals `MakePotential` |
| Potentials.MakePotential | bubbler/potential.py:44-76 | the constructor with the false-vacuum test of line 73 corrected: it fails exactly when a vacuum lacks a guess and fewer than three extrema exist; otherwise it stores the ginac text, the field names and both chosen vacua, neither of them `[None]`; with both guesses or neither, the false vacuum is the one the code as written picks |
| Potentials.OneDimPotential | bubbler/potential.py:164-185 | the one-dimensional potential exists exactly for 0.5 <= alpha <= 0.75 and E > 0; both vacua are polished from the guesses 1 and 0 |
| AnyBubble.ChiFrom | bubbler/anybubble.py:47-48 | the remaining replacements leave a text unchanged when it mentions none of the remaining field names |
| AnyBubble.MathPotential | bubbler/anybubble.py:45-48 | a ginac text that mentions no field name reaches Mathematica unchanged |
| AnyBubble.MathPotentialFirstMention | bubbler/anybubble.py:45-48 | for one field, the first mention of its name (of any length) becomes `chi[1]`, the text before it is kept, and the rest is rewritten in the same way |
| AnyBubble.LongNameExample | bubbler/anybubble.py:45-48 | field `ab` in `ab*ab` gives `chi[1]*chi[1]` |
| AnyBubble.MathPotentialSingleRoundTrip | bubbler/anybubble.py:45-48 | for one field, replacing `chi[1]` back by the name recovers the ginac text, if that text holds no 'c' |
| AnyBubble.NoBoundaryExample | bubbler/anybubble.py:47-48 | plain `str.replace` rewrites a name inside longer words too: "exp" becomes "echi[1]p" |
| AnyBubble.SequentialExample | bubbler/anybubble.py:47-48 | the replacements are applied one after another, so a later name "h" is rewritten inside an earlier "chi[1]" |
| AnyBubble.Curly | bubbler/anybubble.py:52 | every '[' becomes '{' and every ']' becomes '}'; length and all other characters are kept |
| AnyBubble.CurlyRoundTrip | bubbler/anybubble.py:52 | turning braces back into brackets recovers a text that had no braces |
| AnyBubble.CurlyBracketed | bubbler/anybubble.py:52 | a bracketed text free of other brackets comes out as the same text between braces |
| AnyBubble.VacuumText | bubbler/anybubble.py:52-54 | a vacuum's list text is wrapped in braces; when no component text holds a bracket, the result is exactly the components joined by ", " between braces |
| AnyBubble.Script | bubbler/anybubble.py:19-32 | the script opens by moving to the AnyBubble home and loading the package, and closes by exporting to the output directory and quitting |
| AnyBubble.ScriptContents | bubbler/anybubble.py:19-32 | the script reads the potential in `chi` variables and calls FindBubble with the true vacuum, then the false vacuum, then the dimension |
| AnyBubble.ReorderColumns | bubbler/anybubble.py:85-86 | the radius column n moves to the front with the fields after it in order; a table without column n fails with an index error |
| AnyBubble.ReorderExported | bubbler/anybubble.py:85-86 | rows exported as (fields, radius) come back as (radius, fields) |
| AnyBubble.Solve | bubbler/anybubble.py:35-91 | checks the variable, then the crash, then the trajectory file, the reorder and the action file, failing at the first problem; on success the command is `math -script <dir>/anybubble.ws` and the trajectory is reordered |
| AnyBubble.SolveScript | bubbler/anybubble.py:45-68 | the script exists exactly when ANYBUBBLE is set; it holds the renamed potential's line and the FindBubble call with the true vacuum, then the false vacuum, then the dimension |
| BubbleProfiler.FlagList | bubbler/bubbleprofiler.py:37-42 | no values give the empty text; otherwise the list opens with the flag and the first value |
| BubbleProfiler.Interleave | bubbler/bubbleprofiler.py:37-42 | a flag list has 2n words: the flag at even positions and the i-th value at odd position 2i+1 |
| BubbleProfiler.FlagListRoundTrip | bubbler/bubbleprofiler.py:37-42 | with no spaces in flag or values, splitting the joined flags at spaces gives back each flag followed by its value |
| BubbleProfiler.Command | bubbler/bubbleprofiler.py:44-71 | the command passes every field name, quoted, after its own `--field` flag |
| BubbleProfiler.CommandEnds | bubbler/bubbleprofiler.py:44-71 | the command starts with the executable under the home directory and the quoted potential, and ends by discarding all output |
| BubbleProfiler.CommandContents | bubbler/bubbleprofiler.py:44-71 | the output directory comes right before the grid size, and the local-minimum (false vacuum) flags come before the global-minimum (true vacuum) flags |
| BubbleProfiler.Keep | bubbler/bubbleprofiler.py:88-89 | the filter never returns more rows than the table has, and returns as many exactly when every row is at the level |
| BubbleProfiler.KeepMembers | bubbler/bubbleprofiler.py:88-89 | a row is kept exactly when some row at that iteration carries it after its first column |
| BubbleProfiler.KeepAppend | bubbler/bubbleprofiler.py:88-89 | the iteration filter distributes over concatenated tables |
| BubbleProfiler.LastIteration | bubbler/bubbleprofiler.py:85-89 | an empty table fails with numpy's empty-reduction error, a table without column 0 with an index error; otherwise the result is non-empty, every kept row comes from a row with the largest iteration number, and every row with the largest iteration number is kept |
| BubbleProfiler.LastIterationOfBlocks | bubbler/bubbleprofiler.py:85-89 | when earlier iterations carry smaller numbers, exactly the last block's rows are returned without their first column |
| BubbleProfiler.FinalAction | bubbler/bubbleprofiler.py:80-81 | the action is column 1 of the last row; an empty table or one without column 1 fails |
| BubbleProfiler.Solve | bubbler/bubbleprofiler.py:18-91 | a missing BUBBLEPROFILER variable or a crash fails first; success needs both files readable; the result carries the built command, the last action and the last iteration's profile |
| SimpleBounce.ImportFrom | bubbler/simplebounce.py:17 | `from module import name` succeeds exactly when the module binds the name at top level, and otherwise fails with "cannot import name <name>" |
| SimpleBounce.CurlyImportFails | bubbler/simplebounce.py:17 | importing `curly` from `anybubble` fails, since `anybubble` binds only its imports, `SCRIPT` and `solve` at top level (bubbler/anybubble.py:11-35) |
| SimpleBounce.Code | bubbler/simplebounce.py:21-64 | the program opens with the includes and the model class, and closes with the main program that solves the bounce and prints the action |
| SimpleBounce.CodeSetsFieldCount | bubbler/simplebounce.py:21-64 | the C++ program sets the number of fields |
| SimpleBounce.CodeReturnsPotential | bubbler/simplebounce.py:21-64 | `vpot` returns the given potential code |
| SimpleBounce.CodeHoldsGradient | bubbler/simplebounce.py:21-64 | `calcDvdphi` holds the given gradient code |
| SimpleBounce.CodeSetsDimension | bubbler/simplebounce.py:21-64 | the main program sets the space-time dimension |
| SimpleBounce.CodeDeclaresTrueVacuum | bubbler/simplebounce.py:21-64 | the true vacuum is declared as an array of n doubles |
| SimpleBounce.CodeDeclaresFalseVacuum | bubbler/simplebounce.py:21-64 | the false vacuum is declared as an array of n doubles |
| SimpleBounce.CodeContents | bubbler/simplebounce.py:21-64 | the program contains all six of the above |
| SimpleBounce.Inner | bubbler/simplebounce.py:114 | `lines[1:-1]` drops the first and the last line and is empty for fewer than three |
| SimpleBounce.SplitOutput | bubbler/simplebounce.py:111-114 | the action text is a newline-free suffix of the output; an output without newlines is all action text with an empty trajectory text |
| SimpleBounce.SplitOutputRoundTrip | bubbler/simplebounce.py:111-114 | printing a header, the trajectory rows and the action on separate lines splits back into the action line and the rows |
| SimpleBounce.DropLastColumn | bubbler/simplebounce.py:115 | `[:, :-1]` keeps every row but its last column |
| SimpleBounce.DropAppendedColumn | bubbler/simplebounce.py:115 | dropping the last column undoes appending one |
| SimpleBounce.SolveCode | bubbler/simplebounce.py:71-83 | the program fails exactly when a field name contains "q"; otherwise it declares the field count, potential, gradient, dimension and both vacua |
| SimpleBounce.Solve | bubbler/simplebounce.py:66-117 | errors come in source order (C rendering, variable, build, run); success needs both parses; the action comes from the last line and the trajectory loses its last column |
| Bubbler.Lookup | bubbler/bubbler.py:58 | a backend is found exactly for the three imported names; any other name fails with itself as message |
| Bubbler.LookupName | bubbler/bubbler.py:33-39 | each backend is found under its own name, and that name is in BACKENDS |
| Bubbler.UnimportedBackends | bubbler/bubbler.py:33-39 | `simplebounce` and `shooting` are not reachable through `bubbler` |
| Bubbler.Interp | bubbler/bubbler.py:44 | an empty sample fails with an index error and one sample with scipy's two-entry error; otherwise the interpolant keeps the samples |
| Bubbler.Evaluate | bubbler/bubbler.py:44 | below all sample points the value is `y[0]`, above all it is `y[-1]`; inside the range it is interpolated |
| Bubbler.EvaluateAscending | bubbler/bubbler.py:44 | with ascending radii, before the first radius the profile is the first value, after the last it is the last value |
| Bubbler.Profiles | bubbler/bubbler.py:64-65 | one interpolant per field, pairing the radius column with column i+1; fails exactly when a column is missing or there are fewer than two rows |
| Bubbler.Finish | bubbler/bubbler.py:64-71 | success needs the profiles and a last row; the solution reports the raw action, time, command, last radius and per-field profiles |
| Bubbler.Convert | bubbler/bubbler.py:59 | a ginac text is built into a Potential (failing when it has fewer than three extrema); a built potential is used as is |
| Bubbler.SolveWith | bubbler/bubbler.py:60 | each backend runs with its defaults: without an output directory BubbleProfiler's command uses the fresh temporary directory and the default options, and AnyBubble runs `math -script <tempdir>/anybubble.ws`; a missing environment variable fails with its name |
| Bubbler.Run | bubbler/bubbler.py:47-75 | `bubbler` never fails: an unknown backend or a conversion error gives the failure record with the message as command; success reports the backend's run |
| Bubbler.RunConvertedFirst | bubbler/bubbler.py:84-86 | converting the potential before dispatch gives the same result as letting `bubbler` convert it |
| Bubbler.Requested | bubbler/bubbler.py:85 | `None` and the empty list both mean all of BACKENDS; otherwise the given names |
| Bubbler.RunAll | bubbler/bubbler.py:77-86 | a conversion error propagates; otherwise the keys are exactly the requested names and each entry is that backend's `bubbler` result |
| Bubbler.RunAllDefaults | bubbler/bubbler.py:84-86 | by default exactly the three backend names have entries |
| Bubbler.OneDimRunAll | bubbler/bubbler.py:144-155 | the one-dimensional guards raise before any backend runs; otherwise one entry per requested name |

## Left out

- Symbolic algebra: parsing ginac text, free symbols, derivatives, `cxxcode`, `latex`, `solve` and `nsolve` come from sympy. They are inputs (`Potentials.Algebra`), and the field order is whatever that input lists.
- Potentials.MakePotential, Potentials.MakePotentialAsWritten, Potentials.SolvedExtrema, Bubbler.Convert, Bubbler.OneDimRunAll: the sympy input is total and its extrema are real numbers, so "fails exactly when fewer than three extrema" leaves out the errors sympy itself can raise. These are `sympify` on unparsable ginac text (bubbler/potential.py:53), `nsolve` not converging (line 85), `solve` raising NotImplementedError (line 93), and complex or symbolic extrema breaking the sort key or `.astype(float)` (lines 95-96). In `bubbler` such an error becomes a failure record; `bubblers` lets it escape.
- Evaluating the potential and its gradient (`__call__`, `gradient`, lambdify) is left out: it is floating-point numerics in sympy/numpy.
- Plotting (`Potential.plot`, `profiles`, `one_dim_profiles`) is left out: it is matplotlib output.
- The CosmoTransitions adapter, the shooting solver and the timer are not part of this model. CosmoTransitions appears only as a function from potential to outcome.
- Writing `anybubble.ws` and `bubbler.cc` to disk is left out; the texts are modelled, the file writes are not. Running processes, loading files and reading the clock are `Io` inputs.
- Float-to-text conversion (`str` and `repr` of a float, `float(text)`, `np.genfromtxt`) is a parameter, not modelled.
- The `**kwargs` forwarding of `bubbler` and `solve` is left out; every backend is called with its default arguments.
- A file with a single data row loads as a one-dimensional array in numpy, which makes the `[:, ...]` indexing raise. The model keeps every loaded file two-dimensional.
- numpy and scipy error texts are named constants (`IndexOutOfBounds`, `EmptyReduction`, `TooFewEntries`). Their exact wording is not claimed.
- A non-backend global such as `np` reaches `module.solve` in the source and raises there. The model treats it like any unknown name.
- Bubbler.Evaluate: states only the two fill values outside the sampled range; the linear interpolation inside it is not modelled.
- Potentials.CGradient: the line count is stated only when no field name or derivative holds a newline. That each line still begins `dvdq[i] = ` after the renaming is not stated.
- Potentials.NamesToArray: the full result text is characterised only for texts that mention one of the fields (`NamesToArrayOnlyField`) and by the two-field example; texts mentioning several fields are covered only by the count and error statements.
- Potentials.MathematicaPotential: as for `NamesToArray`, the full text is stated only when the ginac text mentions a single field (`MathematicaPotentialOnlyField`).
- Potentials.CPotential: as for `NamesToArray`, the full text is stated only when the C code mentions a single field (`CPotentialOnlyField`).
- Potentials.MakePotential: uses the intended false-vacuum test, so with exactly one guess it differs from the constructor as written (`MakePotentialAsWritten` models that case). No caller inside the package passes exactly one guess.
- AnyBubble.MathPotential: the full text is stated for one field (`MathPotentialFirstMention`, with `ReplaceAllFirstMatch` for the rest of the text). With several fields, a later pass can rewrite inside an earlier `chi[...]`. For that case only the per-pass definition (`ChiFrom`) and the sequential-rewrite example are stated.
- Potentials.ChooseTrueVacuum: states that a lowest extremum is chosen, not which of two equal-valued extrema the stable sort puts first.

## Findings

| source | as written | input that shows it | evidently intended | confidence | as-written member | corrected member |
|---|---|---|---|---|---|---|
| bubbler/potential.py:73 | the false-vacuum branch tests `true_vacuum is not None` | with three extrema and polishing on, a true-vacuum guess without a false one gives the false vacuum `[None]` where the second-lowest extremum was due; an unpolished false guess without a true one is ignored (both shown by `Potentials.FalseVacuumMismatch`) | test `false_vacuum is not None`, as the true-vacuum branch does for its own guess | not executed | Potentials.ChooseFalseVacuumAsWritten | Potentials.ChooseFalseVacuum |
| bubbler/simplebounce.py:17 | `from anybubble import curly`, but `curly` is a local lambda of `anybubble.solve` (bubbler/anybubble.py:52) | importing the module at all: the import raises `ImportError: cannot import name curly` before `solve` can be reached | share the bracket-to-brace conversion at module level in `anybubble` | not executed | SimpleBounce.CurlyImportFails | AnyBubble.VacuumText |
