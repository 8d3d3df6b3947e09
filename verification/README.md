# strong_c_type_checker, modelled in Dafny

`strong_c_type_checker.py` is a stricter type checker for C. Clang parses
the translation unit. The script then walks the syntax tree and compares the
type spellings of the two sides of each construct:

- the operands of a binary operator;
- a called function's parameters against the call's arguments;
- a variable against its initialiser;
- a returned expression against the expression inside it.

Any mismatch inside one of the project's own files is written to stderr.
The types are not resolved through typedefs: two spellings that differ are
a mismatch even when their canonical types agree.

This project models the script's core in two parts.

**The checker** (`Cursors.dfy`, `Diagnostics.dfy`, `Walk.dfy`,
`WalkProperties.dfy`, `Checker.dfy`):

- The clang cursor is an immutable `Cursor` value with:
  - a kind;
  - a display name;
  - its type spelling and canonical spelling;
  - a location;
  - its children.
- The walk is specified by pure functions in module `Walk`. Each takes a
  `WalkState` made of the registry of `FUNCTION_DECL` cursors (the global
  `functions`) and the diagnostics written so far.
- The class `Checker.TypeChecker` is the program as it runs. Its fields are
  that registry and that log, and each method updates them in place. Every
  method is proved to leave exactly the state the matching `Walk` function
  describes, so the lemmas of `WalkProperties` hold of the class.

**Argument handling** (`Arguments.dfy`):

- the loop of `get_clang_includes` that picks the default include
  directories out of clang's verbose output;
- `parse_args`;
- `clean_walk`.

Each loop is a method proved equal to a specification function, or to a
set comprehension.

The model takes these as parameters:

- `os.path.abspath`, `os.path.dirname` and `os.path.join` are function
  values;
- the set of files the project owns (`available_includes`) is a set;
- clang's output is a sequence of lines.

## Model

| member | source | states |
|---|---|---|
| Cursors.Unwrap | strong_c_type_checker.py:188-195 | The result is a cursor where unwrapping stops: it is not UNEXPOSED_EXPR, or it has no children. It is reached from the argument by first children through UNEXPOSED_EXPR cursors only. A cursor that is not UNEXPOSED_EXPR is returned unchanged. |
| Cursors.UnwrapUnique | strong_c_type_checker.py:188-195 | Any stopping point reached along an UNEXPOSED_EXPR chain is the unwrapped cursor. Together with Unwrap's contract, this characterises the function fully. |
| Cursors.UnwrapIdempotent | strong_c_type_checker.py:188-195 | Unwrapping an unwrapped cursor changes nothing. |
| Cursors.UnexposedChainIsFirstDescendant | strong_c_type_checker.py:188-195 | Unwrapping only ever follows first children. |
| Cursors.StartsWithSlice | strong_c_type_checker.py:129 | `StartsWith` models `str.startswith`: it holds exactly when the prefix is no longer than the string and equals its initial slice. It also serves the `-I` test at line 310. |
| Cursors.EndsWithSlice | strong_c_type_checker.py:304 | `EndsWith` models `str.endswith`: it holds exactly when the suffix is no longer than the string and equals its final slice. |
| Cursors.Leaf | strong_c_type_checker.py:116-122 | `depth_first` returns a childless cursor reached from the call by first children. |
| Cursors.LeafUnique | strong_c_type_checker.py:116-122 | That childless first-child descendant is unique, so the callee name is determined. |
| Diagnostics.MessageText | strong_c_type_checker.py:108-179 | The four message lines of lines 108, 144, 163 and 179. Each starts with "Type missmatch in " and ends with a colon. |
| Diagnostics.MessageTextDistinct | strong_c_type_checker.py:108-179 | Different constructs, or calls of different callees, never print the same message line: the line determines the construct and the callee's display name. |
| Diagnostics.CompareTypes | strong_c_type_checker.py:197-226 | One comparison yields at most one diagnostic. It yields one iff the two type spellings differ and abspath of the location's file is an available include; canonical spellings do not enter the decision. The diagnostic carries the construct, the location, both spellings with their canonical spellings, and the optional definition location. |
| Walk.HandlerOf | strong_c_type_checker.py:54-71 | The table: typedef, struct and enum declarations and the literal kinds are skipped. FUNCTION_DECL, BINARY_OPERATOR, CALL_EXPR, VAR_DECL and RETURN_STMT each go to exactly their handler. Every other kind is passed through to `handle_children`. |
| Walk.BinaryOwn | strong_c_type_checker.py:95-109 | At most one diagnostic, and one exactly when the unwrapped first and second children would be reported. It is located at the operator and carries the spellings and canonical spellings of those two unwrapped children, with no definition location, so it is a genuine mismatch in an owned file. |
| Walk.VariableOwn | strong_c_type_checker.py:150-164 | A declaration without children reports nothing. Otherwise there is at most one diagnostic, and one exactly when the declaration and its unwrapped last child would be reported. It is located at the declaration and carries the declaration's spelling and canonical spelling and that child's, with no definition location. |
| Walk.ReturnOwn | strong_c_type_checker.py:168-182 | Nothing is reported when the statement or its first child has no child. Otherwise there is at most one diagnostic, and one exactly when the first child and its own unwrapped first child would be reported. It is located at the statement and carries those two cursors' spellings and canonical spellings, with no definition location. |
| Walk.Arguments | strong_c_type_checker.py:137 | The arguments are the children after the first, in order, and are not unwrapped. |
| Walk.Parameters | strong_c_type_checker.py:130-132 | Exactly the PARM_DECL children are collected. |
| Walk.ParametersConcat | strong_c_type_checker.py:130-132 | Collecting distributes over concatenation. With ParametersSingle this pins the PARM_DECL filter down completely, order and multiplicity included, which the positional `zip` relies on. |
| Walk.ParametersSingle | strong_c_type_checker.py:130-132 | One cursor is kept exactly when it is a PARM_DECL. |
| Walk.FindFrom | strong_c_type_checker.py:128-134 | Returns the first index at or after `from` whose display name starts with `name(`; None means no such index. |
| Walk.FindFunction | strong_c_type_checker.py:128-134 | The callee resolves to the first registered function whose display name starts with `name(`. None iff no registered function matches. |
| Walk.CallComparisons | strong_c_type_checker.py:139-146 | The pairwise comparisons report nothing iff no pair would be reported. Every diagnostic names the callee and the called function's location and is a genuine mismatch in an owned file. CallComparisonsCount and CallComparisonsInOrder together give exactly one diagnostic per mismatching pair, in `zip` order. |
| Walk.CallComparisonsCount | strong_c_type_checker.py:139-146 | One `compare_cursor_types` per zipped pair: the number of diagnostics for the first `n` pairs is exactly the number of those pairs that would be reported (`CountReports`). |
| Walk.CallComparisonsGrow | strong_c_type_checker.py:139-146 | Comparing more pairs only appends: the diagnostics for the first `m` pairs are a prefix of those for the first `n`, for `m <= n`. |
| Walk.CallComparisonsInOrder | strong_c_type_checker.py:139-146 | For every pair `i`, the comparisons of the pairs before it followed by the comparison of pair `i` are a prefix of the whole. So each mismatching pair contributes its own diagnostic, in `zip` order; with CallComparisonsCount, no pair contributes more than one. |
| Walk.CallDiagnosticsAtArguments | strong_c_type_checker.py:139-146 | Every call diagnostic is located at one of the compared arguments and carries the spellings of that argument and its parameter. |
| Walk.CallOwn | strong_c_type_checker.py:113-146 | With no matching registered function, nothing is compared. With a match, the call reports nothing iff no parameter/argument pair up to the shorter length would be reported. The result is then exactly `CallComparisons` over those pairs, so CallComparisonsInOrder and CallComparisonsCount give exactly one diagnostic per mismatching pair, in `zip` order. Every diagnostic carries the matched function's location and sits at one of those arguments with that pair's spellings and canonical spellings. There are never more diagnostics than arguments; every diagnostic names the callee found by `depth_first` and is genuine. |
| Walk.Dispatch | strong_c_type_checker.py:71-74 | One child's handling only appends to the registry and the log. Everything appended to the registry is a FUNCTION_DECL. A skipped kind changes nothing. |
| Walk.Children | strong_c_type_checker.py:50-74 | Walking the children only appends FUNCTION_DECLs to the registry and diagnostics to the log. A cursor without children changes nothing. |
| Walk.ChildrenPrefix | strong_c_type_checker.py:51-74 | The same, for the first `n` children. |
| Walk.WalkFunctionDefinition | strong_c_type_checker.py:82-93 | The function cursor itself is appended to the registry, at the end as it stood, before anything its body registers. Everything after it is a FUNCTION_DECL. |
| Walk.BodiesPrefix | strong_c_type_checker.py:87-93 | Walking the bodies only appends FUNCTION_DECLs and diagnostics. |
| Walk.WalkBinaryOperator | strong_c_type_checker.py:95-111 | The operator's own comparison is appended before anything its children add. |
| Walk.WalkCallExpression | strong_c_type_checker.py:113-148 | The call's own comparisons, against the registry as it stands, come before anything its children add. |
| Walk.WalkVariableDeclaration | strong_c_type_checker.py:150-166 | The declaration's own comparison comes first; without children nothing changes. |
| Walk.WalkReturnStatement | strong_c_type_checker.py:168-184 | The statement's own comparison comes first; without children nothing changes. |
| WalkProperties.DispatchUnowned | strong_c_type_checker.py:216-217 | A subtree lying wholly outside the owned files adds no diagnostic, whatever its shape. |
| WalkProperties.ChildrenUnowned | strong_c_type_checker.py:50-74 | The same for all the children of such a cursor. |
| WalkProperties.ChildrenPrefixUnowned | strong_c_type_checker.py:50-74 | The same for the first `n` children. |
| WalkProperties.BodiesUnowned | strong_c_type_checker.py:87-93 | The same for the bodies of an unowned function. |
| WalkProperties.CallOwnUnowned | strong_c_type_checker.py:139-146 | A call whose arguments all lie outside the owned files reports nothing of its own, wherever the call and its callee lie. |
| WalkProperties.DispatchRegistry | strong_c_type_checker.py:80-93 | What is registered depends neither on the include set nor on what has been reported: two walks from the same registry register the same functions. |
| WalkProperties.ChildrenRegistry | strong_c_type_checker.py:50-74 | The same for all children. |
| WalkProperties.ChildrenPrefixRegistry | strong_c_type_checker.py:50-74 | The same for the first `n` children. |
| WalkProperties.BodiesRegistry | strong_c_type_checker.py:87-93 | The same for a function's bodies. |
| WalkProperties.BodiesWithoutCompound | strong_c_type_checker.py:87-93 | A function whose children include no COMPOUND_STMT walks nothing. |
| WalkProperties.BodiesSeeOnlyCompound | strong_c_type_checker.py:87-93 | Only COMPOUND_STMT children are walked. Two function cursors whose children agree wherever either has a COMPOUND_STMT walk to the same state, whatever their other children (parameters, for instance) are. |
| WalkProperties.PrototypeOnlyRegisters | strong_c_type_checker.py:82-93 | A prototype (no COMPOUND_STMT child) is registered like a definition, and nothing else happens. |
| WalkProperties.UnregisteredCalleeUnchecked | strong_c_type_checker.py:128-136 | When no function registered so far matches the callee, the call only walks its children. This holds even if a matching definition is registered later. |
| WalkProperties.DispatchReportsOnlyMismatches | strong_c_type_checker.py:216-217 | Every diagnostic that one child's handling appends has two different spellings and lies in a file whose absolute path is an available include. |
| WalkProperties.ChildrenReportsOnlyMismatches | strong_c_type_checker.py:50-74 | The same for all the children of a cursor. |
| WalkProperties.ChildrenPrefixReportsOnlyMismatches | strong_c_type_checker.py:51-74 | The same for the first `n` children. |
| WalkProperties.ChildrenPrefixGenuineStep | strong_c_type_checker.py:51-74 | The step of that induction: a genuine prefix followed by a child's genuine diagnostics is genuine. |
| WalkProperties.BodiesReportOnlyMismatches | strong_c_type_checker.py:87-93 | The same for the bodies a function definition walks. |
| WalkProperties.CheckReportsOnlyMismatches | strong_c_type_checker.py:368 | A whole run writes only exact spelling mismatches inside owned files. |
| Checker.TypeChecker.constructor | strong_c_type_checker.py:80 | A run starts with an empty registry and an empty log. |
| Checker.TypeChecker.CompareCursorTypes | strong_c_type_checker.py:197-226 | Appends exactly `CompareTypes` to the log. |
| Checker.TypeChecker.HandleChildren | strong_c_type_checker.py:50-74 | Leaves the registry and log that `Walk.Children` describes. |
| Checker.TypeChecker.HandleFunctionDefinition | strong_c_type_checker.py:82-93 | Leaves the state that `Walk.WalkFunctionDefinition` describes. |
| Checker.TypeChecker.HandleBinaryOperator | strong_c_type_checker.py:95-111 | Leaves the state that `Walk.WalkBinaryOperator` describes. |
| Checker.TypeChecker.FindCalledFunction | strong_c_type_checker.py:124-134 | The registry scan with `break` returns the function `Walk.FindFunction` selects and its PARM_DECL children. It returns None and no parameters when nothing matches. |
| Checker.TypeChecker.CompareArguments | strong_c_type_checker.py:139-146 | The `zip` loop appends the comparisons of the first min(parameters, arguments) pairs. |
| Checker.TypeChecker.HandleCallExpression | strong_c_type_checker.py:113-148 | Leaves the state that `Walk.WalkCallExpression` describes. |
| Checker.TypeChecker.HandleVariableDeclaration | strong_c_type_checker.py:150-166 | Leaves the state that `Walk.WalkVariableDeclaration` describes. |
| Checker.TypeChecker.HandleReturnStatement | strong_c_type_checker.py:168-184 | Leaves the state that `Walk.WalkReturnStatement` describes. |
| Checker.CollectParameters | strong_c_type_checker.py:130-132 | The accumulator loop collects the PARM_DECL children in order. |
| Checker.CheckTranslationUnit | strong_c_type_checker.py:368 | The script's walk from a fresh state writes exactly the diagnostics `Walk.Children` gives for the translation unit. |
| Arguments.IsSpace | strong_c_type_checker.py:289 | The whitespace set of Python's `str.isspace`, behind `strip()`. Space, tab, newline, carriage return, vertical tab and form feed are whitespace; no printable ASCII character is; no code point above U+3000 is. |
| Arguments.TrimStart | strong_c_type_checker.py:289 | A suffix of the input that starts with a non-space, with only spaces cut before it. |
| Arguments.TrimEnd | strong_c_type_checker.py:289 | A prefix of the input that ends with a non-space, with only spaces cut after it. |
| Arguments.Strip | strong_c_type_checker.py:289 | `line.strip()`: neither end of the result is whitespace. |
| Arguments.StripRemovesOuterSpace | strong_c_type_checker.py:289 | The input is the leading whitespace, then the stripped line, then the trailing whitespace: stripping removes only outer whitespace. |
| Arguments.ScanClangIncludes | strong_c_type_checker.py:282-294 | The loop returns the captured lines, stripped, in order. |
| Arguments.CaptureOnIffOpen | strong_c_type_checker.py:282-292 | Capture is on at a line iff an earlier line is the start marker and no end marker lies between that marker and the line. |
| Arguments.ScanBlock | strong_c_type_checker.py:282-294 | For a listing with one start marker before one end marker and no end marker between them, exactly the lines strictly between the markers are captured, in order. Neither marker is captured. |
| Arguments.ScanBlockAt | strong_c_type_checker.py:282-294 | The same, stated by the markers' indices. |
| Arguments.PrefixSkipped | strong_c_type_checker.py:282-292 | Nothing is captured up to and including the first start marker. |
| Arguments.BlockTaken | strong_c_type_checker.py:282-292 | Every line after a start marker and before the next end marker is captured. |
| Arguments.SuffixSkipped | strong_c_type_checker.py:282-292 | From an end marker on, with no later start marker, nothing is captured. |
| Arguments.SkipUncaptured | strong_c_type_checker.py:288-289 | Uncaptured lines add nothing. |
| Arguments.TakeCaptured | strong_c_type_checker.py:288-289 | A run of captured lines is added whole and in order. |
| Arguments.ClosedBeforeStart | strong_c_type_checker.py:282-292 | Before the first start marker, capture is off. |
| Arguments.OpenUntilEnd | strong_c_type_checker.py:285-292 | After a start marker, capture stays on until the next end marker. |
| Arguments.ClosedAfterEnd | strong_c_type_checker.py:285-292 | After an end marker with no later start marker, capture stays off. |
| Arguments.RepeatedStartCaptured | strong_c_type_checker.py:285-292 | A second start marker met while capture is on is itself captured, because the capture test runs before the start-marker test. |
| Arguments.StripAll | strong_c_type_checker.py:289 | Line `i` of the result is `Strip` of line `i` of the input, and nothing else is in it. |
| Arguments.IncludePairs | strong_c_type_checker.py:324-327 | `["-I", inc]` for each default include, in order: element 2i is `-I` and element 2i+1 is the i-th include. |
| Arguments.DefaultIncludeArgs | strong_c_type_checker.py:324-327 | The loop builds exactly those pairs. |
| Arguments.IncludeRootsAppend | strong_c_type_checker.py:303-318 | One more argument adds its own roots, plus `-I` itself when it is the bare flag. |
| Arguments.RootsCollectedAreIncludeRoots | strong_c_type_checker.py:303-318 | What the loop has collected after `n` arguments is the include-root set of those arguments. |
| Arguments.ScanArguments | strong_c_type_checker.py:298-320 | The argument loop collects exactly `IncludeRoots(argv)`: the dirname of every `.c` argument, the non-empty rest of every `-I<dir>`, and the literal `-I` when a bare `-I` occurs. It forwards the arguments unchanged and in order. |
| Arguments.ParseArgs | strong_c_type_checker.py:296-336 | `parse_args`: the include roots as above. The clang arguments are the default-include pairs from the scanned output followed by `argv` verbatim. |
| Arguments.SeparateIncludeDirDropped | strong_c_type_checker.py:307-318 | As written, `-I inc` as two arguments gives the single root `-I`; `inc` is not a root. |
| Arguments.IntendedIncludeRootsAppend | strong_c_type_checker.py:303-318 | Corrected roots: one more argument adds its own roots, plus itself when it follows a bare `-I`. |
| Arguments.IntendedRootsCollectedAreIntended | strong_c_type_checker.py:303-318 | The corrected loop's collection after `n` arguments is the intended root set of those arguments. |
| Arguments.ScanArgumentsCorrected | strong_c_type_checker.py:298-320 | The corrected loop collects exactly `IntendedIncludeRoots`: the argument after every bare `-I` is a root. The flag rule adds a bare `-I` as a root only when it directly follows another bare `-I`, as for `-I -I`. It forwards the arguments unchanged. |
| Arguments.ParseArgsCorrected | strong_c_type_checker.py:296-336 | `parse_args` on the corrected loop, with the same clang arguments. |
| Arguments.SeparateIncludeDirKept | strong_c_type_checker.py:307-318 | With the correction, the argument after a bare `-I` is an include root. |
| Arguments.WalkedFilesAppend | strong_c_type_checker.py:244-246 | One more walk entry adds exactly its own files joined to its directory. |
| Arguments.CleanWalk | strong_c_type_checker.py:241-248 | `clean_walk` returns every file of every walk entry joined to that entry's directory, and nothing else. |

## Left out

- The clang front end (`Index.create`, `index.parse`). It is a foreign library, so the syntax tree is an input value.
- `subprocess.run` in `get_clang_includes` and the decoding and splitting of its stderr. This is process I/O; the scan starts from the list of lines.
- `get_available_includes`, `get_available_includes_one` and the `os.walk` they call. This is filesystem I/O. The set of owned files is an input, and `clean_walk` is modelled over a given walk.
- `os.path.abspath`, `os.path.dirname` and `os.path.join` are not modelled. They are function-valued parameters, because they depend on the working directory and on path syntax.
- The removal of `./null.o`. This is file I/O.
- The print helpers (`print_list`, `print_cursors_recursive`, `print_cursors`, `print_cursor`, `print_indent`).
- The text layout of a diagnostic. A diagnostic is kept as a structured value with the message's construct; the message strings themselves are in `Diagnostics.MessageText`.
- Python's recursion limit. `handle_children` and the handlers recurse two frames per tree level (lines 74, 111, 148, 166, 184). A deeply nested tree, such as a left-nested chain of a few hundred `+`, raises RecursionError and aborts the run. The walk members (`Walk.Dispatch`, `Walk.Children`, `Checker.TypeChecker.HandleChildren` and the handlers) recurse without bound and do not model that error path.
- The `depth` parameter of the handlers. It only feeds commented-out printing.
- A location without a file. clang's `SourceLocation.file` can be None; on a spelling mismatch, line 217 then raises AttributeError on `cursor_location.file.name` and aborts the run. The model gives every `Location` a file name, so that exception path is dropped.
- A BINARY_OPERATOR with fewer than two children. There, `next` raises `StopIteration` out of the walk. The model requires instead that every binary operator in the tree has two children (`Walk.WellFormed`).
- Two behaviours of the code a reader may not expect; the model follows the code:
  - the arguments of a call are compared without unwrapping (line 137);
  - the "desired" type of a return statement is its own first child, not the enclosing function's return type (lines 170-172).

## Findings

| source | as written | input that shows it | evidently intended | confidence | as-written member | corrected member |
|---|---|---|---|---|---|---|
| strong_c_type_checker.py:307-318 | A bare `-I` sets `grab_next_as_include_dir`, and the test at line 316 then consumes the flag in the same iteration, adding `-I` itself as a root. | `argv = ["-I", "inc"]` gives include roots `{"-I"}`; `inc` is never a root. | The argument after a bare `-I` is an include root (`{"inc"}` here), as with `-Iinc`. | high, not executed | Arguments.SeparateIncludeDirDropped | Arguments.ScanArgumentsCorrected |
