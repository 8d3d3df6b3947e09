/**
 * The checker as the program runs it: the registry `functions` and the
 * diagnostics log are fields updated in place as the walk proceeds. Every
 * method is proved to leave exactly the state that the matching function
 * of module Walk describes, so the lemmas about Walk hold of the checker.
 */
module Checker {
  import opened Cursors
  import opened Diagnostics
  import opened Walk

  class TypeChecker {
    /** `available_includes` and `os.path.abspath`, fixed for the run. */
    const config: Config
    /** The global `functions` list: every FUNCTION_DECL reached so far, in walk order. */
    var functions: seq<Cursor>
    /** What has been written to stderr, one entry per reported mismatch. */
    var diagnostics: seq<Diagnostic>

    function State(): WalkState
      reads this
    {
      WalkState(functions, diagnostics)
    }

    /** A fresh run: the registry is empty and nothing has been reported. */
    constructor (config: Config)
      ensures this.config == config
      ensures functions == [] && diagnostics == []
    {
      this.config := config;
      functions := [];
      diagnostics := [];
    }

    /** `compare_cursor_types`: append a diagnostic when the spellings differ in an owned file. */
    method CompareCursorTypes(c0: Cursor, c1: Cursor, loc: Location, construct: Construct,
                              definedAt: Option<Location>)
      modifies this`diagnostics
      ensures diagnostics == old(diagnostics) + CompareTypes(config, c0, c1, loc, construct, definedAt)
    {
      if c0.spelling != c1.spelling {
        if config.abspath(loc.file) in config.availableIncludes {
          diagnostics := diagnostics
            + [Diagnostic(construct, loc, c0.spelling, c0.canonical, c1.spelling, c1.canonical, definedAt)];
        }
      }
    }

    /** `handle_children`: look each child's kind up in the table and act on it. */
    method HandleChildren(c: Cursor)
      requires WellFormed(c)
      modifies this`functions, this`diagnostics
      ensures State() == Children(config, c, old(State()))
      decreases c, 1
    {
      for i := 0 to |c.children|
        invariant State() == ChildrenPrefix(config, c, i, old(State()))
      {
        var child := c.children[i];
        match HandlerOf(child.kind)
        case Skip =>
        case PassThrough => HandleChildren(child);
        case HandleFunction => HandleFunctionDefinition(child);
        case HandleBinary => HandleBinaryOperator(child);
        case HandleCall => HandleCallExpression(child);
        case HandleVariable => HandleVariableDeclaration(child);
        case HandleReturn => HandleReturnStatement(child);
      }
    }

    /** `handle_function_definition`: register the cursor, then walk its COMPOUND_STMT children. */
    method HandleFunctionDefinition(c: Cursor)
      requires WellFormed(c)
      modifies this`functions, this`diagnostics
      ensures State() == WalkFunctionDefinition(config, c, old(State()))
      decreases c, 2
    {
      functions := functions + [c];
      ghost var registered := State();
      for i := 0 to |c.children|
        invariant State() == BodiesPrefix(config, c, i, registered)
      {
        var child := c.children[i];
        if child.kind != CompoundStmt {
          continue;
        }
        HandleChildren(child);
      }
    }

    /** `handle_binary_operator`: compare the unwrapped operands, then walk the children. */
    method HandleBinaryOperator(c: Cursor)
      requires WellFormed(c) && |c.children| >= 2
      modifies this`functions, this`diagnostics
      ensures State() == WalkBinaryOperator(config, c, old(State()))
      decreases c, 2
    {
      var left := Unwrap(c.children[0]);
      var right := Unwrap(c.children[1]);
      CompareCursorTypes(left, right, c.location, InBinaryOperation, None);
      HandleChildren(c);
    }

    /**
     * The registry scan of `handle_call_expression`: the first registered
     * function whose display name starts with `name(`, with its PARM_DECL children.
     */
    method FindCalledFunction(name: string) returns (called: Option<Cursor>, registeredParameters: seq<Cursor>)
      ensures FindFunction(functions, name).None? ==> called == None && registeredParameters == []
      ensures FindFunction(functions, name).Some? ==>
        && called == Some(functions[FindFunction(functions, name).value])
        && registeredParameters == Parameters(called.value.children)
    {
      called := None;
      registeredParameters := [];
      var k := 0;
      while k < |functions|
        invariant 0 <= k <= |functions|
        invariant forall j :: 0 <= j < k ==> !StartsWith(functions[j].displayName, name + "(")
      {
        var candidate := functions[k];
        if StartsWith(candidate.displayName, name + "(") {
          registeredParameters := CollectParameters(candidate.children);
          called := Some(candidate);
          break;
        }
        k := k + 1;
      }
    }

    /** The `zip` loop of `handle_call_expression`: compare each parameter with its argument. */
    method CompareArguments(name: string, definedAt: Location, registeredParameters: seq<Cursor>,
                            calledParameters: seq<Cursor>)
      modifies this`diagnostics
      ensures diagnostics == old(diagnostics) + CallComparisons(config, name, definedAt, registeredParameters,
        calledParameters, Min(|registeredParameters|, |calledParameters|))
    {
      for i := 0 to Min(|registeredParameters|, |calledParameters|)
        invariant diagnostics == old(diagnostics)
          + CallComparisons(config, name, definedAt, registeredParameters, calledParameters, i)
      {
        CompareCursorTypes(registeredParameters[i], calledParameters[i], calledParameters[i].location,
                           InFunctionCall(name), Some(definedAt));
      }
    }

    /**
     * `handle_call_expression`: resolve the callee against the registry, compare
     * its parameters with the arguments pairwise, then walk the children.
     */
    method HandleCallExpression(c: Cursor)
      requires WellFormed(c)
      modifies this`functions, this`diagnostics
      ensures State() == WalkCallExpression(config, c, old(State()))
      decreases c, 2
    {
      var name := Leaf(c).displayName;
      var calledFunction, registeredParameters := FindCalledFunction(name);
      if calledFunction.Some? {
        var calledParameters := Arguments(c);
        CompareArguments(name, calledFunction.value.location, registeredParameters, calledParameters);
      }
      assert State() == WalkState(old(functions), old(diagnostics) + CallOwn(config, c, old(functions)));
      HandleChildren(c);
    }

    /** `handle_variable_declaration`: compare the declaration with its unwrapped last child, then walk. */
    method HandleVariableDeclaration(c: Cursor)
      requires WellFormed(c)
      modifies this`functions, this`diagnostics
      ensures State() == WalkVariableDeclaration(config, c, old(State()))
      decreases c, 2
    {
      if |c.children| != 0 {
        var definition := Unwrap(c.children[|c.children| - 1]);
        CompareCursorTypes(c, definition, c.location, InVariableDeclaration, None);
      }
      HandleChildren(c);
    }

    /**
     * `handle_return_statement`: compare the first child with that child's own
     * unwrapped first child when both exist, then walk the children.
     */
    method HandleReturnStatement(c: Cursor)
      requires WellFormed(c)
      modifies this`functions, this`diagnostics
      ensures State() == WalkReturnStatement(config, c, old(State()))
      decreases c, 2
    {
      if c.children != [] {
        var desired := c.children[0];
        if desired.children != [] {
          var actual := Unwrap(desired.children[0]);
          CompareCursorTypes(desired, actual, c.location, InReturnStatement, None);
        }
      }
      assert State() == WalkState(old(functions), old(diagnostics) + ReturnOwn(config, c));
      HandleChildren(c);
    }
  }

  /** The PARM_DECL children of a registered function, in order. */
  method CollectParameters(children: seq<Cursor>) returns (parameters: seq<Cursor>)
    ensures parameters == Parameters(children)
  {
    parameters := [];
    for m := 0 to |children|
      invariant parameters == Parameters(children[..m])
    {
      if children[m].kind == ParmDecl {
        parameters := parameters + [children[m]];
      }
      assert children[..m + 1][..m] == children[..m];
    }
    assert children[..|children|] == children;
  }

  /**
   * The script's last step: a fresh checker walks the translation unit's
   * children; the result is everything written to stderr, in order.
   */
  method CheckTranslationUnit(config: Config, unit: Cursor) returns (diagnostics: seq<Diagnostic>)
    requires WellFormed(unit)
    ensures diagnostics == Children(config, unit, WalkState([], [])).diagnostics
  {
    var checker := new TypeChecker(config);
    checker.HandleChildren(unit);
    diagnostics := checker.diagnostics;
  }
}
