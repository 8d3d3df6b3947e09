/**
 * The walk of the checker as functions over its state: the registry of
 * function cursors (`functions`) and the diagnostics written so far. The
 * class in Checker.dfy performs the same walk in place and is proved equal
 * to these functions; the lemmas here state what a walk can and cannot do.
 */
module Walk {
  import opened Cursors
  import opened Diagnostics

  /** What `handle_children` does with a child, by the child's kind. */
  datatype Handler =
    | Skip            // mapped to None: not descended into
    | PassThrough     // missing from the table: `handle_children` on the child
    | HandleFunction
    | HandleBinary
    | HandleCall
    | HandleVariable
    | HandleReturn

  /** TYPEDEF_DECL, STRUCT_DECL and ENUM_DECL. */
  predicate DeclaresType(k: Kind)
  {
    k.TypedefDecl? || k.StructDecl? || k.EnumDecl?
  }

  /** The literal kinds of the table. */
  predicate IsLiteral(k: Kind)
  {
    || k.IntegerLiteral? || k.FloatingLiteral? || k.ImaginaryLiteral?
    || k.StringLiteral? || k.CharacterLiteral? || k.CxxBoolLiteralExpr?
  }

  /** The kind-to-handler table of `handle_children`. */
  function HandlerOf(k: Kind): (h: Handler)
    ensures h == Skip <==> DeclaresType(k) || IsLiteral(k)
    ensures h == HandleFunction <==> k == FunctionDecl
    ensures h == HandleBinary <==> k == BinaryOperator
    ensures h == HandleCall <==> k == CallExpr
    ensures h == HandleVariable <==> k == VarDecl
    ensures h == HandleReturn <==> k == ReturnStmt
  {
    match k
    case TypedefDecl | StructDecl | EnumDecl => Skip
    case IntegerLiteral | FloatingLiteral | ImaginaryLiteral | StringLiteral
      | CharacterLiteral | CxxBoolLiteralExpr => Skip
    case FunctionDecl => HandleFunction
    case BinaryOperator => HandleBinary
    case CallExpr => HandleCall
    case VarDecl => HandleVariable
    case ReturnStmt => HandleReturn
    case _ => PassThrough
  }

  /**
   * The trees the checker can walk without an exception: every binary
   * operator has at least two children (`handle_binary_operator` takes two
   * with `next`).
   */
  predicate WellFormed(c: Cursor)
    decreases c
  {
    && (c.kind == BinaryOperator ==> |c.children| >= 2)
    && forall i :: 0 <= i < |c.children| ==> WellFormed(c.children[i])
  }

  /** The mutable state of a run: the global `functions` list and the stderr log. */
  datatype WalkState = WalkState(functions: seq<Cursor>, diagnostics: seq<Diagnostic>)

  /** A walk only appends: to the registry and to the diagnostics. */
  ghost predicate Grows(st: WalkState, r: WalkState)
  {
    st.functions <= r.functions && st.diagnostics <= r.diagnostics
  }

  /** Every registry entry from index `from` on is a FUNCTION_DECL cursor. */
  ghost predicate DeclsFrom(r: WalkState, from: nat)
  {
    forall i :: from <= i < |r.functions| ==> r.functions[i].kind == FunctionDecl
  }

  /** One comparison would be reported. */
  predicate Reports(config: Config, c0: Cursor, c1: Cursor, loc: Location)
  {
    c0.spelling != c1.spelling && Owned(config, loc)
  }

  // ---------------------------------------------------------------------
  // The comparisons each construct makes itself, before its children
  // ---------------------------------------------------------------------

  /** Binary operator: the unwrapped first and second children, reported at the operator. */
  function BinaryOwn(config: Config, c: Cursor): (r: seq<Diagnostic>)
    requires |c.children| >= 2
    ensures |r| <= 1
    ensures |r| == 1 <==> Reports(config, Unwrap(c.children[0]), Unwrap(c.children[1]), c.location)
    ensures forall d :: d in r ==>
      && d.construct == InBinaryOperation && d.location == c.location
      && d.spelling0 == Unwrap(c.children[0]).spelling && d.spelling1 == Unwrap(c.children[1]).spelling
      && d.canonical0 == Unwrap(c.children[0]).canonical && d.canonical1 == Unwrap(c.children[1]).canonical
      && d.definedAt == None
    ensures forall d :: d in r ==> Genuine(config, d)
  {
    CompareTypes(config, Unwrap(c.children[0]), Unwrap(c.children[1]), c.location, InBinaryOperation, None)
  }

  /** Variable declaration: the declaration against its unwrapped last child, if it has children. */
  function VariableOwn(config: Config, c: Cursor): (r: seq<Diagnostic>)
    ensures c.children == [] ==> r == []
    ensures |r| <= 1
    ensures |r| == 1 <==> c.children != [] && Reports(config, c, Unwrap(c.children[|c.children| - 1]), c.location)
    ensures forall d :: d in r ==>
      && d.construct == InVariableDeclaration && d.location == c.location
      && c.children != [] && d.spelling0 == c.spelling
      && d.spelling1 == Unwrap(c.children[|c.children| - 1]).spelling
      && d.canonical0 == c.canonical && d.canonical1 == Unwrap(c.children[|c.children| - 1]).canonical
      && d.definedAt == None
    ensures forall d :: d in r ==> Genuine(config, d)
  {
    if c.children == [] then []
    else CompareTypes(config, c, Unwrap(c.children[|c.children| - 1]), c.location, InVariableDeclaration, None)
  }

  /**
   * Return statement: its first child against that child's own unwrapped
   * first child; skipped when either is missing.
   */
  function ReturnOwn(config: Config, c: Cursor): (r: seq<Diagnostic>)
    ensures c.children == [] || c.children[0].children == [] ==> r == []
    ensures |r| <= 1
    ensures |r| == 1 <==>
      && c.children != [] && c.children[0].children != []
      && Reports(config, c.children[0], Unwrap(c.children[0].children[0]), c.location)
    ensures forall d :: d in r ==>
      && d.construct == InReturnStatement && d.location == c.location
      && c.children != [] && c.children[0].children != []
      && d.spelling0 == c.children[0].spelling && d.spelling1 == Unwrap(c.children[0].children[0]).spelling
      && d.canonical0 == c.children[0].canonical && d.canonical1 == Unwrap(c.children[0].children[0]).canonical
      && d.definedAt == None
    ensures forall d :: d in r ==> Genuine(config, d)
  {
    if c.children == [] || c.children[0].children == [] then []
    else CompareTypes(config, c.children[0], Unwrap(c.children[0].children[0]), c.location, InReturnStatement, None)
  }

  /** The arguments of a call: every child but the first (`list(children)[1:]`). */
  function Arguments(c: Cursor): (r: seq<Cursor>)
    ensures |r| == if c.children == [] then 0 else |c.children| - 1
    ensures forall i :: 0 <= i < |r| ==> r[i] == c.children[i + 1]
  {
    if c.children == [] then [] else c.children[1..]
  }

  /** The PARM_DECL cursors among `cs`, in order. */
  function Parameters(cs: seq<Cursor>): (r: seq<Cursor>)
    ensures |r| <= |cs|
    ensures forall p :: p in r <==> p in cs && p.kind == ParmDecl
    decreases |cs|
  {
    if cs == [] then []
    else
      var last := cs[|cs| - 1];
      Parameters(cs[..|cs| - 1]) + if last.kind == ParmDecl then [last] else []
  }

  /** Collecting parameters distributes over concatenation: the filter keeps order and multiplicity. */
  lemma {:induction false} ParametersConcat(a: seq<Cursor>, b: seq<Cursor>)
    ensures Parameters(a + b) == Parameters(a) + Parameters(b)
    decreases |b|
  {
    if b == [] {
      assert a + b == a;
    } else {
      var init := b[..|b| - 1];
      var last := b[|b| - 1];
      var kept: seq<Cursor> := if last.kind == ParmDecl then [last] else [];
      calc {
        Parameters(a + b);
        { assert a + b == (a + init) + [last]; }
        Parameters((a + init) + [last]);
        { ParametersSnoc(a + init, last); }
        Parameters(a + init) + kept;
        { ParametersConcat(a, init); }
        (Parameters(a) + Parameters(init)) + kept;
        { CursorsAssoc(Parameters(a), Parameters(init), kept); }
        Parameters(a) + (Parameters(init) + kept);
        { assert b == init + [last]; ParametersSnoc(init, last); }
        Parameters(a) + Parameters(b);
      }
    }
  }

  /** Proof step: associativity of concatenation, stated once so the solver need not search for it; it models nothing of the checker. */
  lemma CursorsAssoc(x: seq<Cursor>, y: seq<Cursor>, z: seq<Cursor>)
    ensures (x + y) + z == x + (y + z)
  {
  }

  /** Collecting one more cursor appends it exactly when it is a PARM_DECL. */
  lemma ParametersSnoc(xs: seq<Cursor>, x: Cursor)
    ensures Parameters(xs + [x]) == Parameters(xs) + if x.kind == ParmDecl then [x] else []
  {
    assert (xs + [x])[..|xs|] == xs;
  }

  /** A single cursor is kept exactly when it is a PARM_DECL. */
  lemma ParametersSingle(x: Cursor)
    ensures Parameters([x]) == if x.kind == ParmDecl then [x] else []
  {
    assert [x][..0] == [];
  }

  /** The first index at or after `from` whose display name starts with `name(`. */
  function FindFrom(functions: seq<Cursor>, name: string, from: nat): (r: Option<nat>)
    requires from <= |functions|
    ensures r.Some? ==> from <= r.value < |functions| && StartsWith(functions[r.value].displayName, name + "(")
    ensures r.Some? ==> forall j :: from <= j < r.value ==> !StartsWith(functions[j].displayName, name + "(")
    ensures r.None? ==> forall j :: from <= j < |functions| ==> !StartsWith(functions[j].displayName, name + "(")
    decreases |functions| - from
  {
    if from == |functions| then None
    else if StartsWith(functions[from].displayName, name + "(") then Some(from)
    else FindFrom(functions, name, from + 1)
  }

  /** The registry entry a call to `name` resolves to: the first one whose display name starts with `name(`. */
  function FindFunction(functions: seq<Cursor>, name: string): (r: Option<nat>)
    ensures r.Some? ==> r.value < |functions| && StartsWith(functions[r.value].displayName, name + "(")
    ensures r.Some? ==> forall j :: 0 <= j < r.value ==> !StartsWith(functions[j].displayName, name + "(")
    ensures r.None? <==> forall j :: 0 <= j < |functions| ==> !StartsWith(functions[j].displayName, name + "(")
  {
    FindFrom(functions, name, 0)
  }

  /**
   * The first `n` parameter/argument pairs compared, each reported at the
   * argument and annotated with the called function's location.
   */
  function CallComparisons(config: Config, callee: string, definedAt: Location,
                           params: seq<Cursor>, args: seq<Cursor>, n: nat): (r: seq<Diagnostic>)
    requires n <= |params| && n <= |args|
    ensures |r| <= n
    ensures r == [] <==> forall i :: 0 <= i < n ==> !Reports(config, params[i], args[i], args[i].location)
    ensures forall d :: d in r ==> d.construct == InFunctionCall(callee) && d.definedAt == Some(definedAt)
    ensures forall d :: d in r ==> Genuine(config, d)
    decreases n
  {
    if n == 0 then []
    else
      CallComparisons(config, callee, definedAt, params, args, n - 1)
      + CompareTypes(config, params[n - 1], args[n - 1], args[n - 1].location, InFunctionCall(callee), Some(definedAt))
  }

  function Min(a: nat, b: nat): nat { if a <= b then a else b }

  /** How many of the first `n` parameter/argument pairs would be reported. */
  function CountReports(config: Config, params: seq<Cursor>, args: seq<Cursor>, n: nat): (r: nat)
    requires n <= |params| && n <= |args|
    ensures r <= n
    ensures r == 0 <==> forall i :: 0 <= i < n ==> !Reports(config, params[i], args[i], args[i].location)
    decreases n
  {
    if n == 0 then 0
    else
      CountReports(config, params, args, n - 1)
      + if Reports(config, params[n - 1], args[n - 1], args[n - 1].location) then 1 else 0
  }

  /**
   * Each zipped pair yields exactly one diagnostic when it mismatches and none
   * otherwise: the call's diagnostics number exactly the reporting pairs.
   */
  lemma {:induction false} CallComparisonsCount(config: Config, callee: string, definedAt: Location,
                                                params: seq<Cursor>, args: seq<Cursor>, n: nat)
    requires n <= |params| && n <= |args|
    ensures |CallComparisons(config, callee, definedAt, params, args, n)| == CountReports(config, params, args, n)
    decreases n
  {
    if n > 0 {
      CallComparisonsCount(config, callee, definedAt, params, args, n - 1);
    }
  }

  /** `a` is an initial part of `b`. */
  predicate IsPrefix(a: seq<Diagnostic>, b: seq<Diagnostic>)
  {
    |a| <= |b| && b[..|a|] == a
  }

  /**
   * Pair `i` is compared after every pair before it: the comparisons of the
   * first `i` pairs followed by the comparison of pair `i` are a prefix of
   * the comparisons of the first `n`, so each mismatching pair contributes
   * its own diagnostic, in `zip` order.
   */
  lemma {:induction false} CallComparisonsInOrder(config: Config, callee: string, definedAt: Location,
                                                  params: seq<Cursor>, args: seq<Cursor>, i: nat, n: nat)
    requires i < n <= |params| && n <= |args|
    ensures IsPrefix(CallComparisons(config, callee, definedAt, params, args, i)
      + CompareTypes(config, params[i], args[i], args[i].location, InFunctionCall(callee), Some(definedAt)),
      CallComparisons(config, callee, definedAt, params, args, n))
  {
    CallComparisonsGrow(config, callee, definedAt, params, args, i + 1, n);
    PrefixOfEqual(CallComparisons(config, callee, definedAt, params, args, i)
      + CompareTypes(config, params[i], args[i], args[i].location, InFunctionCall(callee), Some(definedAt)),
      CallComparisons(config, callee, definedAt, params, args, i + 1),
      CallComparisons(config, callee, definedAt, params, args, n));
  }

  /** Comparing more pairs only appends: the first `m` comparisons are a prefix of the first `n`. */
  lemma {:induction false} CallComparisonsGrow(config: Config, callee: string, definedAt: Location,
                                               params: seq<Cursor>, args: seq<Cursor>, m: nat, n: nat)
    requires m <= n <= |params| && n <= |args|
    ensures IsPrefix(CallComparisons(config, callee, definedAt, params, args, m),
                     CallComparisons(config, callee, definedAt, params, args, n))
    decreases n
  {
    var small := CallComparisons(config, callee, definedAt, params, args, m);
    if m < n {
      CallComparisonsGrow(config, callee, definedAt, params, args, m, n - 1);
      PrefixExtends(small, CallComparisons(config, callee, definedAt, params, args, n - 1),
        CompareTypes(config, params[n - 1], args[n - 1], args[n - 1].location, InFunctionCall(callee), Some(definedAt)),
        CallComparisons(config, callee, definedAt, params, args, n));
    } else {
      PrefixExtends(small, small, [], small);
    }
  }

  /** Proof step: a prefix of `b` is a prefix of anything equal to `b`; it models nothing of the checker. */
  lemma PrefixOfEqual(a: seq<Diagnostic>, b: seq<Diagnostic>, c: seq<Diagnostic>)
    requires a == b && IsPrefix(b, c)
    ensures IsPrefix(a, c)
  {
  }

  /** Proof step: a prefix stays a prefix when more is appended; it models nothing of the checker. */
  lemma PrefixExtends(a: seq<Diagnostic>, b: seq<Diagnostic>, e: seq<Diagnostic>, c: seq<Diagnostic>)
    requires IsPrefix(a, b) && c == b + e
    ensures IsPrefix(a, c)
  {
    assert c[..|a|] == b[..|a|];
  }

  /** `d` is reported at one of the first `n` arguments, with that pair's spellings and canonical spellings. */
  ghost predicate AtSomePair(d: Diagnostic, params: seq<Cursor>, args: seq<Cursor>, n: nat)
    requires n <= |params| && n <= |args|
  {
    exists i :: 0 <= i < n && d.location == args[i].location
      && d.spelling0 == params[i].spelling && d.spelling1 == args[i].spelling
      && d.canonical0 == params[i].canonical && d.canonical1 == args[i].canonical
  }

  /**
   * Every diagnostic of a call is reported at one of the compared arguments
   * and carries the spellings and canonical spellings of that argument and of
   * its parameter.
   */
  lemma {:induction false} CallDiagnosticsAtArguments(config: Config, callee: string, definedAt: Location,
                                                      params: seq<Cursor>, args: seq<Cursor>, n: nat)
    requires n <= |params| && n <= |args|
    ensures forall d :: d in CallComparisons(config, callee, definedAt, params, args, n) ==>
      AtSomePair(d, params, args, n)
    decreases n
  {
    if n > 0 {
      CallDiagnosticsAtArguments(config, callee, definedAt, params, args, n - 1);
      var earlier := CallComparisons(config, callee, definedAt, params, args, n - 1);
      var last := CompareTypes(config, params[n - 1], args[n - 1], args[n - 1].location,
        InFunctionCall(callee), Some(definedAt));
      forall d | d in earlier + last
        ensures AtSomePair(d, params, args, n)
      {
        if d in earlier {
          var i :| 0 <= i < n - 1 && d.location == args[i].location
            && d.spelling0 == params[i].spelling && d.spelling1 == args[i].spelling
            && d.canonical0 == params[i].canonical && d.canonical1 == args[i].canonical;
        } else {
          assert d in last;
        }
      }
    }
  }

  /**
   * A call's own comparisons against the registry as it is when the call is
   * reached: nothing if no registered function matches the callee's name,
   * otherwise the pairwise comparisons of its parameters with the arguments,
   * in `zip` order (see CallComparisonsInOrder).
   */
  function CallOwn(config: Config, c: Cursor, functions: seq<Cursor>): (r: seq<Diagnostic>)
    ensures FindFunction(functions, Leaf(c).displayName).None? ==> r == []
    ensures FindFunction(functions, Leaf(c).displayName).Some? ==>
      var f := functions[FindFunction(functions, Leaf(c).displayName).value];
      var params := Parameters(f.children);
      var args := Arguments(c);
      && (r == [] <==> forall i :: 0 <= i < Min(|params|, |args|) ==> !Reports(config, params[i], args[i], args[i].location))
      && (forall d :: d in r ==> d.definedAt == Some(f.location) && AtSomePair(d, params, args, Min(|params|, |args|)))
      && r == CallComparisons(config, Leaf(c).displayName, f.location, params, args, Min(|params|, |args|))
    ensures |r| <= |Arguments(c)|
    ensures forall d :: d in r ==> d.construct == InFunctionCall(Leaf(c).displayName)
    ensures forall d :: d in r ==> Genuine(config, d)
  {
    var name := Leaf(c).displayName;
    match FindFunction(functions, name)
    case None => []
    case Some(k) =>
      var params := Parameters(functions[k].children);
      var args := Arguments(c);
      CallDiagnosticsAtArguments(config, name, functions[k].location, params, args, Min(|params|, |args|));
      CallComparisons(config, name, functions[k].location, params, args, Min(|params|, |args|))
  }

  // ---------------------------------------------------------------------
  // The walk
  // ---------------------------------------------------------------------

  /** `handle_children`'s treatment of one child. */
  function Dispatch(config: Config, c: Cursor, st: WalkState): (r: WalkState)
    requires WellFormed(c)
    ensures Grows(st, r) && DeclsFrom(r, |st.functions|)
    ensures HandlerOf(c.kind) == Skip ==> r == st
    decreases c, 4, 0
  {
    match HandlerOf(c.kind)
    case Skip => st
    case PassThrough => Children(config, c, st)
    case HandleFunction => WalkFunctionDefinition(config, c, st)
    case HandleBinary => WalkBinaryOperator(config, c, st)
    case HandleCall => WalkCallExpression(config, c, st)
    case HandleVariable => WalkVariableDeclaration(config, c, st)
    case HandleReturn => WalkReturnStatement(config, c, st)
  }

  /** `handle_children`: every child in order. */
  function Children(config: Config, c: Cursor, st: WalkState): (r: WalkState)
    requires WellFormed(c)
    ensures Grows(st, r) && DeclsFrom(r, |st.functions|)
    ensures c.children == [] ==> r == st
    decreases c, 2, 0
  {
    ChildrenPrefix(config, c, |c.children|, st)
  }

  /** `handle_children` after its first `n` children. */
  function ChildrenPrefix(config: Config, c: Cursor, n: nat, st: WalkState): (r: WalkState)
    requires WellFormed(c) && n <= |c.children|
    ensures Grows(st, r) && DeclsFrom(r, |st.functions|)
    decreases c, 1, n
  {
    if n == 0 then st
    else Dispatch(config, c.children[n - 1], ChildrenPrefix(config, c, n - 1, st))
  }

  /**
   * `handle_function_definition`: the cursor is appended to the registry
   * first, then only its COMPOUND_STMT children are walked.
   */
  function WalkFunctionDefinition(config: Config, c: Cursor, st: WalkState): (r: WalkState)
    requires WellFormed(c)
    ensures Grows(st, r) && DeclsFrom(r, |st.functions| + 1)
    ensures |st.functions| < |r.functions| && r.functions[|st.functions|] == c
    decreases c, 3, 0
  {
    BodiesPrefix(config, c, |c.children|, WalkState(st.functions + [c], st.diagnostics))
  }

  /** `handle_function_definition`'s loop after its first `n` children. */
  function BodiesPrefix(config: Config, c: Cursor, n: nat, st: WalkState): (r: WalkState)
    requires WellFormed(c) && n <= |c.children|
    ensures Grows(st, r) && DeclsFrom(r, |st.functions|)
    decreases c, 1, n
  {
    if n == 0 then st
    else
      var mid := BodiesPrefix(config, c, n - 1, st);
      var child := c.children[n - 1];
      if child.kind == CompoundStmt then Children(config, child, mid) else mid
  }

  /** `handle_binary_operator`: its own comparison, then its children. */
  function WalkBinaryOperator(config: Config, c: Cursor, st: WalkState): (r: WalkState)
    requires WellFormed(c) && |c.children| >= 2
    ensures Grows(st, r) && DeclsFrom(r, |st.functions|)
    ensures st.diagnostics + BinaryOwn(config, c) <= r.diagnostics
    decreases c, 3, 0
  {
    Children(config, c, WalkState(st.functions, st.diagnostics + BinaryOwn(config, c)))
  }

  /** `handle_call_expression`: its own comparisons, then its children. */
  function WalkCallExpression(config: Config, c: Cursor, st: WalkState): (r: WalkState)
    requires WellFormed(c)
    ensures Grows(st, r) && DeclsFrom(r, |st.functions|)
    ensures st.diagnostics + CallOwn(config, c, st.functions) <= r.diagnostics
    decreases c, 3, 0
  {
    Children(config, c, WalkState(st.functions, st.diagnostics + CallOwn(config, c, st.functions)))
  }

  /** `handle_variable_declaration`: its own comparison, then its children. */
  function WalkVariableDeclaration(config: Config, c: Cursor, st: WalkState): (r: WalkState)
    requires WellFormed(c)
    ensures Grows(st, r) && DeclsFrom(r, |st.functions|)
    ensures st.diagnostics + VariableOwn(config, c) <= r.diagnostics
    ensures c.children == [] ==> r == st
    decreases c, 3, 0
  {
    Children(config, c, WalkState(st.functions, st.diagnostics + VariableOwn(config, c)))
  }

  /** `handle_return_statement`: its own comparison, then its children. */
  function WalkReturnStatement(config: Config, c: Cursor, st: WalkState): (r: WalkState)
    requires WellFormed(c)
    ensures Grows(st, r) && DeclsFrom(r, |st.functions|)
    ensures st.diagnostics + ReturnOwn(config, c) <= r.diagnostics
    ensures c.children == [] ==> r == st
    decreases c, 3, 0
  {
    Children(config, c, WalkState(st.functions, st.diagnostics + ReturnOwn(config, c)))
  }
}
